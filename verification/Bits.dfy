/** Bitwise operators of the C and C++ sources, on natural numbers.

  A machine word of w bits is a nat below Pow2(w).  The operators are defined
  one bit at a time, so that they mean the same for every width.
 */
module Bits {

  type byte = x: int | 0 <= x < 256

  function Pow2(n: nat): (p: nat)
    ensures p > 0
  {
    if n == 0 then 1 else 2 * Pow2(n - 1)
  }

  /** `m & (1 << i)` is not zero */
  predicate HasBit(m: nat, i: nat) {
    if i == 0 then m % 2 == 1 else HasBit(m / 2, i - 1)
  }

  /** `a | b` */
  function Or(a: nat, b: nat): nat {
    if a == 0 then b
    else if b == 0 then a
    else 2 * Or(a / 2, b / 2) + (if a % 2 == 1 || b % 2 == 1 then 1 else 0)
  }

  /** `a & b` */
  function And(a: nat, b: nat): nat {
    if a == 0 || b == 0 then 0
    else 2 * And(a / 2, b / 2) + (if a % 2 == 1 && b % 2 == 1 then 1 else 0)
  }

  /** `a & ~b` */
  function AndNot(a: nat, b: nat): nat {
    if a == 0 then 0
    else 2 * AndNot(a / 2, b / 2) + (if a % 2 == 1 && b % 2 == 0 then 1 else 0)
  }

  lemma {:induction false} ZeroBit(i: nat)
    ensures !HasBit(0, i)
  {
    if i > 0 { ZeroBit(i - 1); }
  }

  lemma {:induction false} OrBit(a: nat, b: nat, i: nat)
    ensures HasBit(Or(a, b), i) <==> HasBit(a, i) || HasBit(b, i)
  {
    ZeroBit(i);
    if i > 0 && a > 0 && b > 0 { OrBit(a / 2, b / 2, i - 1); }
  }

  lemma {:induction false} AndNotBit(a: nat, b: nat, i: nat)
    ensures HasBit(AndNot(a, b), i) <==> HasBit(a, i) && !HasBit(b, i)
  {
    ZeroBit(i);
    if i > 0 && a > 0 { AndNotBit(a / 2, b / 2, i - 1); }
  }

  lemma {:induction false} Pow2Bit(i: nat, j: nat)
    ensures HasBit(Pow2(i), j) <==> i == j
  {
    if i == 0 && j > 0 {
      ZeroBit(j - 1);
    } else if i > 0 && j > 0 {
      Pow2Bit(i - 1, j - 1);
    }
  }

  /** `m | 1 << i` and `m & ~(1 << i)` */
  lemma WithBit(m: nat, i: nat, j: nat)
    ensures HasBit(Or(m, Pow2(i)), j) <==> HasBit(m, j) || i == j
    ensures HasBit(AndNot(m, Pow2(i)), j) <==> HasBit(m, j) && i != j
  {
    OrBit(m, Pow2(i), j);
    AndNotBit(m, Pow2(i), j);
    Pow2Bit(i, j);
  }

  /** A word is determined by its bits */
  lemma {:induction false} SameBits(a: nat, b: nat)
    requires forall i: nat :: HasBit(a, i) <==> HasBit(b, i)
    ensures a == b
    decreases a
  {
    assert HasBit(a, 0) <==> HasBit(b, 0);
    forall i: nat ensures HasBit(a / 2, i) <==> HasBit(b / 2, i) {
      assert HasBit(a, i + 1) <==> HasBit(b, i + 1);
    }
    if a > 0 {
      SameBits(a / 2, b / 2);
    } else if b > 0 {
      var i := SomeBit(b);
      ZeroBit(i);
    }
  }

  /** A word that is not zero has a bit set */
  lemma {:induction false} SomeBit(m: nat) returns (i: nat)
    requires m > 0
    ensures HasBit(m, i)
  {
    if m % 2 == 1 {
      i := 0;
    } else {
      var k := SomeBit(m / 2);
      i := k + 1;
    }
  }

  /** A word with no bit from w up fits w bits */
  lemma {:induction false} FitsWhenHighBitsClear(m: nat, w: nat)
    requires forall i: nat | i >= w :: !HasBit(m, i)
    ensures m < Pow2(w)
  {
    if m >= Pow2(w) {
      var i := HighBit(m, w);
    }
  }

  lemma {:induction false} HighBitClear(m: nat, w: nat, i: nat)
    requires m < Pow2(w) && i >= w
    ensures !HasBit(m, i)
  {
    if w == 0 {
      ZeroBit(i);
    } else {
      HighBitClear(m / 2, w - 1, i - 1);
    }
  }

  lemma {:induction false} HighBit(m: nat, w: nat) returns (i: nat)
    requires m >= Pow2(w)
    ensures i >= w && HasBit(m, i)
  {
    if w == 0 {
      i := SomeBit(m);
    } else {
      var k := HighBit(m / 2, w - 1);
      i := k + 1;
    }
  }

  lemma {:induction false} OrFits(a: nat, b: nat, w: nat)
    requires a < Pow2(w) && b < Pow2(w)
    ensures Or(a, b) < Pow2(w)
  {
    forall i: nat | i >= w ensures !HasBit(Or(a, b), i) {
      OrBit(a, b, i);
      HighBitClear(a, w, i);
      HighBitClear(b, w, i);
    }
    FitsWhenHighBitsClear(Or(a, b), w);
  }

  lemma {:induction false} AndNotFits(a: nat, b: nat, w: nat)
    requires a < Pow2(w)
    ensures AndNot(a, b) < Pow2(w)
  {
    forall i: nat | i >= w ensures !HasBit(AndNot(a, b), i) {
      AndNotBit(a, b, i);
      HighBitClear(a, w, i);
    }
    FitsWhenHighBitsClear(AndNot(a, b), w);
  }

  lemma {:induction false} Pow2Monotone(a: nat, b: nat)
    requires a <= b
    ensures Pow2(a) <= Pow2(b)
    decreases b - a
  {
    if a < b { Pow2Monotone(a, b - 1); }
  }

  lemma {:induction false} Pow2Strict(a: nat, b: nat)
    requires a < b
    ensures Pow2(a) < Pow2(b)
  {
    Pow2Monotone(a + 1, b);
  }

  lemma {:induction false} Pow2Add(a: nat, b: nat)
    ensures Pow2(a + b) == Pow2(a) * Pow2(b)
  {
    if b > 0 { Pow2Add(a, b - 1); }
  }

  const UINT8_END := 0x100
  const UINT16_END := 0x1_0000
  const UINT32_END := 0x1_0000_0000
  const UINT64_END := 0x1_0000_0000_0000_0000

  lemma WordSizes()
    ensures Pow2(8) == UINT8_END && Pow2(16) == UINT16_END && Pow2(32) == UINT32_END && Pow2(64) == UINT64_END
  {
    assert Pow2(2) == 4 && Pow2(4) == 16;
    Pow2Add(4, 4);
    Pow2Add(8, 8);
    Pow2Add(16, 16);
    Pow2Add(32, 32);
  }

  /** `m >> n` */
  function Shr(m: nat, n: nat): nat {
    if n == 0 then m else Shr(m / 2, n - 1)
  }

  lemma {:induction false} ShrBit(m: nat, n: nat)
    ensures (Shr(m, n) % 2 == 1 <==> HasBit(m, n)) && Shr(m, n) / 2 == Shr(m, n + 1)
    ensures Shr(m, n) <= m
  {
    if n > 0 { ShrBit(m / 2, n - 1); }
  }

  /** `m << n` */
  function Shl(m: nat, n: nat): nat {
    if n == 0 then m else 2 * Shl(m, n - 1)
  }

  /** `a << n | b`, when b fits below */
  lemma {:induction false} OrShifted(a: nat, n: nat, b: nat)
    requires b < Pow2(n)
    ensures Or(Shl(a, n), b) == Shl(a, n) + b
  {
    if n > 0 { OrShifted(a, n - 1, b / 2); }
  }

  lemma {:induction false} ShlTimes(a: nat, n: nat)
    ensures Shl(a, n) == a * Pow2(n)
  {
    if n > 0 {
      ShlTimes(a, n - 1);
      assert a * Pow2(n) == 2 * (a * Pow2(n - 1));
    }
  }

  lemma ShlBytes(a: nat)
    ensures Shl(a, 8) == a * 0x100 && Shl(a, 16) == a * 0x1_0000 && Shl(a, 24) == a * 0x100_0000
  {
    WordSizes();
    Pow2Add(16, 8);
    ShlTimes(a, 8);
    ShlTimes(a, 16);
    ShlTimes(a, 24);
  }

  lemma MaskHalf(n: nat)
    requires n > 0
    ensures (Pow2(n) - 1) / 2 == Pow2(n - 1) - 1 && (Pow2(n) - 1) % 2 == 1
  {
  }

  /** `m & mask`, for the mask of the low n bits, is what `m >> n` leaves out */
  lemma {:induction false} SplitAt(m: nat, n: nat)
    ensures m == Shl(Shr(m, n), n) + And(m, Pow2(n) - 1)
  {
    if n > 0 {
      MaskHalf(n);
      SplitAt(m / 2, n - 1);
    }
  }

  lemma {:induction false} AndMask(m: nat, n: nat)
    requires m < Pow2(n)
    ensures And(m, Pow2(n) - 1) == m
  {
    if n > 0 {
      MaskHalf(n);
      AndMask(m / 2, n - 1);
    }
  }

  lemma {:induction false} ShrBelow(m: nat, n: nat, w: nat)
    requires m < Pow2(n + w)
    ensures Shr(m, n) < Pow2(w)
  {
    if n > 0 { ShrBelow(m / 2, n - 1, w); }
  }
}
