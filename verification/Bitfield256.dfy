/** 256-bit fields of eight 32-bit words: their conversions to bytes, and the set
  of error codes already logged (common/utils.cpp).
 */
module Bitfield256 {
  import opened Bits
  import opened Bitmap

  type uint32 = x: int | 0 <= x < UINT32_END
  type Bitfield = f: seq<uint32> | |f| == 8 witness [0, 0, 0, 0, 0, 0, 0, 0]

  /** Bit k of the field */
  predicate Flag(bf: Bitfield, k: nat)
    requires k < 256
  {
    HasBit(bf[k / 32], k % 32)
  }

  // ------------------------------------------------------------- conversions

  /** `w >> 24 & 0xFF`, ..., `w >> 0 & 0xFF`: the four bytes, highest first */
  function WordBytes(w: uint32): seq<byte> {
    [w / 0x100_0000, w / 0x1_0000 % 0x100, w / 0x100 % 0x100, w % 0x100]
  }

  function BytesWord(b: seq<byte>): nat
    requires |b| == 4
  {
    Word(b[0], b[1], b[2], b[3])
  }

  function Word(b0: nat, b1: nat, b2: nat, b3: nat): nat {
    b0 * 0x100_0000 + b1 * 0x1_0000 + b2 * 0x100 + b3
  }

  function ToBytes(bf: Bitfield, n: nat): (r: seq<byte>)
    requires n <= 8
    ensures |r| == 4 * n
  {
    if n == 0 then [] else ToBytes(bf, n - 1) + WordBytes(bf[n - 1])
  }

  /** bitfield256_tToBitArray */
  method BitArray(bf: Bitfield) returns (bitmap: array<byte>)
    ensures fresh(bitmap) && bitmap[..] == ToBytes(bf, 8)
  {
    bitmap := new byte[32](_ => 0);
    var i := 0;
    while i < 8
      invariant 0 <= i <= 8 && bitmap.Length == 32 && bitmap[..4 * i] == ToBytes(bf, i)
    {
      var w := bf[i];
      bitmap[i * 4 + 0] := w / 0x100_0000;
      bitmap[i * 4 + 1] := w / 0x1_0000 % 0x100;
      bitmap[i * 4 + 2] := w / 0x100 % 0x100;
      bitmap[i * 4 + 3] := w % 0x100;
      assert bitmap[4 * i..4 * i + 4] == WordBytes(w);
      assert bitmap[..4 * i] == ToBytes(bf, i);
      assert bitmap[..4 * i + 4] == bitmap[..4 * i] + bitmap[4 * i..4 * i + 4];
      i := i + 1;
    }
    assert bitmap[..32] == bitmap[..];
  }

  /** The way bitMapToBitfield256_t puts a word together */
  function OrWord(b0: nat, b1: nat, b2: nat, b3: nat): nat {
    Or(Or(Or(Or(0, Shl(b0, 24)), Shl(b1, 16)), Shl(b2, 8)), b3)
  }

  lemma OrWordIsWord(b0: nat, b1: nat, b2: nat, b3: nat)
    requires b0 < 256 && b1 < 256 && b2 < 256 && b3 < 256
    ensures OrWord(b0, b1, b2, b3) == Word(b0, b1, b2, b3) < UINT32_END
  {
    OrWordIsSum(b0, b1, b2, b3, b0 * 0x100 + b1, b0 * 0x1_0000 + b1 * 0x100 + b2);
    ShlBytes(b0 * 0x1_0000 + b1 * 0x100 + b2);
  }

  lemma OrWordIsSum(b0: nat, b1: nat, b2: nat, b3: nat, x: nat, y: nat)
    requires b0 < 256 && b1 < 256 && b2 < 256 && b3 < 256
    requires x == b0 * 0x100 + b1 && y == x * 0x100 + b2
    ensures OrWord(b0, b1, b2, b3) == Shl(y, 8) + b3
  {
    WordSizes();
    OrNextByte(b0, 16, b1);
    OrNextByte(x, 8, b2);
    OrShifted(y, 8, b3);
  }

  lemma OrNextByte(a: nat, n: nat, b: nat)
    requires (n == 8 || n == 16) && b < 256
    ensures Or(Shl(a, n + 8), Shl(b, n)) == Shl(a * 0x100 + b, n)
  {
    WordSizes();
    Pow2Add(16, 8);
    ShlBytes(a);
    ShlBytes(b);
    ShlBytes(a * 0x100 + b);
    OrShifted(a, n + 8, Shl(b, n));
  }

  /** bitMapToBitfield256_t; a bitmap of another size gives the empty field */
  method FromBitArray(bitmap: seq<byte>) returns (bf: Bitfield)
    ensures |bitmap| != 32 ==> bf == [0, 0, 0, 0, 0, 0, 0, 0]
    ensures |bitmap| == 32 ==> ToBytes(bf, 8) == bitmap
  {
    bf := [0, 0, 0, 0, 0, 0, 0, 0];
    if |bitmap| != 32 { return; }
    var i := 0;
    while i < 8
      invariant 0 <= i <= 8 && ToBytes(bf, i) == bitmap[..4 * i]
    {
      var b := bitmap[4 * i..4 * i + 4];
      OrWordIsWord(b[0], b[1], b[2], b[3]);
      WordOfBytes(b);
      ghost var before := bf;
      bf := bf[i := OrWord(b[0], b[1], b[2], b[3])];
      SameBytes(before, bf, i);
      i := i + 1;
      assert bitmap[..4 * i] == bitmap[..4 * (i - 1)] + b;
    }
    assert bitmap[..32] == bitmap;
  }

  lemma WordOfBytes(b: seq<byte>)
    requires |b| == 4
    ensures BytesWord(b) < UINT32_END && WordBytes(BytesWord(b)) == b
  {
    Quotients(b[0], b[1], b[2], b[3]);
  }

  lemma Quotients(b0: nat, b1: nat, b2: nat, b3: nat)
    requires b0 < 256 && b1 < 256 && b2 < 256 && b3 < 256
    ensures var w := Word(b0, b1, b2, b3);
      w < UINT32_END && w % 0x100 == b3 && w / 0x100 % 0x100 == b2 && w / 0x1_0000 % 0x100 == b1 && w / 0x100_0000 == b0
  {
    var w := Word(b0, b1, b2, b3);
    assert w / 0x100 == b0 * 0x1_0000 + b1 * 0x100 + b2;
    assert w / 0x1_0000 == b0 * 0x100 + b1;
  }

  lemma BytesOfWord(w: uint32)
    ensures BytesWord(WordBytes(w)) == w
  {
    assert w / 0x1_0000 == w / 0x100 / 0x100 && w / 0x100_0000 == w / 0x1_0000 / 0x100;
  }

  lemma {:induction false} SameBytes(a: Bitfield, b: Bitfield, n: nat)
    requires n <= 8 && a[..n] == b[..n]
    ensures ToBytes(a, n) == ToBytes(b, n)
  {
    if n > 0 {
      assert a[..n - 1] == a[..n][..n - 1] && b[..n - 1] == b[..n][..n - 1];
      assert a[n - 1] == a[..n][n - 1] && b[n - 1] == b[..n][n - 1];
      SameBytes(a, b, n - 1);
    }
  }

  /** The bytes determine the field, so the two conversions are inverses */
  lemma {:induction false} BytesDetermine(a: Bitfield, b: Bitfield, n: nat)
    requires n <= 8 && ToBytes(a, n) == ToBytes(b, n)
    ensures a[..n] == b[..n]
  {
    if n > 0 {
      var u, v := ToBytes(a, n), ToBytes(b, n);
      assert u[..4 * (n - 1)] == ToBytes(a, n - 1) && v[..4 * (n - 1)] == ToBytes(b, n - 1);
      assert u[4 * (n - 1)..] == WordBytes(a[n - 1]) && v[4 * (n - 1)..] == WordBytes(b[n - 1]);
      BytesDetermine(a, b, n - 1);
      BytesOfWord(a[n - 1]);
      BytesOfWord(b[n - 1]);
    }
  }

  lemma {:induction false} ShrHasBit(m: nat, n: nat, j: nat)
    ensures HasBit(Shr(m, n), j) <==> HasBit(m, n + j)
  {
    if n > 0 { ShrHasBit(m / 2, n - 1, j); }
  }

  lemma ShrByte(m: nat)
    ensures Shr(m, 8) == m / 256 && Shr(m, 16) == m / 0x1_0000 && Shr(m, 24) == m / 0x100_0000
  {
    Shr8(m);
    Shr8(m / 256);
    Shr8(m / 0x1_0000);
    ShrAdd(m, 8, 8);
    ShrAdd(m, 16, 8);
  }

  lemma Shr8(m: nat)
    ensures Shr(m, 8) == m / 256
  {
    assert Shr(m, 8) == Shr(m / 4, 6) && Shr(m / 4, 6) == Shr(m / 4 / 4, 4);
    assert Shr(m / 16, 4) == Shr(m / 16 / 4, 2) && Shr(m / 64, 2) == Shr(m / 64 / 2, 1);
    assert Shr(m / 128, 1) == Shr(m / 128 / 2, 0);
  }

  lemma {:induction false} ShrAdd(m: nat, a: nat, b: nat)
    ensures Shr(m, a + b) == Shr(Shr(m, a), b)
  {
    if a > 0 { ShrAdd(m / 2, a - 1, b); }
  }

  /** A multiple of 2^n does not touch the low n bits */
  lemma {:induction false} LowBits(m: nat, low: nat, high: nat, n: nat, j: nat)
    requires m == low + Shl(high, n) && j < n
    ensures HasBit(low, j) <==> HasBit(m, j)
  {
    if j > 0 { LowBits(m / 2, low / 2, high, n - 1, j - 1); }
  }

  lemma LowByteBit(m: nat, j: nat)
    requires j < 8
    ensures HasBit(m % 256, j) <==> HasBit(m, j)
  {
    ShlBytes(m / 256);
    LowBits(m, m % 256, m / 256, 8, j);
  }

  lemma ByteOfWord(w: uint32, c: nat)
    requires c < 4
    ensures WordBytes(w)[3 - c] == Shr(w, 8 * c) % 256
  {
    ShrByte(w);
    assert w / 0x100_0000 % 256 == w / 0x100_0000;
  }

  /** The words are in order */
  lemma {:induction false} WordsInOrder(bf: Bitfield, n: nat, i: nat)
    requires i < n <= 8
    ensures ToBytes(bf, n)[4 * i..4 * i + 4] == WordBytes(bf[i])
  {
    if i < n - 1 {
      WordsInOrder(bf, n - 1, i);
      assert ToBytes(bf, n)[4 * i..4 * i + 4] == ToBytes(bf, n - 1)[4 * i..4 * i + 4];
    }
  }

  /** The two conversions to bytes differ: each word is mirrored byte by byte */
  lemma Mirrored(bf: Bitfield, i: nat, c: nat, j: nat)
    requires i < 8 && c < 4 && j < 8
    ensures HasBit(ToBytes(bf, 8)[4 * i + 3 - c], j) <==> Flag(bf, 32 * i + 8 * c + j)
  {
    WordsInOrder(bf, 8, i);
    assert ToBytes(bf, 8)[4 * i..4 * i + 4][3 - c] == ToBytes(bf, 8)[4 * i + 3 - c];
    assert (32 * i + 8 * c + j) / 32 == i && (32 * i + 8 * c + j) % 32 == 8 * c + j;
    ByteOfWord(bf[i], c);
    ShrHasBit(bf[i], 8 * c, j);
    LowByteBit(Shr(bf[i], 8 * c), j);
  }

  /** bitfield256_tToBitMap: bit k of the field is bit k of the bitmap */
  method BitMap(bf: Bitfield) returns (bitmap: seq<byte>)
    ensures |bitmap| == 32 && forall k: nat | k < 256 :: Bit(bitmap, k) <==> Flag(bf, k)
  {
    bitmap := Blank(32);
    assert forall k: nat | k < 256 :: !Bit(bitmap, k) by {
      forall k: nat | k < 256 ensures !Bit(bitmap, k) { ZeroBit(k % 8); }
    }
    var i := 0;
    while i < 8
      invariant 0 <= i <= 8 && |bitmap| == 32
      invariant forall k: nat | k < 256 :: Bit(bitmap, k) <==> k < 32 * i && Flag(bf, k)
    {
      var j := 0;
      while j < 32
        invariant 0 <= j <= 32 && |bitmap| == 32
        invariant forall k: nat | k < 256 :: Bit(bitmap, k) <==> k < 32 * i + j && Flag(bf, k)
      {
        ghost var at := 32 * i + j;
        assert at / 32 == i && at % 32 == j && at / 8 == i * 4 + j / 8 && at % 8 == j % 8;
        if HasBit(bf[i], j) {
          ghost var before := bitmap;
          bitmap := SetBit(bitmap, 32 * i + j);
          forall k: nat | k < 256 ensures Bit(bitmap, k) <==> Bit(before, k) || k == at { SetBitBit(before, at, k); }
        }
        j := j + 1;
      }
      i := i + 1;
    }
  }

  // ---------------------------------------------------------- each error once

  /** The error codes tracked */
  function Codes(bf: Bitfield): set<nat> {
    set k: nat | k < 256 && Flag(bf, k)
  }

  class ErrorCodes {
    var bitMap: Bitfield

    constructor ()
      ensures Codes(bitMap) == {}
    {
      bitMap := [0, 0, 0, 0, 0, 0, 0, 0];
      new;
      forall k: nat | k < 256 ensures !Flag(bitMap, k) { ZeroBit(k % 32); }
    }

    /** Whether a code has been seen before; 0 is not an error */
    method IsBitSet(errCode: nat) returns (seen: bool)
      requires errCode < 256
      modifies this
      ensures seen <==> errCode == 0 || errCode in old(Codes(bitMap))
      ensures Codes(bitMap) == old(Codes(bitMap)) + if errCode == 0 then {} else {errCode}
    {
      if errCode == 0 { return true; }
      var fieldIndex, bitIndex := errCode / 32, errCode % 32;
      assert 32 * fieldIndex + bitIndex == errCode;
      var word := bitMap[fieldIndex];
      if !HasBit(word, bitIndex) {
        SetFlag(bitMap, fieldIndex, bitIndex);
        bitMap := bitMap[fieldIndex := Or(word, Pow2(bitIndex))];
        return false;
      }
      seen := true;
    }

    /** The codes seen, in the order they are listed */
    method GetSetBits() returns (codes: seq<nat>)
      ensures Ascending(codes) && forall k: nat :: k in codes <==> k in Codes(bitMap)
    {
      codes := [];
      var i := 0;
      while i < 8
        invariant 0 <= i <= 8 && codes == SetBits(bitMap, i)
      {
        var word: nat := bitMap[i];
        while word > 0
          invariant codes + Offset(WordBits(word), 32 * i) == SetBits(bitMap, i + 1)
          decreases word
        {
          var position := LowestBit(word);
          codes := codes + [i * 32 + position];
          ClearLowest(word, 0);
          word := And(word, word - 1);
        }
        assert Offset(WordBits(word), 32 * i) == [];
        i := i + 1;
      }
      SetBitsMean(bitMap, 8);
    }
  }

  lemma SetFlag(bf: Bitfield, i: nat, j: nat)
    requires i < 8 && j < 32
    ensures Or(bf[i], Pow2(j)) < UINT32_END
    ensures var bf': Bitfield := bf[i := Or(bf[i], Pow2(j))]; Codes(bf') == Codes(bf) + {32 * i + j}
  {
    WordSizes();
    Pow2Strict(j, 32);
    OrFits(bf[i], Pow2(j), 32);
    var bf': Bitfield := bf[i := Or(bf[i], Pow2(j))];
    forall k: nat | k < 256 ensures Flag(bf', k) <==> Flag(bf, k) || k == 32 * i + j { SetFlagAt(bf, bf', i, j, k); }
  }

  lemma SetFlagAt(bf: Bitfield, bf': Bitfield, i: nat, j: nat, k: nat)
    requires i < 8 && j < 32 && k < 256 && Or(bf[i], Pow2(j)) < UINT32_END && bf' == bf[i := Or(bf[i], Pow2(j))]
    ensures Flag(bf', k) <==> Flag(bf, k) || k == 32 * i + j
  {
    WithBit(bf[i], j, k % 32);
  }

  /** __builtin_ctz */
  function LowestBit(m: nat): (i: nat)
    requires m > 0
  {
    if m % 2 == 1 then 0 else 1 + LowestBit(m / 2)
  }

  /** `m & (m - 1)` takes the lowest bit away and nothing else */
  lemma {:induction false} ClearLowest(m: nat, i: nat)
    requires m > 0
    ensures And(m, m - 1) < m
    ensures HasBit(And(m, m - 1), i) <==> HasBit(m, i) && i != LowestBit(m)
    ensures HasBit(m, LowestBit(m)) && (HasBit(m, i) ==> LowestBit(m) <= i)
  {
    if m % 2 == 1 {
      AndSelf(m / 2);
      assert And(m, m - 1) == m - 1 && (m - 1) / 2 == m / 2;
    } else {
      assert (m - 1) / 2 == m / 2 - 1;
      ClearLowest(m / 2, if i == 0 then 0 else i - 1);
      assert And(m, m - 1) == 2 * And(m / 2, m / 2 - 1);
    }
  }

  lemma {:induction false} AndSelf(m: nat)
    ensures And(m, m) == m
  {
    if m > 0 { AndSelf(m / 2); }
  }

  /** The positions of the bits of a word, lowest first */
  function WordBits(m: nat): seq<nat>
  {
    if m == 0 then []
    else
      ClearLowest(m, 0);
      [LowestBit(m)] + WordBits(And(m, m - 1))
  }

  function Offset(s: seq<nat>, d: nat): seq<nat> {
    seq(|s|, i requires 0 <= i < |s| => s[i] + d)
  }

  function SetBits(bf: Bitfield, n: nat): seq<nat>
    requires n <= 8
  {
    if n == 0 then [] else SetBits(bf, n - 1) + Offset(WordBits(bf[n - 1]), 32 * (n - 1))
  }

  lemma {:induction false} WordBitsMean(m: nat)
    ensures Ascending(WordBits(m)) && forall i: nat :: i in WordBits(m) <==> HasBit(m, i)
  {
    if m == 0 {
      forall i: nat ensures !HasBit(m, i) { ZeroBit(i); }
    } else {
      ClearLowest(m, 0);
      WordBitsMean(And(m, m - 1));
      NextLowest(m, WordBits(And(m, m - 1)));
    }
  }

  lemma NextLowest(m: nat, rest: seq<nat>)
    requires m > 0 && Ascending(rest) && forall i: nat :: i in rest <==> HasBit(And(m, m - 1), i)
    ensures Ascending([LowestBit(m)] + rest) && forall i: nat :: i in [LowestBit(m)] + rest <==> HasBit(m, i)
  {
    var low := LowestBit(m);
    forall j | 0 <= j < |rest| ensures low + 1 <= rest[j] {
      assert rest[j] in rest;
      ClearLowest(m, rest[j]);
    }
    Joined([low], rest, low + 1);
    forall i: nat ensures i in [low] + rest <==> HasBit(m, i) { ClearLowest(m, i); }
  }

  lemma Joined(s: seq<nat>, t: seq<nat>, d: nat)
    requires Ascending(s) && Ascending(t)
    requires (forall i | 0 <= i < |s| :: s[i] < d) && forall i | 0 <= i < |t| :: d <= t[i]
    ensures Ascending(s + t)
  {
  }

  lemma OffsetBits(bf: Bitfield, i: nat)
    requires i < 8
    ensures var more := Offset(WordBits(bf[i]), 32 * i);
      Ascending(more) && forall k: nat :: k in more <==> 32 * i <= k < 32 * (i + 1) && Flag(bf, k)
  {
    var bits := WordBits(bf[i]);
    var more := Offset(bits, 32 * i);
    WordBitsMean(bf[i]);
    WordSizes();
    forall j | 0 <= j < |bits| ensures bits[j] < 32 {
      assert bits[j] in bits;
      if bits[j] >= 32 { HighBitClear(bf[i], 32, bits[j]); }
    }
    forall k: nat ensures k in more <==> 32 * i <= k < 32 * (i + 1) && Flag(bf, k) {
      if 32 * i <= k < 32 * (i + 1) {
        assert k / 32 == i && k % 32 == k - 32 * i;
        if k % 32 in bits {
          var j :| 0 <= j < |bits| && bits[j] == k % 32;
          assert more[j] == k;
        }
      }
    }
  }

  lemma {:induction false} SetBitsMean(bf: Bitfield, n: nat)
    requires n <= 8
    ensures Ascending(SetBits(bf, n)) && forall k: nat :: k in SetBits(bf, n) <==> k < 32 * n && Flag(bf, k)
  {
    if n > 0 {
      var before, more := SetBits(bf, n - 1), Offset(WordBits(bf[n - 1]), 32 * (n - 1));
      SetBitsMean(bf, n - 1);
      OffsetBits(bf, n - 1);
      forall i | 0 <= i < |before| ensures before[i] < 32 * (n - 1) { assert before[i] in before; }
      forall i | 0 <= i < |more| ensures 32 * (n - 1) <= more[i] { assert more[i] in more; }
      Joined(before, more, 32 * (n - 1));
    }
  }

  /** The use made of it (nsmd/nsmObject.hpp:99-102): a code is logged only if it
      is new, and in the end those seen are listed.  A code is new exactly the
      first time it occurs, and the list has exactly the codes that occurred,
      ascending; 0 is not one. */
  method LogOnce(codes: seq<nat>) returns (isNew: seq<bool>, listed: seq<nat>)
    requires forall c <- codes :: c < 256
    ensures |isNew| == |codes| && forall i | 0 <= i < |codes| :: isNew[i] <==> codes[i] != 0 && codes[i] !in codes[..i]
    ensures Ascending(listed) && forall c: nat :: c in listed <==> c != 0 && c in codes
  {
    var errors := new ErrorCodes();
    isNew := [];
    var i := 0;
    while i < |codes|
      invariant 0 <= i <= |codes| && |isNew| == i
      invariant forall c: nat :: c in Codes(errors.bitMap) <==> c != 0 && c in codes[..i]
      invariant forall j | 0 <= j < i :: isNew[j] <==> codes[j] != 0 && codes[j] !in codes[..j]
    {
      assert codes[i] in codes && codes[..i + 1] == codes[..i] + [codes[i]];
      var seen := errors.IsBitSet(codes[i]);
      isNew := isNew + [!seen];
      i := i + 1;
    }
    assert codes[..i] == codes;
    listed := errors.GetSetBits();
  }
}
