/** Unsigned fixed point, 4.12 and 8.24, and real numbers
  (libnsm/platform-environmental.c).  Every value of a word is a multiple of
  2^-24 below 256, which a double holds exactly.
 */
module FixedPoint {
  import opened Bits

  const ONE_4_12 := 0x1000
  const ONE_8_24 := 0x100_0000

  // -------------------------------------------------------------------- 4.12

  /** NvUFXP4_12ToDouble */
  function FromUFXP4_12(raw: nat): real {
    raw as real / ONE_4_12 as real
  }

  /** doubleToNvUFXP4_12, which is for readings from 0 to 1 */
  function ToUFXP4_12(reading: real): nat
    requires reading >= 0.0
  {
    if reading > 1.0 then 0
    else
      var integerPart := reading.Floor;
      var fractionalPart := reading - integerPart as real;
      Or(Shl(And(integerPart, 0xF), 12), And((fractionalPart * 4096.0).Floor, 0xFFF))
  }

  /** The four high bits of a word are the integer part of its value, and the twelve
      low bits what follows, in 4096ths. */
  lemma FromUFXP4_12Means(raw: nat)
    ensures var x := FromUFXP4_12(raw);
      x.Floor == raw / 4096 && (x - x.Floor as real) * 4096.0 == (raw % 4096) as real
  {
    var x, i := FromUFXP4_12(raw), raw / 4096;
    assert x * 4096.0 == raw as real;
    assert raw == 4096 * i + raw % 4096;
    assert (x - i as real) * 4096.0 == (raw % 4096) as real;
  }

  /** From 0 to 1 it is the reading times 2^12, rounded down, and above 1 it is 0 */
  lemma ToUFXP4_12Means(x: real)
    requires x >= 0.0
    ensures ToUFXP4_12(x) == if x > 1.0 then 0 else (x * 4096.0).Floor
  {
    if x <= 1.0 {
      var i := x.Floor;
      OneOrLess(i, ((x - i as real) * 4096.0).Floor);
    }
  }

  lemma OneOrLess(i: nat, f: nat)
    requires i <= 1 && f < ONE_4_12
    ensures Or(Shl(And(i, 0xF), 12), And(f, 0xFFF)) == ONE_4_12 * i + f
  {
    assert Pow2(4) == 16;
    Pow2Add(4, 4);
    Pow2Add(8, 4);
    AndMask(i, 4);
    AndMask(f, 12);
    OrShifted(i, 12, f);
    ShlTimes(i, 12);
  }

  /** raw to value to raw is the identity exactly on 0 to 4096, */
  lemma UFXP4_12RawRoundTrip(raw: nat)
    ensures ToUFXP4_12(FromUFXP4_12(raw)) == raw <==> raw <= ONE_4_12
  {
    var x := FromUFXP4_12(raw);
    ToUFXP4_12Means(x);
    assert x * 4096.0 == raw as real;
    assert x > 1.0 <==> raw > ONE_4_12;
  }

  /** and value to raw to value rounds down, by less than 2^-12, exactly for the
      readings from 0 to 1 (any other becomes 0). */
  lemma UFXP4_12ValueRoundTrip(x: real)
    requires x >= 0.0
    ensures FromUFXP4_12(ToUFXP4_12(x)) <= x
    ensures x - FromUFXP4_12(ToUFXP4_12(x)) < 1.0 / 4096.0 <==> x <= 1.0
  {
    ToUFXP4_12Means(x);
    var r := ToUFXP4_12(x);
    assert FromUFXP4_12(r) * 4096.0 == r as real;
    if x <= 1.0 { assert r as real <= x * 4096.0 < r as real + 1.0; }
  }

  // -------------------------------------------------------------------- 8.24

  /** NvUFXP8_24ToDouble */
  function FromUFXP8_24(raw: nat): real {
    var msb := And(Shr(raw, 24), 0xFF);
    var lsb := And(raw, 0xFFFFFF);
    msb as real + lsb as real / ONE_8_24 as real
  }

  /** doubleToNvUFXP8_24, for what fits 32 bits */
  function ToUFXP8_24(reading: real): nat
    requires 0.0 <= reading < 256.0
  {
    (reading * ONE_8_24 as real).Floor
  }

  lemma Parts(raw: nat)
    requires raw < UINT32_END
    ensures And(Shr(raw, 24), 0xFF) * ONE_8_24 + And(raw, 0xFFFFFF) == raw
  {
    WordSizes();
    Pow2Add(16, 8);
    SplitAt(raw, 24);
    ShlTimes(Shr(raw, 24), 24);
    ShrBelow(raw, 24, 8);
    AndMask(Shr(raw, 24), 8);
  }

  /** The two parts together are the word divided by 2^24 */
  lemma PartsAreQuotient(raw: nat)
    requires raw < UINT32_END
    ensures FromUFXP8_24(raw) == raw as real / ONE_8_24 as real
  {
    Parts(raw);
  }

  lemma UFXP8_24RawRoundTrip(raw: nat)
    requires raw < UINT32_END
    ensures 0.0 <= FromUFXP8_24(raw) < 256.0 && ToUFXP8_24(FromUFXP8_24(raw)) == raw
  {
    PartsAreQuotient(raw);
    assert FromUFXP8_24(raw) * ONE_8_24 as real == raw as real;
  }

  /** The raw word of a reading is the greatest whose value does not exceed it */
  lemma UFXP8_24Greatest(x: real, raw: nat)
    requires 0.0 <= x < 256.0 && raw < UINT32_END
    ensures 0 <= ToUFXP8_24(x) < UINT32_END
    ensures raw <= ToUFXP8_24(x) <==> FromUFXP8_24(raw) <= x
  {
    PartsAreQuotient(raw);
    var y := x * ONE_8_24 as real;
    assert y < UINT32_END as real;
    assert FromUFXP8_24(raw) <= x <==> raw as real <= y;
  }

  lemma UFXP8_24ValueRoundTrip(x: real)
    requires 0.0 <= x < 256.0
    ensures var back := FromUFXP8_24(ToUFXP8_24(x)); back <= x && x - back < 1.0 / ONE_8_24 as real
  {
    var r := ToUFXP8_24(x);
    UFXP8_24Greatest(x, r);
    PartsAreQuotient(r);
    var y := x * ONE_8_24 as real;
    assert y < r as real + 1.0;
    assert (x - FromUFXP8_24(r)) * ONE_8_24 as real == y - r as real;
  }
}
