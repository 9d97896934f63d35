/** Little-endian integers, as htole16/32/64 and memcpy lay them out */
module LittleEndian {
  import opened Bits

  /** The low n bytes of `v`, lowest first */
  function LeBytes(v: nat, n: nat): (s: seq<byte>)
    ensures |s| == n
  {
    if n == 0 then [] else [v % 256] + LeBytes(v / 256, n - 1)
  }

  function LeValue(s: seq<byte>): nat {
    if s == [] then 0 else s[0] + 256 * LeValue(s[1..])
  }

  /** An integer that fits n bytes survives being written and read */
  lemma {:induction false} LeRoundTrip(v: nat, n: nat)
    requires v < Pow2(8 * n)
    ensures LeValue(LeBytes(v, n)) == v
  {
    if n > 0 {
      Pow2Add(8 * (n - 1), 8);
      WordSizes();
      LeRoundTrip(v / 256, n - 1);
      assert LeBytes(v, n)[1..] == LeBytes(v / 256, n - 1);
    }
  }

  /** and n bytes survive being read and written */
  lemma {:induction false} LeBytesOfValue(s: seq<byte>)
    ensures LeBytes(LeValue(s), |s|) == s && LeValue(s) < Pow2(8 * |s|)
  {
    if s != [] {
      LeBytesOfValue(s[1..]);
      Pow2Add(8 * (|s| - 1), 8);
      WordSizes();
    }
  }
}
