/** Histogram responses: arrays of integers in the byte order of the host, and on
  the wire (libnsm/base.c).
 */
module Histogram {
  import opened Bits
  import opened LittleEndian
  import opened Seqs

  /** BucketFormat */
  const NVU8 := 0
  const NVS8 := 1
  const NVU16 := 2
  const NVS16 := 3
  const NVU32 := 4
  const NVS32 := 5
  const NVU64 := 6
  const NVS64 := 7
  const NVS24_8 := 8

  /** Bytes of an element, none for an unknown type */
  function Width(dataType: nat): nat {
    if dataType == NVU8 || dataType == NVS8 then 1
    else if dataType == NVU16 || dataType == NVS16 then 2
    else if dataType == NVU32 || dataType == NVS32 || dataType == NVS24_8 then 4
    else if dataType == NVU64 || dataType == NVS64 then 8
    else 0
  }

  // -------------------------------------------------------------- one element

  function Reverse<T>(s: seq<T>): (r: seq<T>)
    ensures |r| == |s|
  {
    seq(|s|, i requires 0 <= i < |s| => s[|s| - 1 - i])
  }

  lemma ReverseTwice<T>(s: seq<T>)
    ensures Reverse(Reverse(s)) == s
  {
  }

  /** The integer a host has in memory as these bytes, and back; `big` says which
      end comes first */
  function Value(big: bool, e: seq<byte>): nat {
    LeValue(if big then Reverse(e) else e)
  }

  function Bytes(big: bool, v: nat, w: nat): (e: seq<byte>)
    ensures |e| == w
  {
    if big then Reverse(LeBytes(v, w)) else LeBytes(v, w)
  }

  /** htole16, htole32, htole64 and le16toh, le32toh, le64toh */
  function Swap(big: bool, v: nat, w: nat): nat {
    if big then LeValue(Reverse(LeBytes(v, w))) else v
  }

  /** memcpy to a variable, conversion, memcpy back */
  function Convert(big: bool, e: seq<byte>): (r: seq<byte>)
    ensures |r| == |e|
  {
    Bytes(big, Swap(big, Value(big, e), |e|), |e|)
  }

  /** What has been converted is the value of before, lowest byte first; what is
      lowest byte first is, once converted, its value on the host; and twice is
      once too often. */
  lemma ConvertMeans(big: bool, e: seq<byte>)
    ensures LeValue(Convert(big, e)) == Value(big, e)
    ensures Value(big, Convert(big, e)) == LeValue(e)
    ensures Convert(big, Convert(big, e)) == e
  {
    ConvertIsReverse(big, e);
    var r := Convert(big, e);
    ConvertIsReverse(big, r);
    ReverseTwice(e);
  }

  lemma ConvertIsReverse(big: bool, e: seq<byte>)
    ensures Convert(big, e) == if big then Reverse(e) else e
  {
    LeBytesOfValue(e);
    if big { Swapped(e, Reverse(e)); }
  }

  lemma Swapped(e: seq<byte>, r: seq<byte>)
    requires r == Reverse(e)
    ensures Convert(true, e) == r
  {
    LeBytesOfValue(e);
    LeBytesOfValue(r);
    ReverseTwice(e);
  }

  // --------------------------------------------------------------- the array

  /** Bytes of n elements */
  function Total(w: nat, n: nat): nat {
    if n == 0 then 0 else w + Total(w, n - 1)
  }

  ghost predicate KeepsLength(convert: seq<byte> -> seq<byte>) {
    forall e :: |convert(e)| == |e|
  }

  /** The first n elements of w bytes converted, the rest as it was */
  function ConvertAll(convert: seq<byte> -> seq<byte>, s: seq<byte>, w: nat, n: nat): (r: seq<byte>)
    requires Total(w, n) <= |s| && KeepsLength(convert)
    ensures |r| == |s|
    decreases n
  {
    if n == 0 then s else convert(s[..w]) + ConvertAll(convert, s[w..], w, n - 1)
  }

  /** The values of the first n elements */
  function Values(value: seq<byte> -> nat, s: seq<byte>, w: nat, n: nat): (r: seq<nat>)
    requires Total(w, n) <= |s|
    ensures |r| == n
    decreases n
  {
    if n == 0 then [] else [value(s[..w])] + Values(value, s[w..], w, n - 1)
  }

  /** Converted by f, then by g, elements have the values they had */
  lemma {:induction false} SameValues(f: seq<byte> -> seq<byte>, g: seq<byte> -> seq<byte>, before: seq<byte> -> nat,
                                      after: seq<byte> -> nat,
                                      s: seq<byte>, w: nat, n: nat)
    requires Total(w, n) <= |s| && KeepsLength(f) && KeepsLength(g) && forall e :: after(g(f(e))) == before(e)
    ensures Values(after, ConvertAll(g, ConvertAll(f, s, w, n), w, n), w, n) == Values(before, s, w, n)
    decreases n
  {
    if n > 0 {
      var t := ConvertAll(f, s, w, n);
      var u := ConvertAll(g, t, w, n);
      assert t[..w] == f(s[..w]) && t[w..] == ConvertAll(f, s[w..], w, n - 1);
      assert u[..w] == g(t[..w]) && u[w..] == ConvertAll(g, t[w..], w, n - 1);
      SameValues(f, g, before, after, s[w..], w, n - 1);
    }
  }

  /** What lies behind the elements does not matter */
  lemma {:induction false} ConvertFront(convert: seq<byte> -> seq<byte>, s: seq<byte>, rest: seq<byte>, w: nat, n: nat)
    requires Total(w, n) == |s| && KeepsLength(convert)
    ensures ConvertAll(convert, s + rest, w, n) == ConvertAll(convert, s, w, n) + rest
    decreases n
  {
    if n > 0 {
      assert (s + rest)[..w] == s[..w] && (s + rest)[w..] == s[w..] + rest;
      ConvertFront(convert, s[w..], rest, w, n - 1);
      Associative(convert(s[..w]), ConvertAll(convert, s[w..], w, n - 1), rest);
    }
  }

  /** An array of integers of one of the eight types, converted on a host */
  function Converted(big: bool, s: seq<byte>, dataType: nat, n: nat): (r: seq<byte>)
    requires Total(Width(dataType), n) <= |s| && dataType != NVS24_8
    ensures |r| == |s|
  {
    ConvertAll(e => Convert(big, e), s, Width(dataType), n)
  }

  function HostValues(big: bool, s: seq<byte>, dataType: nat, n: nat): seq<nat>
    requires Total(Width(dataType), n) <= |s|
  {
    Values(e => Value(big, e), s, Width(dataType), n)
  }

  /** Integers of any of the eight types, converted on one host and converted
      again on another, have the same values, whatever the byte order of each. */
  lemma AcrossHosts(bigA: bool, bigB: bool, s: seq<byte>, dataType: nat, n: nat)
    requires Total(Width(dataType), n) <= |s| && dataType != NVS24_8
    ensures HostValues(bigB, Converted(bigB, Converted(bigA, s, dataType, n), dataType, n), dataType, n)
         == HostValues(bigA, s, dataType, n)
  {
    var f, g := (e: seq<byte>) => Convert(bigA, e), (e: seq<byte>) => Convert(bigB, e);
    var before, after := (e: seq<byte>) => Value(bigA, e), (e: seq<byte>) => Value(bigB, e);
    forall e ensures after(g(f(e))) == before(e) {
      ConvertMeans(bigA, e);
      ConvertMeans(bigB, f(e));
    }
    SameValues(f, g, before, after, s, Width(dataType), n);
  }

  /** On the wire they are lowest byte first */
  lemma OnTheWire(big: bool, s: seq<byte>, dataType: nat, n: nat)
    requires Total(Width(dataType), n) <= |s| && dataType != NVS24_8
    ensures HostValues(false, Converted(big, s, dataType, n), dataType, n) == HostValues(big, s, dataType, n)
  {
    AcrossHosts(big, false, s, dataType, n);
    LittleUnchanged(Converted(big, s, dataType, n), dataType, n);
  }

  lemma LittleUnchanged(s: seq<byte>, dataType: nat, n: nat)
    requires Total(Width(dataType), n) <= |s| && dataType != NVS24_8
    ensures Converted(false, s, dataType, n) == s
  {
    var convert := (e: seq<byte>) => Convert(false, e);
    forall e ensures convert(e) == e { ConvertIsReverse(false, e); }
    Unchanged(convert, s, Width(dataType), n);
  }

  lemma {:induction false} Unchanged(convert: seq<byte> -> seq<byte>, s: seq<byte>, w: nat, n: nat)
    requires Total(w, n) <= |s| && KeepsLength(convert) && forall e | |e| == w :: convert(e) == e
    ensures ConvertAll(convert, s, w, n) == s
    decreases n
  {
    if n > 0 { Unchanged(convert, s[w..], w, n - 1); }
  }

  // ---------------------------------------------------- integers in memory

  /** The codes of the integer types, and their bits */
  predicate IsInteger(dataType: nat, bits: nat) {
    || (bits == 8 && dataType in {0, 1})
    || (bits == 16 && dataType in {2, 3})
    || (bits == 32 && dataType in {4, 5})
    || (bits == 64 && dataType in {6, 7})
  }

  /** So many bytes are converted and copied; fixed point numbers take 32 bits, and
      nothing is copied for a type that is not known. */
  lemma {:induction false} ElementSizes(dataType: nat, bits: nat, n: nat)
    requires IsInteger(dataType, bits) || (dataType == 8 && bits == 32) || (dataType > 8 && bits == 0)
    ensures Total(Width(dataType), n) == n * (bits / 8)
  {
    if n > 0 { ElementSizes(dataType, bits, n - 1); }
  }

  /** A list of integers of w bytes as a host has it in memory */
  function Laid(big: bool, vs: seq<nat>, w: nat): seq<byte> {
    if vs == [] then [] else Bytes(big, vs[0], w) + Laid(big, vs[1..], w)
  }

  lemma ValueOfBytes(big: bool, v: nat, w: nat)
    requires v < Pow2(8 * w)
    ensures Value(big, Bytes(big, v, w)) == v
  {
    LeRoundTrip(v, w);
    ReverseTwice(LeBytes(v, w));
  }

  lemma BytesOfValue(big: bool, e: seq<byte>)
    ensures Bytes(big, Value(big, e), |e|) == e
  {
    LeBytesOfValue(e);
    LeBytesOfValue(Reverse(e));
    ReverseTwice(e);
  }

  lemma FirstOfValues(value: seq<byte> -> nat, e: seq<byte>, rest: seq<byte>, n: nat)
    requires Total(|e|, n) <= |rest|
    ensures Values(value, e + rest, |e|, n + 1) == [value(e)] + Values(value, rest, |e|, n)
  {
    assert (e + rest)[..|e|] == e && (e + rest)[|e|..] == rest;
  }

  /** The values of laid out integers are these, and nothing else has these values */
  lemma {:induction false} ValuesLaid(big: bool, value: seq<byte> -> nat, vs: seq<nat>, w: nat)
    requires forall i | 0 <= i < |vs| :: value(Bytes(big, vs[i], w)) == vs[i]
    ensures |Laid(big, vs, w)| == Total(w, |vs|) && Values(value, Laid(big, vs, w), w, |vs|) == vs
    decreases |vs|
  {
    if vs != [] {
      ValuesLaid(big, value, vs[1..], w);
      FirstOfValues(value, Bytes(big, vs[0], w), Laid(big, vs[1..], w), |vs| - 1);
      assert vs == [vs[0]] + vs[1..];
    }
  }

  lemma {:induction false} LaidValues(big: bool, value: seq<byte> -> nat, s: seq<byte>, w: nat, n: nat)
    requires (forall e :: value(e) == Value(big, e)) && |s| == Total(w, n)
    ensures Laid(big, Values(value, s, w, n), w) == s
    decreases n
  {
    if n > 0 {
      BytesOfValue(big, s[..w]);
      LaidValues(big, value, s[w..], w, n - 1);
      assert Values(value, s, w, n)[1..] == Values(value, s[w..], w, n - 1);
      assert s == s[..w] + s[w..];
    }
  }

  lemma LaidSize(big: bool, dataType: nat, bits: nat, vs: seq<nat>)
    requires IsInteger(dataType, bits) && forall i | 0 <= i < |vs| :: vs[i] < Pow2(bits)
    ensures |Laid(big, vs, bits / 8)| == |vs| * (bits / 8) == Total(Width(dataType), |vs|)
  {
    ElementSizes(dataType, bits, |vs|);
    forall i | 0 <= i < |vs| ensures Value(big, Bytes(big, vs[i], bits / 8)) == vs[i] {
      ValueOfBytes(big, vs[i], bits / 8);
    }
    ElementSizes(dataType, bits, 1);
    ValuesLaid(big, e => Value(big, e), vs, bits / 8);
  }

  /** On the wire they are laid out lowest byte first, and converted again as the
      other host has them. */
  lemma LaidConverts(bigA: bool, bigB: bool, dataType: nat, bits: nat, vs: seq<nat>)
    requires IsInteger(dataType, bits) && forall i | 0 <= i < |vs| :: vs[i] < Pow2(bits)
    ensures |Laid(bigA, vs, bits / 8)| == |Laid(false, vs, bits / 8)| == Total(Width(dataType), |vs|)
    ensures Converted(bigA, Laid(bigA, vs, bits / 8), dataType, |vs|) == Laid(false, vs, bits / 8)
    ensures Converted(bigB, Laid(false, vs, bits / 8), dataType, |vs|) == Laid(bigB, vs, bits / 8)
  {
    var w, n := bits / 8, |vs|;
    LaidSize(bigA, dataType, bits, vs);
    LaidSize(false, dataType, bits, vs);
    var wire := Converted(bigA, Laid(bigA, vs, w), dataType, n);
    OnTheWire(bigA, Laid(bigA, vs, w), dataType, n);
    LaidIff(bigA, dataType, bits, vs, Laid(bigA, vs, w));
    LaidIff(false, dataType, bits, vs, wire);
    AcrossHosts(bigA, bigB, Laid(bigA, vs, w), dataType, n);
    LaidIff(bigB, dataType, bits, vs, Converted(bigB, wire, dataType, n));
  }

  /** Any integers that a type can hold are read back, and only their bytes read so */
  lemma LaidIff(big: bool, dataType: nat, bits: nat, vs: seq<nat>, s: seq<byte>)
    requires IsInteger(dataType, bits) && (forall i | 0 <= i < |vs| :: vs[i] < Pow2(bits)) && |s| == |vs| * (bits / 8)
    ensures |s| == Total(Width(dataType), |vs|)
    ensures HostValues(big, s, dataType, |vs|) == vs <==> s == Laid(big, vs, bits / 8)
  {
    var w, value := bits / 8, (e: seq<byte>) => Value(big, e);
    ElementSizes(dataType, bits, |vs|);
    ElementSizes(dataType, bits, 1);
    assert Width(dataType) == w;
    forall i | 0 <= i < |vs| ensures value(Bytes(big, vs[i], w)) == vs[i] { ValueOfBytes(big, vs[i], w); }
    ValuesLaid(big, value, vs, w);
    LaidValues(big, value, s, w, |vs|);
  }

  // ---------------------------------------------------------------- the code

  /** htoleArrayData and letohArrayData, which do the same */
  method ConvertArray(big: bool, data: array<byte>, numOfElement: nat, dataType: nat)
    requires Total(Width(dataType), numOfElement) <= data.Length && dataType != NVS24_8
    modifies data
    ensures data[..] == Converted(big, old(data[..]), dataType, numOfElement)
  {
    var w := Width(dataType);
    var convert := e => Convert(big, e);
    if w < 2 {
      forall e: seq<byte> | |e| == w ensures convert(e) == e { ConvertIsReverse(big, e); }
      Unchanged(convert, data[..], w, numOfElement);
    } else {
      ConvertElements(convert, data, numOfElement, w);
    }
  }

  method ConvertElements(convert: seq<byte> -> seq<byte>, data: array<byte>, n: nat, w: nat)
    requires Total(w, n) <= data.Length && KeepsLength(convert)
    modifies data
    ensures data[..] == ConvertAll(convert, old(data[..]), w, n)
  {
    var pos, i := 0, 0;
    ghost var done, left := [], data[..];
    ghost var target := ConvertAll(convert, left, w, n);
    while i < n
      invariant 0 <= i <= n && 0 <= pos <= data.Length && Total(w, n - i) <= |left|
      invariant done == data[..pos] && left == data[pos..] && done + ConvertAll(convert, left, w, n - i) == target
    {
      ConvertElement(convert, data, pos, w);
      Associative(done, convert(left[..w]), ConvertAll(convert, left[w..], w, n - i - 1));
      done, left := done + convert(left[..w]), left[w..];
      i := i + 1;
      pos := pos + w;
    }
  }

  method ConvertElement(convert: seq<byte> -> seq<byte>, data: array<byte>, pos: nat, w: nat)
    requires pos + w <= data.Length && KeepsLength(convert)
    modifies data
    ensures data[..pos + w] == old(data[..pos]) + convert(old(data[pos..])[..w])
    ensures data[pos + w..] == old(data[pos..])[w..]
  {
    assert data[pos..pos + w] == data[pos..][..w];
    var e := convert(data[pos..pos + w]);
    Write(data, pos, e);
  }

  /** dataCopy, to `dest` from `at` on */
  method DataCopy(src: seq<byte>, dest: array<byte>, at: nat, numOfElement: nat, dataType: nat)
    requires Total(Width(dataType), numOfElement) <= |src| && at + Total(Width(dataType), numOfElement) <= dest.Length
    modifies dest
    ensures var n := Total(Width(dataType), numOfElement);
      dest[..] == old(dest[..])[..at] + src[..n] + old(dest[..])[at + n..]
  {
    var dataSize := Total(Width(dataType), numOfElement);
    Write(dest, at, src[..dataSize]);
  }
}
