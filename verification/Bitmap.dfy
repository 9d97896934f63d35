/** Bitmaps and lists of indices (common/utils.cpp) */
module Bitmap {
  import opened Bits
  import opened Wrappers

  /** Bit k of a bitmap whose bytes count from the lowest */
  predicate Bit(bitmap: seq<byte>, k: nat)
    requires k < 8 * |bitmap|
  {
    HasBit(bitmap[k / 8], k % 8)
  }

  lemma {:induction false} SameByte(a: byte, b: byte)
    requires forall j: nat | j < 8 :: HasBit(a, j) <==> HasBit(b, j)
    ensures a == b
  {
    WordSizes();
    forall j: nat ensures HasBit(a, j) <==> HasBit(b, j) {
      if j >= 8 {
        HighBitClear(a, 8, j);
        HighBitClear(b, 8, j);
      }
    }
    SameBits(a, b);
  }

  /** A bitmap is determined by its bits */
  lemma SameBitmap(a: seq<byte>, b: seq<byte>)
    requires |a| == |b| && forall k: nat | k < 8 * |a| :: Bit(a, k) <==> Bit(b, k)
    ensures a == b
  {
    forall i: nat | i < |a| ensures a[i] == b[i] {
      forall j: nat | j < 8 ensures HasBit(a[i], j) <==> HasBit(b[i], j) {
        var k := 8 * i + j;
        assert k / 8 == i && k % 8 == j;
        assert Bit(a, k) <==> Bit(b, k);
      }
      SameByte(a[i], b[i]);
    }
  }

  // -------------------------------------------------------- bitmap to indices

  /** The positions below n of the bits equal to `v`, as bytes */
  function Indices(bitmap: seq<byte>, v: bool, n: nat): seq<byte>
    requires n <= 8 * |bitmap|
  {
    if n == 0 then []
    else Indices(bitmap, v, n - 1) + if Bit(bitmap, n - 1) == v then [(n - 1) % 256] else []
  }

  function Zeros(bitmap: seq<byte>): seq<byte> {
    Indices(bitmap, false, 8 * |bitmap|)
  }

  function Ones(bitmap: seq<byte>): seq<byte> {
    Indices(bitmap, true, 8 * |bitmap|)
  }

  /** One more bit, of byte i */
  lemma OneMore(bitmap: seq<byte>, v: bool, i: nat, bit: nat)
    requires i < |bitmap| && bit < 8
    ensures HasBit(bitmap[i], bit) <==> Bit(bitmap, 8 * i + bit)
    ensures Indices(bitmap, v, 8 * i + bit + 1)
         == Indices(bitmap, v, 8 * i + bit) + if HasBit(bitmap[i], bit) == v then [(8 * i + bit) % 256] else []
  {
    assert (8 * i + bit) / 8 == i && (8 * i + bit) % 8 == bit;
  }

  function Inc8(index: byte): byte {
    if index == 255 then 0 else index + 1
  }

  lemma Inc8Wraps(k: nat)
    ensures Inc8(k % 256) == (k + 1) % 256
  {
  }

  method BitmapToIndices(bitmap: seq<byte>) returns (zeros: seq<byte>, ones: seq<byte>)
    ensures zeros == Zeros(bitmap) && ones == Ones(bitmap)
  {
    zeros, ones := [], [];
    var index: byte := 0;
    var i := 0;
    while i < |bitmap|
      invariant 0 <= i <= |bitmap| && index == (8 * i) % 256
      invariant zeros == Indices(bitmap, false, 8 * i) && ones == Indices(bitmap, true, 8 * i)
    {
      var b := bitmap[i];
      var bit := 0;
      ghost var k := 8 * i;
      while bit < 8
        invariant 0 <= bit <= 8 && b == Shr(bitmap[i], bit) && k == 8 * i + bit && index == k % 256
        invariant zeros == Indices(bitmap, false, k) && ones == Indices(bitmap, true, k)
      {
        ShrBit(bitmap[i], bit);
        OneMore(bitmap, true, i, bit);
        OneMore(bitmap, false, i, bit);
        Inc8Wraps(k);
        if b % 2 == 1 {
          ones := ones + [index];
        } else {
          zeros := zeros + [index];
        }
        index := Inc8(index);
        b := b / 2;
        bit := bit + 1;
        k := k + 1;
      }
      i := i + 1;
    }
  }

  /** convertBitMaskToVector */
  method ConvertBitMaskToVector(data: seq<byte>, value: seq<byte>, size: nat) returns (r: seq<byte>)
    requires size < 256 && size <= |value|
    ensures r == data + Ones(value[..size])
  {
    r := data;
    var v := value[..size];
    var i := 0;
    while i < size
      invariant 0 <= i <= size && r == data + Indices(v, true, 8 * i)
    {
      var bit := 0;
      while bit < 8
        invariant 0 <= bit <= 8 && r == data + Indices(v, true, 8 * i + bit)
      {
        OneMore(v, true, i, bit);
        if HasBit(value[i], bit) { r := r + [(i * 8 + bit) % 256]; }
        bit := bit + 1;
      }
      i := i + 1;
    }
  }

  predicate Ascending(s: seq<int>) {
    forall i, j | 0 <= i < j < |s| :: s[i] < s[j]
  }

  /** s is the ascending list of the positions below n whose bit is v */
  ghost predicate Lists(s: seq<byte>, bitmap: seq<byte>, v: bool, n: nat)
    requires n <= 8 * |bitmap|
  {
    Ascending(s) && (forall x <- s :: x < n) && forall k: nat | k < n :: k in s <==> Bit(bitmap, k) == v
  }

  lemma OneMoreListed(s: seq<byte>, bitmap: seq<byte>, v: bool, n: byte)
    requires n < 8 * |bitmap| && Lists(s, bitmap, v, n)
    ensures Lists(s + if Bit(bitmap, n) == v then [n % 256] else [], bitmap, v, n + 1)
  {
    assert forall i | 0 <= i < |s| :: s[i] in s;
  }

  /** For at most 32 bytes, the lists are what they should be: ascending, and k
      is in one exactly when bit k is so. */
  lemma {:induction false} IndicesMean(bitmap: seq<byte>, v: bool, n: nat)
    requires n <= 8 * |bitmap| && n <= 256
    ensures Lists(Indices(bitmap, v, n), bitmap, v, n)
  {
    if n > 0 {
      IndicesMean(bitmap, v, n - 1);
      OneMoreListed(Indices(bitmap, v, n - 1), bitmap, v, n - 1);
    }
  }

  /** Each index is in exactly one of the lists */
  predicate Partitioned(bitmap: seq<byte>) {
    forall k: nat | k < 8 * |bitmap| :: (k in Zeros(bitmap)) != (k in Ones(bitmap))
  }

  /** That holds exactly up to 32 bytes: then the 8-bit index wraps around. */
  lemma PartitionedIff(bitmap: seq<byte>)
    ensures Partitioned(bitmap) <==> |bitmap| <= 32
    ensures |bitmap| <= 32 ==> Ascending(Zeros(bitmap)) && Ascending(Ones(bitmap))
  {
    if |bitmap| <= 32 {
      IndicesMean(bitmap, true, 8 * |bitmap|);
      IndicesMean(bitmap, false, 8 * |bitmap|);
    } else {
      var k: nat := 256;
      assert k < 8 * |bitmap| && !(k in Zeros(bitmap)) && !(k in Ones(bitmap));
    }
  }

  // -------------------------------------------------------- indices to bitmap

  const MAX_BITMAP_SIZE := 8

  function Blank(n: nat): seq<byte> {
    seq(n, _ => 0)
  }

  function SetBit(bitmap: seq<byte>, i: nat): (r: seq<byte>)
    requires i < 8 * |bitmap|
    ensures |r| == |bitmap|
  {
    WordSizes();
    Pow2Strict(i % 8, 8);
    OrFits(bitmap[i / 8], Pow2(i % 8), 8);
    bitmap[i / 8 := Or(bitmap[i / 8], Pow2(i % 8))]
  }

  function SetAll(bitmap: seq<byte>, indices: seq<byte>, n: nat): (r: seq<byte>)
    requires n <= |indices| && forall x <- indices :: x < 8 * |bitmap|
    ensures |r| == |bitmap|
  {
    if n == 0 then bitmap
    else
      assert indices[n - 1] in indices;
      SetBit(SetAll(bitmap, indices, n - 1), indices[n - 1])
  }

  /** std::max_element */
  function Max(s: seq<byte>): (m: byte)
    requires s != []
    ensures m in s && forall x <- s :: x <= m
  {
    if |s| == 1 then s[0]
    else
      assert s == [s[0]] + s[1..];
      var m := Max(s[1..]);
      if s[0] > m then s[0] else m
  }

  function ToBitmap(indices: seq<byte>, size: nat): Result<seq<byte>> {
    if size > MAX_BITMAP_SIZE then Err
    else if indices == [] then Ok(Blank(size))
    else if size == 0 then Ok(SetAll(Blank(Max(indices) / 8 + 1), indices, |indices|))
    else if Max(indices) > size * 8 - 1 then Err
    else Ok(SetAll(Blank(size), indices, |indices|))
  }

  method IndicesToBitmap(indices: seq<byte>, size: nat) returns (r: Result<seq<byte>>)
    ensures r == ToBitmap(indices, size)
  {
    if size > MAX_BITMAP_SIZE { return Err; }
    if indices == [] { return Ok(Blank(size)); }
    var maxIndex := Max(indices);
    var bitmap;
    if size == 0 {
      bitmap := Blank(maxIndex / 8 + 1);
    } else if maxIndex > size * 8 - 1 {
      return Err;
    } else {
      bitmap := Blank(size);
    }
    ghost var blank := bitmap;
    var i := 0;
    while i < |indices|
      invariant 0 <= i <= |indices| && |bitmap| == |blank| && bitmap == SetAll(blank, indices, i)
    {
      var index := indices[i];
      assert index in indices;
      bitmap := SetBit(bitmap, index);
      i := i + 1;
    }
    r := Ok(bitmap);
  }

  lemma SetBitBit(bitmap: seq<byte>, i: nat, k: nat)
    requires i < 8 * |bitmap| && k < 8 * |bitmap|
    ensures Bit(SetBit(bitmap, i), k) <==> Bit(bitmap, k) || k == i
  {
    WithBit(bitmap[i / 8], i % 8, k % 8);
  }

  lemma {:induction false} SetAllBit(bitmap: seq<byte>, indices: seq<byte>, n: nat, k: nat)
    requires n <= |indices| && (forall x <- indices :: x < 8 * |bitmap|) && k < 8 * |bitmap|
    ensures Bit(SetAll(bitmap, indices, n), k) <==> Bit(bitmap, k) || k in indices[..n]
  {
    if n > 0 {
      SetAllBit(bitmap, indices, n - 1, k);
      assert indices[n - 1] in indices;
      SetBitBit(SetAll(bitmap, indices, n - 1), indices[n - 1], k);
      assert indices[..n] == indices[..n - 1] + [indices[n - 1]];
    }
  }

  /** It fails exactly when the size is over eight bytes or an index does not fit
      the size; otherwise bit k is set exactly for the k listed, in a bitmap of
      the size asked for or, when none is, the shortest there is. */
  lemma ToBitmapMeans(indices: seq<byte>, size: nat)
    ensures ToBitmap(indices, size) == Err <==>
      size > MAX_BITMAP_SIZE || (size > 0 && !AllBelow(indices, 8 * size))
    ensures ToBitmap(indices, size).Ok? ==> var b := ToBitmap(indices, size).value;
      && (forall k: nat | k < 8 * |b| :: Bit(b, k) <==> k in indices)
      && (size > 0 ==> |b| == size)
      && (size == 0 ==> forall n: nat :: n >= |b| <==> AllBelow(indices, 8 * n))
  {
    var r := ToBitmap(indices, size);
    if r.Ok? {
      var b := r.value;
      forall k: nat | k < 8 * |b| ensures Bit(b, k) <==> k in indices {
        ZeroBit(k % 8);
        if indices != [] {
          SetAllBit(Blank(|b|), indices, |indices|, k);
          assert indices[..|indices|] == indices;
        }
      }
      if size == 0 && indices != [] {
        var m := Max(indices);
        forall n: nat ensures n >= |b| <==> AllBelow(indices, 8 * n) {
          assert m in indices;
        }
      }
    } else if size <= MAX_BITMAP_SIZE {
      assert Max(indices) in indices;
    }
  }

  // -------------------------------------------------------------- round trips

  /** For 1 to 8 bytes, with the size given, the ones restore the bitmap */
  lemma RestoresBitmap(bitmap: seq<byte>)
    requires 1 <= |bitmap| <= MAX_BITMAP_SIZE
    ensures ToBitmap(Ones(bitmap), |bitmap|) == Ok(bitmap)
  {
    var ones := Ones(bitmap);
    IndicesMean(bitmap, true, 8 * |bitmap|);
    ToBitmapMeans(ones, |bitmap|);
    SameBitmap(ToBitmap(ones, |bitmap|).value, bitmap);
  }

  function Trim(bitmap: seq<byte>): (r: seq<byte>)
    ensures r <= bitmap && (r != [] ==> r[|r| - 1] != 0)
  {
    if bitmap != [] && bitmap[|bitmap| - 1] == 0 then Trim(bitmap[..|bitmap| - 1]) else bitmap
  }

  lemma {:induction false} TrimmedOff(bitmap: seq<byte>, i: nat)
    requires |Trim(bitmap)| <= i < |bitmap|
    ensures bitmap[i] == 0
  {
    if i < |bitmap| - 1 { TrimmedOff(bitmap[..|bitmap| - 1], i); }
  }

  predicate OnesBelow(bitmap: seq<byte>, n: nat) {
    forall k: nat | k < 8 * |bitmap| && Bit(bitmap, k) :: k < n
  }

  predicate AllBelow(indices: seq<byte>, n: nat) {
    forall x <- indices :: x < n
  }

  lemma OnesListedBelow(bitmap: seq<byte>, n: nat)
    requires |bitmap| <= 32
    ensures AllBelow(Ones(bitmap), n) <==> OnesBelow(bitmap, n)
  {
    IndicesMean(bitmap, true, 8 * |bitmap|);
    if AllBelow(Ones(bitmap), n) {
      forall k: nat | k < 8 * |bitmap| && Bit(bitmap, k) ensures k < n { assert k in Ones(bitmap); }
    }
  }

  /** Beyond its last byte that is not zero, a bitmap has no ones */
  lemma TrimBounds(bitmap: seq<byte>, n: nat)
    ensures n >= |Trim(bitmap)| <==> OnesBelow(bitmap, 8 * n)
  {
    var t := Trim(bitmap);
    if n >= |t| {
      forall k: nat | k < 8 * |bitmap| && Bit(bitmap, k) ensures k < 8 * n {
        if k / 8 >= |t| {
          TrimmedOff(bitmap, k / 8);
          ZeroBit(k % 8);
        }
      }
    } else {
      var last := |t| - 1;
      var j := SomeBit(t[last]);
      WordSizes();
      if j >= 8 { HighBitClear(t[last], 8, j); }
      var k := 8 * last + j;
      assert k / 8 == last && k % 8 == j;
      assert Bit(bitmap, k) && k >= 8 * n;
    }
  }

  /** Without a size, they restore it without its trailing zero bytes */
  lemma RestoresTrimmed(bitmap: seq<byte>)
    requires |bitmap| <= 32
    ensures ToBitmap(Ones(bitmap), 0) == Ok(Trim(bitmap))
  {
    var ones, t := Ones(bitmap), Trim(bitmap);
    IndicesMean(bitmap, true, 8 * |bitmap|);
    ToBitmapMeans(ones, 0);
    var b := ToBitmap(ones, 0).value;
    OnesListedBelow(bitmap, 8 * |b|);
    TrimBounds(bitmap, |b|);
    OnesListedBelow(bitmap, 8 * |t|);
    TrimBounds(bitmap, |t|);
    forall k: nat | k < 8 * |b| ensures Bit(b, k) <==> Bit(t, k) {
      assert Bit(bitmap, k) == Bit(t, k);
    }
    SameBitmap(b, t);
  }

  /** The other way round, a list comes back sorted and without duplicates */
  lemma SortsIndices(indices: seq<byte>, size: nat)
    requires ToBitmap(indices, size).Ok?
    ensures var back := Ones(ToBitmap(indices, size).value);
      Ascending(back) && forall x: byte :: x in back <==> x in indices
  {
    var b := ToBitmap(indices, size).value;
    ToBitmapMeans(indices, size);
    assert |b| <= 32 by {
      if size == 0 { assert AllBelow(indices, 8 * 32); }
    }
    IndicesMean(b, true, 8 * |b|);
    forall x: byte ensures x in Ones(b) <==> x in indices {
      if x < 8 * |b| {
        assert Bit(b, x) <==> x in indices;
      } else {
        assert x !in indices by {
          if size == 0 { assert AllBelow(indices, 8 * |b|); }
        }
      }
    }
  }
}
