/** The histogram responses that carry an array of buckets (libnsm/base.c) */
module HistogramResponse {
  import opened Bits
  import opened LittleEndian
  import opened Seqs
  import opened Nsm
  import NsmHeader
  import opened Histogram

  const GET_HISTOGRAM_FORMAT := 0x0d
  const GET_HISTOGRAM_DATA := 0x0e

  /** sizeof(nsm_msg_hdr) + sizeof(nsm_common_resp) */
  const META_AT := 11

  /** What precedes the array in a data response: type and number of buckets */
  function DataMeta(dataType: byte, n: nat): (m: seq<byte>)
    ensures |m| == 3
  {
    [dataType] + LeBytes(n, 2)
  }

  /** nsm_histogram_format_metadata, which does so in a format response */
  datatype Format = Format(
    n: nat,
    minSamplingTime: nat,
    accumulationCycle: byte,
    incrementDuration: nat,
    unit: byte,
    dataType: byte)

  predicate FormatFits(f: Format) {
    f.n < UINT16_END && f.minSamplingTime < UINT32_END && f.incrementDuration < UINT32_END
  }

  function FormatMeta(f: Format): (m: seq<byte>)
    ensures |m| == 16
  {
    LeBytes(f.n, 2) + LeBytes(f.minSamplingTime, 4) + [f.accumulationCycle, 0] + LeBytes(f.incrementDuration, 4)
    + [f.unit, 0, f.dataType, 0]
  }

  function MetaFormat(m: seq<byte>): Format
    requires |m| == 16
  {
    Format(LeValue(m[0..2]), LeValue(m[2..6]), m[6], LeValue(m[8..12]), m[12], m[14])
  }

  lemma FormatRoundTrip(f: Format)
    requires FormatFits(f)
    ensures MetaFormat(FormatMeta(f)) == f
  {
    WordSizes();
    LeRoundTrip(f.n, 2);
    LeRoundTrip(f.minSamplingTime, 4);
    LeRoundTrip(f.incrementDuration, 4);
    MetaParts(FormatMeta(f), LeBytes(f.n, 2), LeBytes(f.minSamplingTime, 4), [f.accumulationCycle, 0],
              LeBytes(f.incrementDuration, 4), [f.unit, 0, f.dataType, 0]);
  }

  lemma MetaParts<T>(m: seq<T>, a: seq<T>, b: seq<T>, c: seq<T>, d: seq<T>, e: seq<T>)
    requires m == a + b + c + d + e && |a| == 2 && |b| == 4 && |c| == 2 && |d| == 4 && |e| == 4
    ensures m[0..2] == a && m[2..6] == b && m[6] == c[0] && m[8..12] == d && m[12] == e[0] && m[14] == e[2]
  {
  }

  /** The message, in a buffer that held `before`: two reserved bytes are left as
      they were, and everything behind the array. */
  function Message(instanceId: nat, command: byte, size: nat, meta: seq<byte>, wire: seq<byte>,
                   before: seq<byte>): seq<byte>
    requires |before| >= META_AT + |meta| + |wire|
  {
    Head(instanceId, command, NSM_SUCCESS) + before[7..9] + LeBytes(|meta| + size, 2) + meta + wire
    + before[META_AT + |meta| + |wire|..]
  }

  function Head(instanceId: nat, command: byte, cc: byte): (h: seq<byte>)
    ensures |h| == 7
  {
    [0x10, 0xde, instanceId % 32, 0x89, 0, command, cc]
  }

  /** The header says that it is a response, of which type, and for which instance ID */
  lemma HeadReadBack(instanceId: nat, command: byte, cc: byte, rest: seq<byte>, was: NsmHeader.HeaderInfo)
    ensures var b := Head(instanceId, command, cc) + rest;
      && NsmHeader.Unpacked(b, was) == (Success, NsmHeader.HeaderInfo(NsmHeader.RESPONSE, instanceId % 32, 0))
      && b[5] == command && b[6] == cc
  {
    var b, h := Head(instanceId, command, cc) + rest, NsmHeader.HeaderInfo(0, instanceId % 32, 0);
    assert b == NsmHeader.Packed(h, 9) + b[5..];
    NsmHeader.HeaderRoundTrip(h, 9, b[5..], was);
  }

  /** Both kinds of metadata say the type and the number of the buckets */
  predicate IsMeta(meta: seq<byte>) {
    |meta| == 3 || |meta| == 16
  }

  function TypeOf(meta: seq<byte>): byte
    requires IsMeta(meta)
  {
    if |meta| == 3 then meta[0] else meta[14]
  }

  function CountOf(meta: seq<byte>): nat
    requires IsMeta(meta)
  {
    LeValue(if |meta| == 3 then meta[1..3] else meta[0..2])
  }

  /** Bytes of the array */
  function ArraySize(meta: seq<byte>): nat
    requires IsMeta(meta)
  {
    Total(Width(TypeOf(meta)), CountOf(meta))
  }

  lemma MetaMeans(dataType: byte, n: nat, f: Format)
    requires n < UINT16_END && FormatFits(f)
    ensures TypeOf(DataMeta(dataType, n)) == dataType && CountOf(DataMeta(dataType, n)) == n
    ensures TypeOf(FormatMeta(f)) == f.dataType && CountOf(FormatMeta(f)) == f.n
  {
    FormatRoundTrip(f);
    WordSizes();
    LeRoundTrip(n, 2);
    assert DataMeta(dataType, n)[1..3] == LeBytes(n, 2);
  }

  // ---------------------------------------------------------------- encoding

  /** The sender's array once it is converted */
  function OnWire(big: bool, meta: seq<byte>, bucket: seq<byte>): (w: seq<byte>)
    requires IsMeta(meta) && TypeOf(meta) != NVS24_8 && ArraySize(meta) <= |bucket|
    ensures |w| == |bucket|
  {
    Converted(big, bucket, TypeOf(meta), CountOf(meta))
  }

  /** A message with these buckets */
  function Encoded(big: bool, instanceId: nat, command: byte, size: nat, meta: seq<byte>, bucket: seq<byte>,
                   before: seq<byte>): seq<byte>
    requires IsMeta(meta) && TypeOf(meta) != NVS24_8 && ArraySize(meta) <= |bucket|
    requires META_AT + |meta| + ArraySize(meta) <= |before|
  {
    Message(instanceId, command, size, meta, OnWire(big, meta, bucket)[..ArraySize(meta)], before)
  }

  /** encode_get_histogram_data_resp and encode_get_histogram_format_resp, given
      the command and the metadata.  The caller's array is left as it is sent. */
  method Encode(big: bool, instanceId: nat, command: byte, cc: byte, reason: nat, meta: seq<byte>,
                bucket: array<byte>, size: nat, msg: array<byte>)
    requires bucket != msg && IsMeta(meta) && TypeOf(meta) != NVS24_8 && bucket.Length >= ArraySize(meta)
    requires msg.Length >= if cc == NSM_SUCCESS then META_AT + |meta| + ArraySize(meta) else 9
    modifies bucket, msg
    ensures bucket[..] == if cc == NSM_SUCCESS then OnWire(big, meta, old(bucket[..])) else old(bucket[..])
    ensures msg[..] == if cc == NSM_SUCCESS
                       then Encoded(big, instanceId, command, size, meta, old(bucket[..]), old(msg[..]))
                       else Head(instanceId, command, cc) + LeBytes(reason, 2) + old(msg[..])[9..]
  {
    ghost var before := msg[..];
    PutHead(Head(instanceId, command, cc), msg);
    if cc != NSM_SUCCESS {
      Write(msg, 7, LeBytes(reason, 2));
      return;
    }
    SameTail(before, msg[..], 9, META_AT + |meta| + ArraySize(meta));
    EncodeSuccess(big, size, meta, bucket, msg);
  }

  method PutHead(head: seq<byte>, msg: array<byte>)
    requires |head| == 7 && msg.Length >= 9
    modifies msg
    ensures msg[..7] == head && msg[..9] == head + old(msg[..])[7..9] && msg[9..] == old(msg[9..])
  {
    Write(msg, 0, head);
  }

  method EncodeSuccess(big: bool, size: nat, meta: seq<byte>, bucket: array<byte>, msg: array<byte>)
    requires bucket != msg && IsMeta(meta) && TypeOf(meta) != NVS24_8 && bucket.Length >= ArraySize(meta)
    requires msg.Length >= META_AT + |meta| + ArraySize(meta)
    modifies bucket, msg
    ensures bucket[..] == Converted(big, old(bucket[..]), TypeOf(meta), CountOf(meta))
    ensures msg[..] == old(msg[..])[..9] + LeBytes(|meta| + size, 2) + meta + bucket[..ArraySize(meta)]
      + old(msg[..])[META_AT + |meta| + ArraySize(meta)..]
  {
    PutArray(big, meta, bucket, msg, META_AT + |meta|);
    PutMeta(LeBytes(|meta| + size, 2), meta, bucket[..ArraySize(meta)], msg, old(msg[..]));
  }

  method PutArray(big: bool, meta: seq<byte>, bucket: array<byte>, msg: array<byte>, at: nat)
    requires bucket != msg && IsMeta(meta) && TypeOf(meta) != NVS24_8 && bucket.Length >= ArraySize(meta)
    requires msg.Length >= at + ArraySize(meta)
    modifies bucket, msg
    ensures bucket[..] == Converted(big, old(bucket[..]), TypeOf(meta), CountOf(meta))
    ensures msg[..] == old(msg[..])[..at] + bucket[..ArraySize(meta)] + old(msg[..])[at + ArraySize(meta)..]
  {
    ConvertArray(big, bucket, CountOf(meta), TypeOf(meta));
    DataCopy(bucket[..], msg, at, CountOf(meta), TypeOf(meta));
    assert bucket[..][..ArraySize(meta)] == bucket[..ArraySize(meta)];
  }

  method PutMeta(two: seq<byte>, meta: seq<byte>, ghost wire: seq<byte>, msg: array<byte>, ghost before: seq<byte>)
    requires |two| == 2 && |before| >= META_AT + |meta| + |wire|
    requires msg[..] == before[..META_AT + |meta|] + wire + before[META_AT + |meta| + |wire|..]
    modifies msg
    ensures msg[..] == before[..9] + two + meta + wire + before[META_AT + |meta| + |wire|..]
  {
    ghost var x := msg[..];
    Write(msg, META_AT, meta);
    ghost var y := msg[..];
    Write(msg, 9, two);
    Assembled(before, two, meta, wire, x, y, msg[..]);
  }

  lemma Assembled<T>(before: seq<T>, two: seq<T>, meta: seq<T>, wire: seq<T>, x: seq<T>, y: seq<T>, z: seq<T>)
    requires |two| == 2 && |before| >= META_AT + |meta| + |wire|
    requires x == before[..META_AT + |meta|] + wire + before[META_AT + |meta| + |wire|..]
    requires y == x[..META_AT] + meta + x[META_AT + |meta|..]
    requires z == y[..9] + two + y[META_AT..]
    ensures z == before[..9] + two + meta + wire + before[META_AT + |meta| + |wire|..]
  {
    var rest := before[META_AT + |meta| + |wire|..];
    FrontPut(before, wire, rest, x, META_AT + |meta|, META_AT);
    FrontPut(x, meta, x[META_AT + |meta|..], y, META_AT, 9);
    assert before[..META_AT][..9] == before[..9];
    Associative(before[..9] + two, meta, wire + rest);
    Associative(before[..9] + two + meta, wire, rest);
  }

  /** What was put at p is there, and what was before it still is */
  lemma FrontPut<T>(x: seq<T>, e: seq<T>, rest: seq<T>, y: seq<T>, p: nat, q: nat)
    requires q <= p <= |x| && y == x[..p] + e + rest
    ensures y[p..] == e + rest && y[..p] == x[..p] && y[..q] == x[..q]
  {
  }

  // ---------------------------------------------------------------- decoding

  /** Result, code, sizes and metadata, if there are any */
  datatype Fields = Fields(rc: Rc, cc: nat, reason: nat, dataSize: nat, size: nat, meta: seq<byte>)

  /** The fields of a message of `len` bytes, with m bytes of metadata.  Room for
      at least one byte of the array is asked for. */
  function DecodeFields(msg: seq<byte>, len: nat, m: nat, reason: nat): Fields
    requires 7 <= len <= |msg|
  {
    var cc := msg[6];
    if cc == NSM_ACCEPTED then Fields(Success, cc, reason, 0, 0, [])
    else if cc != NSM_SUCCESS then
      if len != 9 then Fields(ErrorLength, cc, reason, 0, 0, []) else Fields(Success, cc, LeValue(msg[7..9]), 0, 0, [])
    else if len < META_AT + m + 1 then Fields(ErrorLength, cc, reason, 0, 0, [])
    else
      var dataSize := LeValue(msg[9..META_AT]);
      Fields(Success, cc, reason, dataSize, Minus32(dataSize, m), msg[META_AT..META_AT + m])
  }

  /** Subtraction of uint32_t */
  function Minus32(a: nat, b: nat): nat {
    if a >= b then a - b else if a + UINT32_END >= b then a + UINT32_END - b else 0
  }

  /** What the destination holds after the elements are copied and converted */
  function Received(big: bool, meta: seq<byte>, msg: seq<byte>, bucket: seq<byte>): seq<byte>
    requires IsMeta(meta) && TypeOf(meta) != NVS24_8 && ArraySize(meta) <= |bucket|
    requires META_AT + |meta| + ArraySize(meta) <= |msg|
  {
    var from := META_AT + |meta|;
    Converted(big, msg[from..from + ArraySize(meta)] + bucket[ArraySize(meta)..], TypeOf(meta), CountOf(meta))
  }

  /** decode_get_histogram_data_resp (m is 3) and decode_get_histogram_format_resp
      (m is 16).  They take as many elements as the metadata says, so message and
      destination must have them. */
  method Decode(big: bool, msg: array<byte>, len: nat, m: nat, reason: nat, bucket: array<byte>) returns (f: Fields)
    requires msg != bucket && (m == 3 || m == 16) && 7 <= len <= msg.Length
    requires var g := DecodeFields(msg[..], len, m, reason); g.meta != [] ==>
      && TypeOf(g.meta) != NVS24_8
      && ArraySize(g.meta) <= bucket.Length && META_AT + m + ArraySize(g.meta) <= msg.Length
    modifies bucket
    ensures f == DecodeFields(msg[..], len, m, reason)
    ensures bucket[..] == if f.meta == [] then old(bucket[..]) else Received(big, f.meta, msg[..], old(bucket[..]))
  {
    var cc := msg[6];
    if cc == NSM_ACCEPTED { return Fields(Success, cc, reason, 0, 0, []); }
    if cc != NSM_SUCCESS {
      if len != 9 { return Fields(ErrorLength, cc, reason, 0, 0, []); }
      return Fields(Success, cc, LeValue(msg[7..9]), 0, 0, []);
    }
    if len < META_AT + m + 1 { return Fields(ErrorLength, cc, reason, 0, 0, []); }
    var dataSize, meta := LeValue(msg[9..META_AT]), msg[META_AT..META_AT + m];
    f := Fields(Success, cc, reason, dataSize, Minus32(dataSize, m), meta);
    var src := msg[META_AT + m..META_AT + m + ArraySize(meta)];
    DataCopy(src, bucket, 0, CountOf(meta), TypeOf(meta));
    assert bucket[..] == src + old(bucket[..])[ArraySize(meta)..];
    ConvertArray(big, bucket, CountOf(meta), TypeOf(meta));
  }

  // -------------------------------------------------------------- round trips

  /** All fields of an encoded message come back, if there is at least one byte
      behind the metadata. */
  lemma FieldsRoundTrip(instanceId: nat, command: byte, size: nat, meta: seq<byte>, wire: seq<byte>, before: seq<byte>,
                        msg: seq<byte>, len: nat, reason: nat)
    requires IsMeta(meta) && |before| >= META_AT + |meta| + |wire| && META_AT + |meta| < len <= |before|
    requires msg == Message(instanceId, command, size, meta, wire, before)
    ensures |msg| == |before| && DecodeFields(msg, len, |meta|, reason) == AllFields(meta, size, reason)
    ensures msg[META_AT + |meta|..META_AT + |meta| + |wire|] == wire
  {
    assert msg[9..META_AT] == LeBytes(|meta| + size, 2);
    Low16(|meta| + size);
    assert msg[META_AT..META_AT + |meta|] == meta;
  }

  /** A failure carries its codes, and is refused unless it is as long as that takes;
      of a message that is only accepted nothing more is looked at. */
  lemma FailureFields(instanceId: nat, command: byte, cc: byte, reason: nat, rest: seq<byte>, len: nat, m: nat,
                      reason0: nat)
    requires cc != NSM_SUCCESS && reason < UINT16_END && 7 <= len <= 9 + |rest|
    ensures DecodeFields(Head(instanceId, command, cc) + LeBytes(reason, 2) + rest, len, m, reason0) ==
      if cc == NSM_ACCEPTED then Fields(Success, cc, reason0, 0, 0, [])
      else if len == 9 then Fields(Success, cc, reason, 0, 0, [])
      else Fields(ErrorLength, cc, reason0, 0, 0, [])
  {
    var msg := Head(instanceId, command, cc) + LeBytes(reason, 2) + rest;
    assert msg[7..9] == LeBytes(reason, 2) && msg[6] == cc;
    Low16(reason);
  }

  function AllFields(meta: seq<byte>, size: nat, reason: nat): Fields {
    var dataSize := (|meta| + size) % UINT16_END;
    Fields(Success, NSM_SUCCESS, reason, dataSize, Minus32(dataSize, |meta|), meta)
  }

  lemma Low16(v: nat)
    ensures LeValue(LeBytes(v, 2)) == v % UINT16_END
  {
    var b, c := LeBytes(v, 2), LeBytes(v / 256, 1);
    assert c == [v / 256 % 256];
    assert LeValue(c) == c[0] + 256 * LeValue(c[1..]) && c[1..] == [];
    assert b[1..] == c && LeValue(b) == b[0] + 256 * LeValue(c);
  }

  /** The array size reported back is the one given exactly when it fits the
      16-bit data size together with the metadata (or is so close to 2^32 that it
      wraps around twice). */
  lemma SizeRoundTripsIff(m: nat, size: nat)
    requires (m == 3 || m == 16) && size < UINT32_END
    ensures Minus32((m + size) % UINT16_END, m) == size <==> m + size < UINT16_END || m + size >= UINT32_END
  {
  }

  /** An encoded message is accepted if and only if its length says that at least
      one byte follows the metadata; an empty array leaves none. */
  lemma AcceptedIff(instanceId: nat, command: byte, size: nat, meta: seq<byte>, wire: seq<byte>, before: seq<byte>,
                    len: nat, reason: nat)
    requires IsMeta(meta) && |before| >= META_AT + |meta| + |wire| && 7 <= len <= |before|
    ensures var f := DecodeFields(Message(instanceId, command, size, meta, wire, before), len, |meta|, reason);
      && (f.rc == Success <==> len > META_AT + |meta|)
      && f == if len > META_AT + |meta| then AllFields(meta, size, reason)
              else Fields(ErrorLength, NSM_SUCCESS, reason, 0, 0, [])
  {
    var msg := Message(instanceId, command, size, meta, wire, before);
    assert msg[6] == NSM_SUCCESS;
    if len > META_AT + |meta| { FieldsRoundTrip(instanceId, command, size, meta, wire, before, msg, len, reason); }
  }

  /** What is sent depends on the elements only */
  lemma SentElements(big: bool, a: seq<byte>, dataType: nat, n: nat)
    requires Total(Width(dataType), n) <= |a| && dataType != NVS24_8
    ensures var t := Total(Width(dataType), n);
      Converted(big, a, dataType, n)[..t] == Converted(big, a[..t], dataType, n)
  {
    var t := Total(Width(dataType), n);
    ConvertFront(e => Convert(big, e), a[..t], a[t..], Width(dataType), n);
    assert a[..t] + a[t..] == a;
  }

  /** Converted on one host and, with other bytes behind, on another of the same or
      the other byte order */
  lemma BucketsRoundTrip(bigA: bool, bigB: bool, s: seq<byte>, rest: seq<byte>, dataType: nat, n: nat)
    requires |s| == Total(Width(dataType), n) && dataType != NVS24_8
    ensures var got := Converted(bigB, Converted(bigA, s, dataType, n) + rest, dataType, n);
      && HostValues(bigB, got[..|s|], dataType, n) == HostValues(bigA, s, dataType, n)
      && got[|s|..] == rest
  {
    var wire := Converted(bigA, s, dataType, n);
    ConvertFront(e => Convert(bigB, e), wire, rest, Width(dataType), n);
    AcrossHosts(bigA, bigB, s, dataType, n);
    assert (Converted(bigB, wire, dataType, n) + rest)[..|s|] == Converted(bigB, wire, dataType, n);
  }

  /** From what Encode leaves in the message, for the sender's array `a`, to what
      Decode leaves in a destination that held `b`: all fields come back, the
      buckets have the values they had on the sending host, and what is behind
      them in the destination is untouched. */
  lemma Transfer(bigA: bool, bigB: bool, instanceId: nat, command: byte, size: nat, meta: seq<byte>, a: seq<byte>,
                 before: seq<byte>, msg: seq<byte>, len: nat, reason: nat, b: seq<byte>)
    requires IsMeta(meta) && TypeOf(meta) != NVS24_8 && ArraySize(meta) <= |a| && ArraySize(meta) <= |b|
    requires META_AT + |meta| + ArraySize(meta) <= |before| && META_AT + |meta| < len <= |before|
    requires msg == Encoded(bigA, instanceId, command, size, meta, a, before)
    ensures |msg| == |before| && DecodeFields(msg, len, |meta|, reason) == AllFields(meta, size, reason)
    ensures Transferred(bigA, bigB, meta, a, b, Received(bigB, meta, msg, b))
  {
    var t := ArraySize(meta);
    var wire := OnWire(bigA, meta, a)[..t];
    FieldsRoundTrip(instanceId, command, size, meta, wire, before, msg, len, reason);
    SentElements(bigA, a, TypeOf(meta), CountOf(meta));
    BucketsRoundTrip(bigA, bigB, a[..t], b[t..], TypeOf(meta), CountOf(meta));
  }

  /** The values are those of `a`, and behind them is what is behind them in `b` */
  ghost predicate Transferred(bigA: bool, bigB: bool, meta: seq<byte>, a: seq<byte>, b: seq<byte>, got: seq<byte>)
    requires IsMeta(meta) && ArraySize(meta) <= |a| && ArraySize(meta) <= |b|
  {
    var t, dataType, n := ArraySize(meta), TypeOf(meta), CountOf(meta);
    && |got| == |b| && got[t..] == b[t..]
    && HostValues(bigB, got[..t], dataType, n) == HostValues(bigA, a[..t], dataType, n)
  }

  lemma LaidIsSent(big: bool, meta: seq<byte>, bits: nat, vs: seq<nat>, s: seq<byte>, a: seq<byte>)
    requires IsMeta(meta) && IsInteger(TypeOf(meta), bits) && CountOf(meta) == |vs|
    requires (forall i | 0 <= i < |vs| :: vs[i] < Pow2(bits)) && s == Laid(big, vs, bits / 8) && s <= a
    ensures ArraySize(meta) == |s| && OnWire(big, meta, a)[..|s|] == Laid(false, vs, bits / 8)
  {
    LaidConverts(big, big, TypeOf(meta), bits, vs);
    assert a[..|s|] == s;
    SentElements(big, a, TypeOf(meta), CountOf(meta));
  }

  lemma LaidIsReceived(big: bool, meta: seq<byte>, bits: nat, vs: seq<nat>, wire: seq<byte>, msg: seq<byte>,
                       b: seq<byte>)
    requires IsMeta(meta) && IsInteger(TypeOf(meta), bits) && CountOf(meta) == |vs|
    requires (forall i | 0 <= i < |vs| :: vs[i] < Pow2(bits)) && wire == Laid(false, vs, bits / 8)
    requires |wire| <= |b| && META_AT + |meta| + |wire| <= |msg|
    requires msg[META_AT + |meta|..META_AT + |meta| + |wire|] == wire
    ensures ArraySize(meta) == |wire| && Received(big, meta, msg, b) == Laid(big, vs, bits / 8) + b[|wire|..]
  {
    LaidConverts(false, big, TypeOf(meta), bits, vs);
    ConvertFront(e => Convert(big, e), wire, b[|wire|..], Width(TypeOf(meta)), |vs|);
  }

  /** Any integers the bucket type can hold, as the sending host has them in memory,
      arrive as the receiving host has them in memory, and travel lowest byte
      first. */
  lemma BucketsArrive(bigA: bool, bigB: bool, instanceId: nat, command: byte, size: nat, meta: seq<byte>, bits: nat,
                      vs: seq<nat>, s: seq<byte>, a: seq<byte>, before: seq<byte>, msg: seq<byte>, len: nat,
                      reason: nat, b: seq<byte>)
    requires IsMeta(meta) && IsInteger(TypeOf(meta), bits) && CountOf(meta) == |vs|
    requires (forall i | 0 <= i < |vs| :: vs[i] < Pow2(bits)) && s == Laid(bigA, vs, bits / 8) && s <= a
    requires ArraySize(meta) <= |a| && ArraySize(meta) <= |b|
    requires META_AT + |meta| + ArraySize(meta) <= |before| && META_AT + |meta| < len <= |before|
    requires msg == Encoded(bigA, instanceId, command, size, meta, a, before)
    ensures |s| == ArraySize(meta)
    ensures |msg| == |before| && DecodeFields(msg, len, |meta|, reason) == AllFields(meta, size, reason)
    ensures msg[META_AT + |meta|..META_AT + |meta| + |s|] == Laid(false, vs, bits / 8)
    ensures Received(bigB, meta, msg, b) == Laid(bigB, vs, bits / 8) + b[|s|..]
  {
    LaidIsSent(bigA, meta, bits, vs, s, a);
    var wire := OnWire(bigA, meta, a)[..|s|];
    FieldsRoundTrip(instanceId, command, size, meta, wire, before, msg, len, reason);
    LaidIsReceived(bigB, meta, bits, vs, wire, msg, b);
  }

  /** Encode on one host, Decode on another */
  method Exchange(bigA: bool, bigB: bool, instanceId: nat, command: byte, size: nat, meta: seq<byte>,
                  a: array<byte>, msg: array<byte>, len: nat, reason: nat, b: array<byte>) returns (f: Fields)
    requires a != msg && b != msg && a != b
    requires IsMeta(meta) && TypeOf(meta) != NVS24_8 && ArraySize(meta) <= a.Length && ArraySize(meta) <= b.Length
    requires META_AT + |meta| + ArraySize(meta) <= msg.Length && META_AT + |meta| < len <= msg.Length
    modifies a, msg, b
    ensures f == AllFields(meta, size, reason)
    ensures Transferred(bigA, bigB, meta, old(a[..]), old(b[..]), b[..])
  {
    ghost var sent, before, held := a[..], msg[..], b[..];
    Encode(bigA, instanceId, command, NSM_SUCCESS, 0, meta, a, size, msg);
    Transfer(bigA, bigB, instanceId, command, size, meta, sent, before, msg[..], len, reason, held);
    f := Decode(bigB, msg, len, |meta|, reason, b);
  }

  /** In both responses, type and number of the buckets, and all of the format, are
      decoded to what was sent. */
  lemma DataRoundTrip(big: bool, instanceId: nat, size: nat, dataType: byte, n: nat, a: seq<byte>, before: seq<byte>,
                      len: nat, reason: nat)
    requires n < UINT16_END && dataType != NVS24_8 && Total(Width(dataType), n) <= |a|
    requires META_AT + 3 + Total(Width(dataType), n) <= |before| && META_AT + 3 < len <= |before|
    ensures var meta := DataMeta(dataType, n);
      && IsMeta(meta) && TypeOf(meta) == dataType && ArraySize(meta) == Total(Width(dataType), n)
      && var f := DecodeFields(Encoded(big, instanceId, GET_HISTOGRAM_DATA, size, meta, a, before), len, 3, reason);
      && f.rc == Success && IsMeta(f.meta) && TypeOf(f.meta) == dataType && CountOf(f.meta) == n
  {
    var meta := DataMeta(dataType, n);
    MetaMeans(dataType, n, Format(0, 0, 0, 0, 0, 0));
    var wire := OnWire(big, meta, a)[..ArraySize(meta)];
    AcceptedIff(instanceId, GET_HISTOGRAM_DATA, size, meta, wire, before, len, reason);
  }

  lemma FormatResponseRoundTrip(big: bool, instanceId: nat, size: nat, format: Format, a: seq<byte>, before: seq<byte>,
                                len: nat, reason: nat)
    requires FormatFits(format) && format.dataType != NVS24_8 && Total(Width(format.dataType), format.n) <= |a|
    requires META_AT + 16 + Total(Width(format.dataType), format.n) <= |before| && META_AT + 16 < len <= |before|
    ensures var meta := FormatMeta(format);
      && IsMeta(meta) && TypeOf(meta) == format.dataType && ArraySize(meta) == Total(Width(format.dataType), format.n)
      && var f := DecodeFields(Encoded(big, instanceId, GET_HISTOGRAM_FORMAT, size, meta, a, before), len, 16, reason);
      && f.rc == Success && |f.meta| == 16 && MetaFormat(f.meta) == format && CountOf(f.meta) == format.n
  {
    var meta := FormatMeta(format);
    MetaMeans(0, 0, format);
    FormatRoundTrip(format);
    var wire := OnWire(big, meta, a)[..ArraySize(meta)];
    AcceptedIff(instanceId, GET_HISTOGRAM_FORMAT, size, meta, wire, before, len, reason);
  }
}
