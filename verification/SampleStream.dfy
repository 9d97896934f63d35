/** Aggregate responses: a header and a stream of telemetry samples of variable
  length (libnsm/platform-environmental.c).
 */
module SampleStream {
  import opened Bits
  import opened LittleEndian
  import opened Seqs
  import opened Nsm
  import NsmHeader

  const MAX_SIZE_AS_POWER_OF_2 := 7

  datatype Sample = Sample(tag: byte, valid: bool, data: seq<byte>)

  /** The data is 1, 2, 4, ... or 128 bytes long */
  predicate Sendable(s: Sample) {
    exists i: nat :: i <= MAX_SIZE_AS_POWER_OF_2 && |s.data| == Pow2(i)
  }

  /** The exponent of the length */
  function Exponent(s: Sample): (i: nat)
    requires Sendable(s)
    ensures i <= MAX_SIZE_AS_POWER_OF_2 && |s.data| == Pow2(i)
  {
    Log2(|s.data|, 0)
  }

  function Log2(n: nat, from: nat): (i: nat)
    requires exists i: nat :: from <= i <= MAX_SIZE_AS_POWER_OF_2 && n == Pow2(i)
    ensures from <= i <= MAX_SIZE_AS_POWER_OF_2 && n == Pow2(i)
    decreases MAX_SIZE_AS_POWER_OF_2 + 1 - from
  {
    if n == Pow2(from) then from else Log2(n, from + 1)
  }

  lemma OneExponent(i: nat, j: nat)
    requires Pow2(i) == Pow2(j)
    ensures i == j
  {
    if i < j { Pow2Strict(i, j); }
    if j < i { Pow2Strict(j, i); }
  }

  /** The second byte packs valid (1 bit), length (3) and reserved (4) */
  function Flags(valid: bool, length: nat): nat {
    (if valid then 1 else 0) + 2 * length
  }

  /** A sample on the wire */
  function Emit(s: Sample): seq<byte>
    requires Sendable(s)
  {
    [s.tag, Flags(s.valid, Exponent(s))] + s.data
  }

  /** encode_aggregate_resp_sample, into `buf` from `pos` on.  A length that is no
      power of two is refused, when the tag and the valid bit have been
      written. */
  method EncodeSample(buf: array<byte>, pos: nat, s: Sample) returns (rc: Rc, len: nat)
    requires pos + 2 + |s.data| <= buf.Length
    modifies buf
    ensures rc == (if Sendable(s) then Success else ErrorData)
    ensures Sendable(s) ==> len == |Emit(s)|
    ensures Sendable(s) ==> buf[..] == old(buf[..])[..pos] + Emit(s) + old(buf[..])[pos + |Emit(s)|..]
    ensures !Sendable(s) ==> len == 0
    ensures !Sendable(s) ==>
      buf[..] == old(buf[..])[pos := s.tag][pos + 1 := Flags(s.valid, old(buf[pos + 1]) / 2 % 8)]
  {
    buf[pos] := s.tag;
    buf[pos + 1] := Flags(s.valid, buf[pos + 1] / 2 % 8);
    var i := 0;
    while i <= MAX_SIZE_AS_POWER_OF_2
      invariant 0 <= i <= MAX_SIZE_AS_POWER_OF_2 + 1 && forall j: nat | j < i :: |s.data| != Pow2(j)
      invariant buf[..] == old(buf[..])[pos := s.tag][pos + 1 := Flags(s.valid, old(buf[pos + 1]) / 2 % 8)]
    {
      if |s.data| == Pow2(i) {
        OneExponent(i, Exponent(s));
        buf[pos + 1] := Flags(s.valid, i);
        forall k | 0 <= k < |s.data| { buf[pos + 2 + k] := s.data[k]; }
        return Success, |s.data| + 2;
      }
      i := i + 1;
    }
    return ErrorData, 0;
  }

  datatype Decoded = Decoded(rc: Rc, sample: Sample, consumed: nat)

  /** What is at the front of the bytes left */
  function Decode(b: seq<byte>): (d: Decoded)
    ensures d.rc == Success ==> 3 <= d.consumed <= |b|
  {
    if |b| < 3 then Decoded(ErrorLength, Sample(0, false, []), 0)
    else
      var w := Pow2(b[1] / 2 % 8);
      if |b| < 2 + w then Decoded(ErrorData, Sample(b[0], b[1] % 2 == 1, []), 2 + w)
      else Decoded(Success, Sample(b[0], b[1] % 2 == 1, b[2..2 + w]), 2 + w)
  }

  /** decode_aggregate_resp_sample, on the `len` bytes of `buf` from `pos` on;
      no byte behind them is read. */
  method DecodeSample(buf: array<byte>, pos: nat, len: nat) returns (d: Decoded)
    requires pos + len <= buf.Length
    ensures d == Decode(buf[pos..pos + len])
  {
    if len < 3 { return Decoded(ErrorLength, Sample(0, false, []), 0); }
    var dataLen := Pow2(buf[pos + 1] / 2 % 8);
    var consumed := dataLen + 3 - 1;
    var valid, tag := buf[pos + 1] % 2 == 1, buf[pos];
    if len < consumed { return Decoded(ErrorData, Sample(tag, valid, []), consumed); }
    Within(buf[..], pos, len, 2, consumed);
    d := Decoded(Success, Sample(tag, valid, buf[..][pos + 2..pos + consumed]), consumed);
  }

  // ------------------------------------------------------------ round trips

  lemma SampleRoundTrip(s: Sample, rest: seq<byte>)
    requires Sendable(s)
    ensures Decode(Emit(s) + rest) == Decoded(Success, s, |Emit(s)|)
  {
    var b, i := Emit(s) + rest, Exponent(s);
    assert b[1] / 2 % 8 == i && (b[1] % 2 == 1 <==> s.valid);
    assert b[2..2 + |s.data|] == s.data;
  }

  /** Each success consumes between three bytes and all there are, and yields a
      sample that could have been sent; sent again it gives the same bytes
      exactly when the reserved bits were zero. */
  lemma DecodedIsSendable(b: seq<byte>)
    requires Decode(b).rc == Success
    ensures var d := Decode(b);
      && 3 <= d.consumed <= |b| && Sendable(d.sample)
      && (Emit(d.sample) == b[..d.consumed] <==> b[1] / 16 == 0)
  {
    var d, i := Decode(b), b[1] / 2 % 8;
    assert |d.sample.data| == Pow2(i);
    OneExponent(i, Exponent(d.sample));
    var e := Emit(d.sample);
    assert e[0] == b[0] && e[2..] == b[2..d.consumed];
    assert e[1] == b[1] <==> b[1] / 16 == 0;
    assert b[..d.consumed] == [b[0], b[1]] + b[2..d.consumed];
  }

  function EmitAll(ss: seq<Sample>): seq<byte>
    requires forall s <- ss :: Sendable(s)
  {
    if ss == [] then [] else Emit(ss[0]) + EmitAll(ss[1..])
  }

  datatype Stream = Stream(rc: Rc, samples: seq<Sample>, rest: seq<byte>)

  type Decoder = seq<byte> -> Decoded

  ghost predicate StaysWithin(decode: Decoder) {
    forall b | decode(b).rc == Success :: 3 <= decode(b).consumed <= |b|
  }

  /** Decode and advance, `count` times, up to the first failure */
  function Repeat(decode: Decoder, b: seq<byte>, count: nat): Stream
    requires StaysWithin(decode)
    decreases count
  {
    if count == 0 then Stream(Success, [], b)
    else
      var d := decode(b);
      if d.rc != Success then Stream(d.rc, [], b) else Consed(d.sample, Repeat(decode, b[d.consumed..], count - 1))
  }

  function Consed(s: Sample, r: Stream): Stream {
    r.(samples := [s] + r.samples)
  }

  function DecodeAll(b: seq<byte>, count: nat): Stream {
    Repeat(Decode, b, count)
  }

  lemma NextSample(b: seq<byte>, s: Sample, more: seq<byte>, count: nat)
    requires Sendable(s) && b == Emit(s) + more && count > 0
    ensures DecodeAll(b, count) == Consed(s, DecodeAll(more, count - 1))
  {
    SampleRoundTrip(s, more);
    assert b[|Emit(s)|..] == more;
  }

  /** Any list of samples, encoded back to back, is recovered exactly */
  lemma {:induction false} StreamRoundTrip(b: seq<byte>, ss: seq<Sample>, rest: seq<byte>)
    requires (forall s <- ss :: Sendable(s)) && b == EmitAll(ss) + rest
    ensures DecodeAll(b, |ss|) == Stream(Success, ss, rest)
    decreases |ss|
  {
    if ss != [] {
      var more := EmitAll(ss[1..]) + rest;
      Associative(Emit(ss[0]), EmitAll(ss[1..]), rest);
      NextSample(b, ss[0], more, |ss|);
      StreamRoundTrip(more, ss[1..], rest);
    }
  }

  /** What is true of a stream decoded from `b`: samples that could have been sent,
      at least three bytes each, and the end of the bytes */
  ghost predicate IsFrom(b: seq<byte>, count: nat, r: Stream) {
    && |r.samples| <= count && (r.rc == Success <==> |r.samples| == count) && 3 * |r.samples| <= |b|
    && (forall s <- r.samples :: Sendable(s))
    && |EmitAll(r.samples)| + |r.rest| == |b| && r.rest == b[|b| - |r.rest|..]
  }

  lemma OneMoreDecoded(b: seq<byte>, count: nat, s: Sample, n: nat, r: Stream)
    requires 3 <= n <= |b| && Sendable(s) && |Emit(s)| == n && IsFrom(b[n..], count, r)
    ensures IsFrom(b, count + 1, Consed(s, r))
  {
    OneMoreSample(s, r.samples);
    EndOfEnd(b, n, |r.rest|);
  }

  /** What a decoder reads could have been sent */
  ghost predicate ReadsSendable(decode: Decoder, b: seq<byte>) {
    decode(b).rc == Success ==> Sendable(decode(b).sample) && |Emit(decode(b).sample)| == decode(b).consumed
  }

  lemma {:induction false} RepeatConsumes(decode: Decoder, b: seq<byte>, count: nat)
    requires StaysWithin(decode) && forall c :: ReadsSendable(decode, c)
    ensures IsFrom(b, count, Repeat(decode, b, count))
    decreases count
  {
    if count > 0 && decode(b).rc == Success {
      var d := decode(b);
      var rest := b[d.consumed..];
      assert ReadsSendable(decode, b);
      RepeatConsumes(decode, rest, count - 1);
      OneMoreDecoded(b, count - 1, d.sample, d.consumed, Repeat(decode, rest, count - 1));
    }
  }

  /** So it is on arbitrary bytes. */
  lemma StreamConsumes(b: seq<byte>, count: nat)
    ensures IsFrom(b, count, DecodeAll(b, count))
  {
    forall c ensures ReadsSendable(Decode, c) {
      if Decode(c).rc == Success { DecodedIsSendable(c); }
    }
    RepeatConsumes(Decode, b, count);
  }

  /** The bytes of each sample decoded */
  function Pieces(decode: Decoder, b: seq<byte>, count: nat): seq<seq<byte>>
    requires StaysWithin(decode)
    decreases count
  {
    if count == 0 || decode(b).rc != Success then []
    else
      var n := decode(b).consumed;
      [b[..n]] + Pieces(decode, b[n..], count - 1)
  }

  function Flatten<T>(xs: seq<seq<T>>): seq<T> {
    if xs == [] then [] else xs[0] + Flatten(xs[1..])
  }

  /** A piece is all there is, and decodes to this sample */
  ghost predicate IsPiece(decode: Decoder, piece: seq<byte>, s: Sample) {
    decode(piece) == Decoded(Success, s, |piece|)
  }

  /** What a decoder reads is a piece */
  ghost predicate ReadsPiece(decode: Decoder, b: seq<byte>)
    requires StaysWithin(decode)
  {
    decode(b).rc == Success ==> IsPiece(decode, b[..decode(b).consumed], decode(b).sample)
  }

  ghost predicate ArePieces(decode: Decoder, pieces: seq<seq<byte>>, samples: seq<Sample>) {
    |pieces| == |samples| && forall i | 0 <= i < |pieces| :: IsPiece(decode, pieces[i], samples[i])
  }

  lemma OnePiece(b: seq<byte>, n: nat, pieces: seq<seq<byte>>, rest: seq<byte>)
    requires n <= |b| && b[n..] == Flatten(pieces) + rest
    ensures b == Flatten([b[..n]] + pieces) + rest
  {
    assert ([b[..n]] + pieces)[1..] == pieces;
    Associative(b[..n], Flatten(pieces), rest);
    assert b == b[..n] + b[n..];
  }

  lemma OneMorePiece(decode: Decoder, piece: seq<byte>, s: Sample, pieces: seq<seq<byte>>, samples: seq<Sample>)
    requires IsPiece(decode, piece, s) && ArePieces(decode, pieces, samples)
    ensures ArePieces(decode, [piece] + pieces, [s] + samples)
  {
  }

  lemma {:induction false} RepeatReadsPieces(decode: Decoder, b: seq<byte>, count: nat)
    requires StaysWithin(decode)
    requires forall c :: ReadsPiece(decode, c)
    ensures var r, ps := Repeat(decode, b, count), Pieces(decode, b, count);
      b == Flatten(ps) + r.rest && ArePieces(decode, ps, r.samples)
    decreases count
  {
    if count > 0 && decode(b).rc == Success {
      var n := decode(b).consumed;
      var r, ps := Repeat(decode, b[n..], count - 1), Pieces(decode, b[n..], count - 1);
      RepeatReadsPieces(decode, b[n..], count - 1);
      assert ReadsPiece(decode, b);
      OnePiece(b, n, ps, r.rest);
      OneMorePiece(decode, b[..n], decode(b).sample, ps, r.samples);
    }
  }

  /** On arbitrary bytes: what is gone from the front are pieces, each of which
      decodes, alone, to its sample. */
  lemma StreamIsPieces(b: seq<byte>, count: nat)
    ensures var r, ps := DecodeAll(b, count), Pieces(Decode, b, count);
      b == Flatten(ps) + r.rest && ArePieces(Decode, ps, r.samples)
  {
    forall c ensures ReadsPiece(Decode, c) {
      if Decode(c).rc == Success {
        var n := Decode(c).consumed;
        assert c[..n][2..n] == c[2..n];
      }
    }
    RepeatReadsPieces(Decode, b, count);
  }

  /** Sent again, the samples are what is gone if and only if no piece has a reserved
      bit set. */
  lemma SentAgainIff(b: seq<byte>, count: nat)
    ensures var r, ps := DecodeAll(b, count), Pieces(Decode, b, count);
      && (forall s <- r.samples :: Sendable(s))
      && (EmitAll(r.samples) == Flatten(ps) <==> forall p <- ps :: |p| > 1 && p[1] / 16 == 0)
  {
    StreamIsPieces(b, count);
    PiecesSentAgain(Pieces(Decode, b, count), DecodeAll(b, count).samples);
  }

  lemma {:induction false} PiecesSentAgain(ps: seq<seq<byte>>, ss: seq<Sample>)
    requires ArePieces(Decode, ps, ss)
    ensures forall s <- ss :: Sendable(s)
    ensures |EmitAll(ss)| == |Flatten(ps)|
    ensures EmitAll(ss) == Flatten(ps) <==> forall p <- ps :: |p| > 1 && p[1] / 16 == 0
    decreases |ps|
  {
    if ps != [] {
      assert IsPiece(Decode, ps[0], ss[0]);
      PieceSentAgain(ps[0], ss[0]);
      PiecesSentAgain(ps[1..], ss[1..]);
      assert ss == [ss[0]] + ss[1..] && ps == [ps[0]] + ps[1..];
      SameParts(Emit(ss[0]), EmitAll(ss[1..]), ps[0], Flatten(ps[1..]));
    }
  }

  lemma PieceSentAgain(p: seq<byte>, s: Sample)
    requires IsPiece(Decode, p, s)
    ensures Sendable(s) && |Emit(s)| == |p| && |p| > 1 && (Emit(s) == p <==> p[1] / 16 == 0)
  {
    DecodedIsSendable(p);
    assert p[..|p|] == p;
  }

  lemma SameParts<T>(a: seq<T>, b: seq<T>, c: seq<T>, d: seq<T>)
    requires |a| == |c| && |b| == |d|
    ensures a + b == c + d <==> a == c && b == d
  {
    assert (a + b)[..|a|] == a && (a + b)[|a|..] == b && (c + d)[..|a|] == c && (c + d)[|a|..] == d;
  }

  lemma EndOfEnd<T>(b: seq<T>, n: nat, k: nat)
    requires n + k <= |b|
    ensures b[n..][|b| - n - k..] == b[|b| - k..]
  {
  }

  lemma OneMoreSample(s: Sample, ss: seq<Sample>)
    requires Sendable(s) && forall t <- ss :: Sendable(t)
    ensures (forall t <- [s] + ss :: Sendable(t)) && EmitAll([s] + ss) == Emit(s) + EmitAll(ss)
  {
    assert ([s] + ss)[1..] == ss;
  }

  // ------------------------------------------------------ streams cut short

  /** A sample cut short is too short for any sample; or it announces what it is and
      how long it should have been. */
  lemma CutSample(s: Sample, k: nat)
    requires Sendable(s) && k < |Emit(s)|
    ensures Decode(Emit(s)[..k]) == if k < 3 then Decoded(ErrorLength, Sample(0, false, []), 0)
                                    else Decoded(ErrorData, Sample(s.tag, s.valid, []), |Emit(s)|)
  {
    var i := Exponent(s);
    if k >= 3 { assert Emit(s)[..k][1] / 2 % 8 == i; }
  }

  function CutRc(rest: seq<byte>): Rc {
    if |rest| < 3 then ErrorLength else ErrorData
  }

  /** `b` is the first j samples and part of the next */
  ghost predicate IsCut(b: seq<byte>, ss: seq<Sample>, j: nat, rest: seq<byte>)
    requires forall s <- ss :: Sendable(s)
  {
    j < |ss| && b == EmitAll(ss[..j]) + rest && |rest| < |Emit(ss[j])|
  }

  lemma CutAtOnce(ss: seq<Sample>, rest: seq<byte>)
    requires ss != [] && (forall s <- ss :: Sendable(s)) && |rest| < |Emit(ss[0])|
    ensures IsCut(rest, ss, 0, rest) && ss[..0] == []
  {
    assert ss[..0] == [] && EmitAll([]) + rest == rest;
  }

  lemma CutLater(s: Sample, ss: seq<Sample>, more: seq<byte>, j: nat, rest: seq<byte>)
    requires Sendable(s) && (forall t <- ss :: Sendable(t)) && IsCut(more, ss, j, rest)
    ensures forall t <- [s] + ss :: Sendable(t)
    ensures IsCut(Emit(s) + more, [s] + ss, j + 1, rest) && ([s] + ss)[..j + 1] == [s] + ss[..j]
  {
    assert ([s] + ss)[..j + 1] == [s] + ss[..j] && ([s] + ss)[j + 1] == ss[j];
    OneMoreSample(s, ss[..j]);
    Associative(Emit(s), EmitAll(ss[..j]), rest);
  }

  /** A decoder that reads a sample that is there and refuses one that is cut */
  ghost predicate ReadsWhole(decode: Decoder, s: Sample, b: seq<byte>)
    requires Sendable(s)
  {
    && (Emit(s) <= b ==> decode(b) == Decoded(Success, s, |Emit(s)|))
    && (b < Emit(s) ==> decode(b).rc == CutRc(b))
  }

  lemma FrontOfBoth<T>(e: seq<T>, rest: seq<T>, b: seq<T>, missing: seq<T>)
    requires e + rest == b + missing
    ensures |b| < |e| ==> b < e
    ensures |b| >= |e| ==> b == e + b[|e|..] && rest == b[|e|..] + missing
  {
    var all := e + rest;
    assert all[..|e|] == e && all[|e|..] == rest;
    assert (b + missing)[..|b|] == b;
    if |b| < |e| {
      assert all[..|e|][..|b|] == all[..|b|];
    } else {
      assert b[..|e|] == (b + missing)[..|e|];
      assert (b + missing)[|e|..] == b[|e|..] + missing;
    }
  }

  lemma RepeatStep(decode: Decoder, b: seq<byte>, s: Sample, more: seq<byte>, count: nat)
    requires StaysWithin(decode) && Sendable(s) && b == Emit(s) + more && count > 0
    requires decode(b) == Decoded(Success, s, |Emit(s)|)
    ensures Repeat(decode, b, count) == Consed(s, Repeat(decode, more, count - 1))
  {
    assert b[|Emit(s)|..] == more;
  }

  lemma {:induction false} CutRepeat(decode: Decoder, b: seq<byte>, missing: seq<byte>, ss: seq<Sample>)
    returns (j: nat, rest: seq<byte>)
    requires StaysWithin(decode) && forall s, c | Sendable(s) :: ReadsWhole(decode, s, c)
    requires (forall s <- ss :: Sendable(s)) && EmitAll(ss) == b + missing && missing != []
    ensures IsCut(b, ss, j, rest) && Repeat(decode, b, |ss|) == Stream(CutRc(rest), ss[..j], rest)
    decreases |ss|
  {
    var s, us := ss[0], ss[1..];
    assert ss == [s] + us;
    FrontOfBoth(Emit(s), EmitAll(us), b, missing);
    assert ReadsWhole(decode, s, b);
    if |b| < |Emit(s)| {
      j, rest := 0, b;
      CutAtOnce(ss, b);
    } else {
      var more := b[|Emit(s)|..];
      j, rest := CutRepeat(decode, more, missing, us);
      CutLater(s, us, more, j, rest);
      RepeatStep(decode, b, s, more, |ss|);
      j := j + 1;
    }
  }

  /** A stream cut short anywhere gives exactly the samples that are whole, and then
      the error of the one that is not. */
  lemma CutStream(b: seq<byte>, missing: seq<byte>, ss: seq<Sample>) returns (j: nat, rest: seq<byte>)
    requires (forall s <- ss :: Sendable(s)) && EmitAll(ss) == b + missing && missing != []
    ensures IsCut(b, ss, j, rest)
    ensures DecodeAll(b, |ss|) == Stream(if |rest| < 3 then ErrorLength else ErrorData, ss[..j], rest)
  {
    forall s, c | Sendable(s) ensures ReadsWhole(Decode, s, c) {
      if Emit(s) <= c {
        SampleRoundTrip(s, c[|Emit(s)|..]);
        assert c == Emit(s) + c[|Emit(s)|..];
      } else if c < Emit(s) {
        CutSample(s, |c|);
        assert c == Emit(s)[..|c|];
      }
    }
    j, rest := CutRepeat(Decode, b, missing, ss);
  }

  // ------------------------------------------------------------- the message

  const HEADER_LEN := 9

  /** encode_aggregate_resp: five header bytes, command, completion code and the
      number of samples.  Only the low five bits of the instance ID are sent. */
  function Header(instanceId: nat, command: byte, cc: byte, count: nat): seq<byte> {
    [0x10, 0xde, instanceId % 32, 0x89, 3, command, cc] + LeBytes(count, 2)
  }

  /** decode_aggregate_resp */
  function DecodeHeader(msg: seq<byte>): (r: (Rc, nat, nat, nat)) {
    if |msg| < HEADER_LEN then (ErrorLength, 0, 0, 0) else (Success, HEADER_LEN, msg[6], LeValue(msg[7..9]))
  }

  lemma HeaderRoundTrip(msg: seq<byte>, instanceId: nat, command: byte, cc: byte, count: nat, rest: seq<byte>)
    requires msg == Header(instanceId, command, cc, count) + rest && count < UINT16_END
    ensures DecodeHeader(msg) == (Success, HEADER_LEN, cc, count) && msg[HEADER_LEN..] == rest
  {
    assert msg[7..9] == LeBytes(count, 2);
    WordSizes();
    LeRoundTrip(count, 2);
  }

  /** A header cut short is a length error */
  lemma CutHeader(instanceId: nat, command: byte, cc: byte, count: nat, k: nat)
    requires k < HEADER_LEN
    ensures |Header(instanceId, command, cc, count)| == HEADER_LEN
    ensures DecodeHeader(Header(instanceId, command, cc, count)[..k]) == (ErrorLength, 0, 0, 0)
  {
  }

  /** Its first five bytes say that it is a response, of which type, and for which
      instance ID. */
  lemma HeaderReadBack(instanceId: nat, command: byte, cc: byte, count: nat, rest: seq<byte>, was: NsmHeader.HeaderInfo)
    ensures var b := Header(instanceId, command, cc, count) + rest;
      && NsmHeader.Unpacked(b, was) == (Success, NsmHeader.HeaderInfo(NsmHeader.RESPONSE, instanceId % 32, 3))
      && b[5] == command
  {
    var b, h := Header(instanceId, command, cc, count) + rest, NsmHeader.HeaderInfo(0, instanceId % 32, 3);
    assert b == NsmHeader.Packed(h, 9) + b[5..];
    NsmHeader.HeaderRoundTrip(h, 9, b[5..], was);
  }

  /** A whole message: header, then as many samples as it says */
  lemma MessageRoundTrip(msg: seq<byte>, instanceId: nat, command: byte, cc: byte, ss: seq<Sample>, rest: seq<byte>)
    requires (forall s <- ss :: Sendable(s)) && |ss| < UINT16_END
    requires msg == Header(instanceId, command, cc, |ss|) + (EmitAll(ss) + rest)
    ensures DecodeHeader(msg) == (Success, HEADER_LEN, cc, |ss|)
    ensures DecodeAll(msg[HEADER_LEN..], |ss|) == Stream(Success, ss, rest)
  {
    HeaderRoundTrip(msg, instanceId, command, cc, |ss|, EmitAll(ss) + rest);
    StreamRoundTrip(msg[HEADER_LEN..], ss, rest);
  }
}
