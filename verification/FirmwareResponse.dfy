/** The whole eROT state response message, as a function of its bytes
  (libnsm/firmware-utils.c), and the round trip.
 */
module FirmwareResponse {
  import opened Bits
  import opened LittleEndian
  import opened Seqs
  import opened Nsm
  import opened FirmwareTlv
  import opened FirmwareOrder

  const GET_EROT_STATE_INFORMATION := 1

  /** sizeof(nsm_msg_hdr) + sizeof(nsm_common_telemetry_resp) */
  const TAGS_AT := 9

  datatype Info = Info(hdr: Hdr, slots: seq<Slot>)

  predicate InfoFits(info: Info) {
    && HdrFits(info.hdr) && info.hdr.firmwareSlotCount == |info.slots|
    && forall s <- info.slots :: SlotFits(s)
  }

  // --------------------------------------------------------------- encoding

  function FixedTlv(tag: byte, length: nat, v: nat): Tlv
    requires length < 4
  {
    Tlv(tag, 1 + 2 * length, LeBytes(v, Pow2(length)))
  }

  function TextTlv(version: VersionString): Tlv
  {
    Tlv(FIRMWARE_VERSION_STRING, 1 + 2 * 4, version[..16])
  }

  /** The header tags before the slot count */
  function HdrTags(h: Hdr): seq<Tlv> {
    [FixedTlv(BACKGROUND_COPY_POLICY, 0, h.backgroundCopyPolicy),
     FixedTlv(ACTIVE_FIRMWARE_SLOT, 0, h.activeSlot),
     FixedTlv(ACTIVE_KEY_SET, 0, h.activeKeyset),
     FixedTlv(MINIMUM_SECURITY_VERSION_NUMBER, 1, h.minimumSecurityVersion),
     FixedTlv(INBAND_UPDATE_POLICY, 0, h.inbandUpdatePolicy),
     FixedTlv(BOOT_STATUS_CODE, 3, h.bootStatusCode)]
  }

  function CountTag(h: Hdr): Tlv {
    FixedTlv(FIRMWARE_SLOT_COUNT, 0, h.firmwareSlotCount)
  }

  function IdTag(s: Slot): Tlv {
    FixedTlv(FIRMWARE_SLOT_ID, 0, s.slotId)
  }

  /** The tags of a slot after its ID */
  function SlotTags(s: Slot): seq<Tlv>
  {
    [TextTlv(s.version),
     FixedTlv(VERSION_COMPARISON_STAMP, 2, s.versionComparisonStamp),
     FixedTlv(BUILD_TYPE, 0, s.buildType),
     FixedTlv(SIGNING_TYPE, 0, s.signingType),
     FixedTlv(WRITE_PROTECT_STATE, 0, s.writeProtectState),
     FixedTlv(FIRMWARE_STATE, 0, s.firmwareState),
     FixedTlv(SECURITY_VERSION_NUMBER, 1, s.securityVersionNumber),
     FixedTlv(SIGNING_KEY_INDEX, 1, s.signingKeyIndex)]
  }

  function SlotBytes(s: Slot): seq<byte> {
    Emit(IdTag(s)) + EmitAll(SlotTags(s))
  }

  function EncodeEach(encode: Slot -> seq<byte>, slots: seq<Slot>): seq<byte>
    decreases |slots|
  {
    if slots == [] then [] else encode(slots[0]) + EncodeEach(encode, slots[1..])
  }

  lemma {:induction false} EncodeEachAppend(encode: Slot -> seq<byte>, slots: seq<Slot>, s: Slot)
    ensures EncodeEach(encode, slots + [s]) == EncodeEach(encode, slots) + encode(s)
  {
    if slots == [] {
      assert slots + [s] == [s] && [s][1..] == [];
      assert EncodeEach(encode, [s]) == encode(s) + EncodeEach(encode, []);
    } else {
      assert (slots + [s])[1..] == slots[1..] + [s];
      EncodeEachAppend(encode, slots[1..], s);
      Associative(encode(slots[0]), EncodeEach(encode, slots[1..]), encode(s));
    }
  }

  function TagCount(n: nat): nat {
    7 + 9 * n
  }

  /** pack_nsm_header for a firmware response */
  function MsgHeader(instanceId: nat): seq<byte>
    requires instanceId <= INSTANCE_MAX
  {
    [0x10, 0xde, instanceId, 0x89, 6]
  }

  /** All the tags of a message */
  function TagBytes(info: Info): seq<byte> {
    EmitAll(HdrTags(info.hdr)) + Emit(CountTag(info.hdr)) + EncodeEach(SlotBytes, info.slots)
  }

  /** encode_nsm_query_get_erot_state_parameters_resp with completion code 0 */
  function EncodeResp(instanceId: nat, info: Info): seq<byte>
    requires instanceId <= INSTANCE_MAX
  {
    MsgHeader(instanceId) + [GET_EROT_STATE_INFORMATION, NSM_SUCCESS] + LeBytes(TagCount(|info.slots|), 2)
    + EmitAll(HdrTags(info.hdr)) + Emit(CountTag(info.hdr)) + EncodeEach(SlotBytes, info.slots)
  }

  /** and with any other */
  function EncodeFailure(instanceId: nat, cc: byte, reason: nat): seq<byte>
    requires instanceId <= INSTANCE_MAX
  {
    MsgHeader(instanceId) + [GET_EROT_STATE_INFORMATION, cc] + LeBytes(reason, 2)
  }

  // --------------------------------------------------------------- decoding

  /** The 16-bit payload size computed from the message length */
  function PayloadSize(msgLen: nat): nat
    requires msgLen >= 8
  {
    var low := msgLen % UINT16_END;
    if low >= TAGS_AT then low - TAGS_AT else low + UINT16_END - TAGS_AT
  }

  /** It stays within the message exactly from nine bytes on: with eight, which
      the code lets pass, it is 65535.  It is all there is behind the nine first
      bytes exactly up to a length of 65544. */
  lemma PayloadWithinIff(msgLen: nat)
    requires msgLen >= 8
    ensures TAGS_AT + PayloadSize(msgLen) <= msgLen <==> msgLen >= TAGS_AT
    ensures TAGS_AT + PayloadSize(msgLen) == msgLen <==> TAGS_AT <= msgLen < TAGS_AT + UINT16_END
  {
    if msgLen >= UINT16_END { assert msgLen % UINT16_END <= msgLen - UINT16_END; }
  }

  datatype Response = Response(rc: Rc, cc: nat, reason: nat, info: Info)

  /** What the decoder reads of a message is there.  The code reads the completion
      code before it looks at the length. */
  predicate Readable(mem: seq<byte>, msgLen: nat) {
    7 <= msgLen <= |mem| && (mem[6] == NSM_SUCCESS && msgLen >= 8 ==> |mem| >= TAGS_AT + PayloadSize(msgLen))
  }

  /** decode_nsm_query_get_erot_state_parameters_resp, of a message of `msgLen`
      bytes at the front of `mem`; `reason` and `info` are the out-parameters as
      the caller passes them in. */
  function DecodeResp(mem: seq<byte>, msgLen: nat, reason: nat, info: Info): Response
    requires Readable(mem, msgLen)
  {
    var cc := mem[6];
    if cc == NSM_ACCEPTED then Response(Success, cc, reason, info)
    else if cc != NSM_SUCCESS then
      if msgLen != 9 then Response(ErrorLength, cc, reason, info)
      else Response(Success, cc, LeValue(mem[7..9]), info)
    else if msgLen < 8 then Response(ErrorLength, cc, reason, info)
    else
      DecodeTags(DecodeHdr, DecodeSlot, mem[TAGS_AT..TAGS_AT + PayloadSize(msgLen)], LeValue(mem[7..9]), reason, info)
  }

  type HdrDecoder = (seq<byte>, nat, Hdr) -> Decoded<Hdr>
  type SlotDecoder = (seq<byte>, nat, Slot) -> Decoded<Slot>

  /** The header, then as many slots as it says, into zeroed structures */
  function DecodeTags(decodeHdr: HdrDecoder, decodeSlot: SlotDecoder, p: seq<byte>, count: nat, reason: nat,
                      info: Info): Response {
    var d := decodeHdr(p, count, info.hdr);
    if d.rc != Success then Response(d.rc, NSM_SUCCESS, reason, Info(d.value, info.slots))
    else
      var e := DecodeEach(decodeSlot, d.rest, d.count, seq(d.value.firmwareSlotCount, _ => ZeroSlot()), 0);
      Response(e.rc, NSM_SUCCESS, reason, Info(d.value, e.value))
  }

  // ------------------------------------------------------------- round trip

  /** What a slot becomes: 16 bytes of the version string are sent */
  function Sent(s: Slot): Slot
  {
    s.(version := s.version[..16] + Zeros(VERSION_STRING_MAX - 16))
  }

  /** `t` sets the field of `tag` to `v`, in w bytes */
  predicate Carries(t: Tlv, tag: nat, w: nat, v: nat) {
    t.tag == tag && t.IsValid() && |t.data| == w && LeValue(t.data) == v
  }

  lemma FixedTlvCarries(tag: byte, length: nat, v: nat)
    requires length < 4
    requires v < if length == 0 then UINT8_END else if length == 1 then UINT16_END
                 else if length == 2 then UINT32_END else UINT64_END
    ensures var w := if length == 0 then 1 else if length == 1 then 2 else if length == 2 then 4 else 8;
      Carries(FixedTlv(tag, length, v), tag, w, v)
  {
    WordSizes();
    assert Pow2(0) == 1 && Pow2(1) == 2 && Pow2(2) == 4 && Pow2(3) == 8;
    LeRoundTrip(v, Pow2(length));
  }

  predicate CarryHdr(ts: seq<Tlv>, sc: Tlv, h: Hdr) {
    && |ts| == 6
    && Carries(ts[0], BACKGROUND_COPY_POLICY, 1, h.backgroundCopyPolicy)
    && Carries(ts[1], ACTIVE_FIRMWARE_SLOT, 1, h.activeSlot)
    && Carries(ts[2], ACTIVE_KEY_SET, 1, h.activeKeyset)
    && Carries(ts[3], MINIMUM_SECURITY_VERSION_NUMBER, 2, h.minimumSecurityVersion)
    && Carries(ts[4], INBAND_UPDATE_POLICY, 1, h.inbandUpdatePolicy)
    && Carries(ts[5], BOOT_STATUS_CODE, 8, h.bootStatusCode)
    && Carries(sc, FIRMWARE_SLOT_COUNT, 1, h.firmwareSlotCount)
  }

  predicate CarrySlot(id: Tlv, ts: seq<Tlv>, s: Slot)
  {
    && |ts| == 8
    && Carries(id, FIRMWARE_SLOT_ID, 1, s.slotId)
    && ts[0] == TextTlv(s.version)
    && Carries(ts[1], VERSION_COMPARISON_STAMP, 4, s.versionComparisonStamp)
    && Carries(ts[2], BUILD_TYPE, 1, s.buildType)
    && Carries(ts[3], SIGNING_TYPE, 1, s.signingType)
    && Carries(ts[4], WRITE_PROTECT_STATE, 1, s.writeProtectState)
    && Carries(ts[5], FIRMWARE_STATE, 1, s.firmwareState)
    && Carries(ts[6], SECURITY_VERSION_NUMBER, 2, s.securityVersionNumber)
    && Carries(ts[7], SIGNING_KEY_INDEX, 2, s.signingKeyIndex)
  }

  lemma HdrTagsCarry(h: Hdr)
    requires HdrFits(h)
    ensures CarryHdr(HdrTags(h), CountTag(h), h)
  {
    FixedTlvCarries(BACKGROUND_COPY_POLICY, 0, h.backgroundCopyPolicy);
    FixedTlvCarries(ACTIVE_FIRMWARE_SLOT, 0, h.activeSlot);
    FixedTlvCarries(ACTIVE_KEY_SET, 0, h.activeKeyset);
    FixedTlvCarries(MINIMUM_SECURITY_VERSION_NUMBER, 1, h.minimumSecurityVersion);
    FixedTlvCarries(INBAND_UPDATE_POLICY, 0, h.inbandUpdatePolicy);
    FixedTlvCarries(BOOT_STATUS_CODE, 3, h.bootStatusCode);
    FixedTlvCarries(FIRMWARE_SLOT_COUNT, 0, h.firmwareSlotCount);
  }

  lemma SlotTagsCarry(s: Slot)
    requires SlotFits(s)
    ensures CarrySlot(IdTag(s), SlotTags(s), s)
  {
    FixedTlvCarries(FIRMWARE_SLOT_ID, 0, s.slotId);
    FixedTlvCarries(VERSION_COMPARISON_STAMP, 2, s.versionComparisonStamp);
    FixedTlvCarries(BUILD_TYPE, 0, s.buildType);
    FixedTlvCarries(SIGNING_TYPE, 0, s.signingType);
    FixedTlvCarries(WRITE_PROTECT_STATE, 0, s.writeProtectState);
    FixedTlvCarries(FIRMWARE_STATE, 0, s.firmwareState);
    FixedTlvCarries(SECURITY_VERSION_NUMBER, 1, s.securityVersionNumber);
    FixedTlvCarries(SIGNING_KEY_INDEX, 1, s.signingKeyIndex);
  }

  lemma HdrWellFormed(ts: seq<Tlv>, sc: Tlv, h: Hdr)
    requires CarryHdr(ts, sc, h)
    ensures (forall t <- ts :: WfHdr(t) && t.tag != FIRMWARE_SLOT_COUNT) && WfHdr(sc) && sc.tag == FIRMWARE_SLOT_COUNT
  {
  }

  lemma SlotWellFormed(id: Tlv, ts: seq<Tlv>, s: Slot)
    requires CarrySlot(id, ts, s)
    ensures IsSlotId(id) && forall t <- ts :: WfSlot(t) && TextFits(t, [])
  {
    assert Pow2(2) == 4 && Pow2(4) == 16;
  }

  lemma FoldStep<S>(apply: (S, Tlv) -> S, s: S, ts: seq<Tlv>, i: nat)
    requires i < |ts|
    ensures Fold(apply, s, ts[i..]) == Fold(apply, apply(s, ts[i]), ts[i + 1..])
  {
    assert ts[i..][1..] == ts[i + 1..];
  }

  lemma FoldHdrTags(h0: Hdr, h: Hdr, ts: seq<Tlv>, sc: Tlv)
    requires CarryHdr(ts, sc, h)
    ensures ApplyHdr(Fold(ApplyHdr, h0, ts), sc) == h
  {
    var h1 := h0.(backgroundCopyPolicy := h.backgroundCopyPolicy);
    var h2 := h1.(activeSlot := h.activeSlot);
    var h3 := h2.(activeKeyset := h.activeKeyset);
    var h4 := h3.(minimumSecurityVersion := h.minimumSecurityVersion);
    var h5 := h4.(inbandUpdatePolicy := h.inbandUpdatePolicy);
    var h6 := h5.(bootStatusCode := h.bootStatusCode);
    assert ts[0..] == ts && ts[6..] == [];
    FoldStep(ApplyHdr, h0, ts, 0);
    FoldStep(ApplyHdr, h1, ts, 1);
    FoldStep(ApplyHdr, h2, ts, 2);
    FoldStep(ApplyHdr, h3, ts, 3);
    FoldStep(ApplyHdr, h4, ts, 4);
    FoldStep(ApplyHdr, h5, ts, 5);
    assert Fold(ApplyHdr, h0, ts) == h6;
  }

  lemma FoldSlotTags(s: Slot, id: Tlv, ts: seq<Tlv>)
    requires CarrySlot(id, ts, s)
    ensures Fold(ApplySlot, ApplySlot(ZeroSlot(), id), ts) == Sent(s)
  {
    var s0 := ZeroSlot().(slotId := s.slotId);
    var s1 := s0.(version := Sent(s).version);
    var s2 := s1.(versionComparisonStamp := s.versionComparisonStamp);
    var s3 := s2.(buildType := s.buildType);
    var s4 := s3.(signingType := s.signingType);
    var s5 := s4.(writeProtectState := s.writeProtectState);
    var s6 := s5.(firmwareState := s.firmwareState);
    var s7 := s6.(securityVersionNumber := s.securityVersionNumber);
    var s8 := s7.(signingKeyIndex := s.signingKeyIndex);
    assert ApplySlot(s0, ts[0]) == s1 by {
      assert s.version[..16] + Zeros(VERSION_STRING_MAX)[16..] == s1.version;
    }
    assert ts[0..] == ts && ts[8..] == [];
    FoldStep(ApplySlot, s0, ts, 0);
    FoldStep(ApplySlot, s1, ts, 1);
    FoldStep(ApplySlot, s2, ts, 2);
    FoldStep(ApplySlot, s3, ts, 3);
    FoldStep(ApplySlot, s4, ts, 4);
    FoldStep(ApplySlot, s5, ts, 5);
    FoldStep(ApplySlot, s6, ts, 6);
    FoldStep(ApplySlot, s7, ts, 7);
    assert Fold(ApplySlot, s0, ts) == s8;
  }

  /** One slot, followed by the next slot or by no more tags */
  lemma SlotRoundTrip(p: seq<byte>, s: Slot, more: seq<byte>, count: nat)
    requires SlotFits(s) && p == SlotBytes(s) + more
    requires count >= 9 && EndsSlot(more, count - 9)
    ensures DecodeSlot(p, count, ZeroSlot()) == Decoded(Success, Sent(s), more, count - 9)
  {
    var id, ts := IdTag(s), SlotTags(s);
    SlotTagsCarry(s);
    SlotWellFormed(id, ts, s);
    forall t <- ts ensures TextFits(t, more) { assert TextFits(t, []); }
    FitAnywhere(ts, more);
    Associative(Emit(id), EmitAll(ts), more);
    SlotAccepts(p, id, ts, more, count);
    FoldSlotTags(s, id, ts);
    assert ([id] + ts)[1..] == ts;
  }

  function SentAll(slots: seq<Slot>): seq<Slot>
  {
    seq(|slots|, i requires 0 <= i < |slots| => Sent(slots[i]))
  }

  /** A slot decoder that reads one encoded slot reads them all */
  lemma {:induction false} EachRoundTrip(decode: (seq<byte>, nat, Slot) -> Decoded<Slot>, encode: Slot -> seq<byte>,
                                         zero: Slot,
                                         p: seq<byte>, slots: seq<Slot>, rest: seq<byte>, done: seq<Slot>, i: nat)
    requires forall s, more, count: nat | s in slots && count >= 9 && EndsSlot(more, count - 9) ::
               decode(encode(s) + more, count, zero) == Decoded(Success, Sent(s), more, count - 9)
    requires forall s, more, count: nat | s in slots :: EndsSlot(encode(s) + more, count)
    requires i <= |slots| == |done| && forall j | i <= j < |slots| :: done[j] == zero
    requires p == EncodeEach(encode, slots[i..]) + rest
    ensures DecodeEach(decode, p, 9 * (|slots| - i), done, i)
         == Decoded(Success, done[..i] + SentAll(slots)[i..], rest, 0)
    decreases |slots| - i
  {
    if i == |slots| {
      assert p == rest && done[..i] + SentAll(slots)[i..] == done;
    } else {
      var s, us, count := slots[i], slots[i + 1..], 9 * (|slots| - i);
      var more := EncodeEach(encode, us) + rest;
      assert slots[i..][1..] == us;
      Associative(encode(s), EncodeEach(encode, us), rest);
      assert EndsSlot(more, count - 9) by {
        if us != [] {
          Associative(encode(us[0]), EncodeEach(encode, us[1..]), rest);
          assert EndsSlot(encode(us[0]) + (EncodeEach(encode, us[1..]) + rest), count - 9);
        }
      }
      var done' := done[i := Sent(s)];
      EachRoundTrip(decode, encode, zero, more, slots, rest, done', i + 1);
      assert done'[..i + 1] + SentAll(slots)[i + 1..] == done[..i] + SentAll(slots)[i..];
    }
  }

  lemma SlotsRoundTrip(p: seq<byte>, slots: seq<Slot>, rest: seq<byte>)
    requires (forall s <- slots :: SlotFits(s)) && p == EncodeEach(SlotBytes, slots) + rest
    ensures DecodeEach(DecodeSlot, p, 9 * |slots|, seq(|slots|, _ => ZeroSlot()), 0)
         == Decoded(Success, SentAll(slots), rest, 0)
  {
    forall s, more, count: nat | s in slots && count >= 9 && EndsSlot(more, count - 9)
      ensures DecodeSlot(SlotBytes(s) + more, count, ZeroSlot()) == Decoded(Success, Sent(s), more, count - 9)
    {
      SlotRoundTrip(SlotBytes(s) + more, s, more, count);
    }
    var done := seq(|slots|, _ => ZeroSlot());
    assert slots[0..] == slots && done[..0] + SentAll(slots)[0..] == SentAll(slots);
    EachRoundTrip(DecodeSlot, SlotBytes, ZeroSlot(), p, slots, rest, done, 0);
  }

  lemma {:induction false} EncodedSlotsSize(slots: seq<Slot>)
    requires forall s <- slots :: SlotFits(s)
    ensures |EncodeEach(SlotBytes, slots)| == 47 * |slots|
    decreases |slots|
  {
    if slots != [] {
      SlotTagsCarry(slots[0]);
      SlotSize(IdTag(slots[0]), SlotTags(slots[0]), slots[0]);
      EncodedSlotsSize(slots[1..]);
    }
  }

  /** Bytes of the first n tags */
  function SizeOf(ts: seq<Tlv>, n: nat): nat
    requires n <= |ts|
  {
    if n == 0 then 0 else SizeOf(ts, n - 1) + 2 + |ts[n - 1].data|
  }

  lemma {:induction false} EmittedSize(ts: seq<Tlv>, n: nat)
    requires n <= |ts|
    ensures |EmitAll(ts[..n])| == SizeOf(ts, n)
  {
    if n > 0 {
      EmittedSize(ts, n - 1);
      assert ts[..n] == ts[..n - 1] + [ts[n - 1]];
      EmitAllAppend(ts[..n - 1], [ts[n - 1]]);
      EmitAllCons(ts[n - 1], []);
    }
  }

  lemma SlotSize(id: Tlv, ts: seq<Tlv>, s: Slot)
    requires CarrySlot(id, ts, s)
    ensures |Emit(id)| + |EmitAll(ts)| == 47
  {
    EmittedSize(ts, 8);
    assert ts[..8] == ts;
    assert SizeOf(ts, 0) == 0 && SizeOf(ts, 1) == 18 && SizeOf(ts, 2) == 24 && SizeOf(ts, 3) == 27;
    assert SizeOf(ts, 4) == 30;
    assert SizeOf(ts, 5) == 33 && SizeOf(ts, 6) == 36 && SizeOf(ts, 7) == 40 && SizeOf(ts, 8) == 44;
  }

  lemma HdrSize(ts: seq<Tlv>, sc: Tlv, h: Hdr)
    requires CarryHdr(ts, sc, h)
    ensures |EmitAll(ts)| + |Emit(sc)| == 29
  {
    EmittedSize(ts, 6);
    assert ts[..6] == ts;
    assert SizeOf(ts, 0) == 0 && SizeOf(ts, 1) == 3 && SizeOf(ts, 2) == 6 && SizeOf(ts, 3) == 9;
    assert SizeOf(ts, 4) == 13 && SizeOf(ts, 5) == 16 && SizeOf(ts, 6) == 26;
  }

  /** The encoded tags take 29 + 47n bytes and number 7 + 9n: for up to 255
      slots both stay within 16 bits. */
  lemma EncodedSize(instanceId: nat, info: Info)
    requires instanceId <= INSTANCE_MAX && InfoFits(info)
    ensures |EncodeResp(instanceId, info)| == TAGS_AT + 29 + 47 * |info.slots| <= UINT16_END - 1
    ensures TagCount(|info.slots|) < UINT16_END
  {
    HdrTagsCarry(info.hdr);
    HdrSize(HdrTags(info.hdr), CountTag(info.hdr), info.hdr);
    EncodedSlotsSize(info.slots);
  }

  lemma HdrRoundTrip(p: seq<byte>, h: Hdr, tail: seq<byte>, count: nat, h0: Hdr)
    requires HdrFits(h) && count >= 7
    requires p == EmitAll(HdrTags(h)) + (Emit(CountTag(h)) + tail)
    ensures DecodeHdr(p, count, h0) == Decoded(Success, h, tail, count - 7)
  {
    var ts, sc := HdrTags(h), CountTag(h);
    HdrTagsCarry(h);
    HdrWellFormed(ts, sc, h);
    HdrAccepts(ts, sc, tail, count);
    FoldAppend(ApplyHdr, h0, ts, sc);
    FoldHdrTags(h0, h, ts, sc);
  }

  lemma TagsDecoded(decodeHdr: HdrDecoder, decodeSlot: SlotDecoder, p: seq<byte>, count: nat, reason: nat, info0: Info,
                    hdr: Hdr, tail: seq<byte>, slots: seq<Slot>, rest: seq<byte>)
    requires count >= 7 && decodeHdr(p, count, info0.hdr) == Decoded(Success, hdr, tail, count - 7)
    requires DecodeEach(decodeSlot, tail, count - 7, seq(hdr.firmwareSlotCount, _ => ZeroSlot()), 0)
          == Decoded(Success, slots, rest, 0)
    ensures DecodeTags(decodeHdr, decodeSlot, p, count, reason, info0)
         == Response(Success, NSM_SUCCESS, reason, Info(hdr, slots))
  {
  }

  /** Decoding the tags of an encoded message restores the header and every
      slot, whatever the caller's structure held and whatever bytes follow. */
  lemma TagsRoundTrip(p: seq<byte>, tail: seq<byte>, count: nat, info: Info, rest: seq<byte>, reason: nat, info0: Info)
    requires HdrFits(info.hdr) && (forall s <- info.slots :: SlotFits(s)) && |info.slots| == info.hdr.firmwareSlotCount
    requires p == EmitAll(HdrTags(info.hdr)) + (Emit(CountTag(info.hdr)) + tail)
    requires tail == EncodeEach(SlotBytes, info.slots) + rest && count == 7 + 9 * |info.slots|
    ensures DecodeTags(DecodeHdr, DecodeSlot, p, count, reason, info0)
         == Response(Success, NSM_SUCCESS, reason, Info(info.hdr, SentAll(info.slots)))
  {
    HdrRoundTrip(p, info.hdr, tail, count, info0.hdr);
    SlotsRoundTrip(tail, info.slots, rest);
    TagsDecoded(DecodeHdr, DecodeSlot, p, count, reason, info0, info.hdr, tail, SentAll(info.slots), rest);
  }

  // -------------------------------- whatever is decoded, it was such a message

  /** What is gone from the front of `p` are well-formed slot tags, as many as the
      count dropped by */
  ghost predicate Consumed(p: seq<byte>, count: nat, rest: seq<byte>, left: nat) {
    exists ts :: p == EmitAll(ts) + rest && |ts| + left == count && AllSlotTags(ts)
  }

  ghost predicate AllSlotTags(ts: seq<Tlv>) {
    forall t <- ts :: IsSlotId(t) || WfSlot(t)
  }

  lemma ConsumedBoth(p: seq<byte>, count: nat, q: seq<byte>, mid: nat, rest: seq<byte>, left: nat)
    requires Consumed(p, count, q, mid) && Consumed(q, mid, rest, left)
    ensures Consumed(p, count, rest, left)
  {
    var ts :| p == EmitAll(ts) + q && |ts| + mid == count && AllSlotTags(ts);
    var us :| q == EmitAll(us) + rest && |us| + left == mid && AllSlotTags(us);
    EmitAllAppend(ts, us);
    Associative(EmitAll(ts), EmitAll(us), rest);
    assert p == EmitAll(ts + us) + rest && |ts + us| + left == count && AllSlotTags(ts + us);
  }

  /** A decoder that consumes tags, at least one when it succeeds, does so slot
      after slot. */
  lemma {:induction false} EachConsumes(decode: SlotDecoder, p: seq<byte>, count: nat, slots: seq<Slot>, i: nat)
    requires i <= |slots|
    requires forall q, c, s :: Consumed(q, c, decode(q, c, s).rest, decode(q, c, s).count)
    requires forall q, c, s | decode(q, c, s).rc == Success :: decode(q, c, s).count < c
    ensures var e := DecodeEach(decode, p, count, slots, i);
      Consumed(p, count, e.rest, e.count) && (e.rc == Success ==> e.count + |slots| - i <= count)
    decreases |slots| - i
  {
    if i == |slots| {
      var none: seq<Tlv> := [];
      assert p == EmitAll(none) + p && |none| + count == count && AllSlotTags(none);
    } else {
      var d := decode(p, count, slots[i]);
      if d.rc == Success {
        EachConsumes(decode, d.rest, d.count, slots[i := d.value], i + 1);
        var e := DecodeEach(decode, d.rest, d.count, slots[i := d.value], i + 1);
        ConsumedBoth(p, count, d.rest, d.count, e.rest, e.count);
      }
    }
  }

  /** On arbitrary bytes: the slots decoded, and the tags of a slot that could
      not be, account for all that is gone, and n slots need n tags. */
  lemma SlotsConsumeTags(p: seq<byte>, count: nat, slots: seq<Slot>)
    ensures var e := DecodeEach(DecodeSlot, p, count, slots, 0);
      Consumed(p, count, e.rest, e.count) && (e.rc == Success ==> e.count + |slots| <= count)
  {
    forall q, c: nat, s ensures Consumed(q, c, DecodeSlot(q, c, s).rest, DecodeSlot(q, c, s).count)
      && (DecodeSlot(q, c, s).rc == Success ==> DecodeSlot(q, c, s).count < c)
    {
      OneSlotConsumes(q, c);
    }
    EachConsumes(DecodeSlot, p, count, slots, 0);
  }

  lemma OneSlotConsumes(p: seq<byte>, count: nat)
    ensures var r := ParseSlot(p, count);
      Consumed(p, count, r.rest, r.count) && (r.rc == Success ==> r.tags != [] && r.count < count)
  {
    SlotConsumesTags(p, count);
    var r := ParseSlot(p, count);
    if r.tags != [] { assert r.tags == [r.tags[0]] + r.tags[1..]; }
    assert AllSlotTags(r.tags);
    assert p == EmitAll(r.tags) + r.rest && |r.tags| + r.count == count;
  }

  type SlotParser = (seq<byte>, nat) -> Parsed

  /** The tags of n slots */
  function SlotGroups(parse: SlotParser, p: seq<byte>, count: nat, n: nat): (gs: seq<seq<Tlv>>)
    ensures |gs| == n
    decreases n
  {
    if n == 0 then []
    else
      var r := parse(p, count);
      [r.tags] + SlotGroups(parse, r.rest, r.count, n - 1)
  }

  function EmitGroups(gs: seq<seq<Tlv>>): seq<byte> {
    if gs == [] then [] else EmitAll(gs[0]) + EmitGroups(gs[1..])
  }

  predicate IsSlotGroup(g: seq<Tlv>) {
    g != [] && IsSlotId(g[0]) && forall t <- g[1..] :: WfSlot(t)
  }

  /** A group at the front of others */
  lemma GroupInFront(p: seq<byte>, g: seq<Tlv>, q: seq<byte>, gs: seq<seq<Tlv>>, rest: seq<byte>)
    requires p == EmitAll(g) + q && q == EmitGroups(gs) + rest
    ensures p == EmitGroups([g] + gs) + rest
  {
    assert ([g] + gs)[1..] == gs;
    Associative(EmitAll(g), EmitGroups(gs), rest);
  }

  /** From number i on, each value is what its group makes of the structure */
  ghost predicate MadeOf(slots: seq<Slot>, i: nat, values: seq<Slot>, gs: seq<seq<Tlv>>) {
    && |values| == |slots| == i + |gs| && values[..i] == slots[..i]
    && forall k | 0 <= k < |gs| :: values[i + k] == Fold(ApplySlot, slots[i + k], gs[k])
  }

  /** The bytes p are those groups and the rest, and the values from i on are made
      of them */
  ghost predicate Accounted(p: seq<byte>, slots: seq<Slot>, i: nat, values: seq<Slot>, gs: seq<seq<Tlv>>,
                            rest: seq<byte>)
  {
    p == EmitGroups(gs) + rest && (forall g <- gs :: IsSlotGroup(g)) && MadeOf(slots, i, values, gs)
  }

  lemma OneMoreGroup(p: seq<byte>, g: seq<Tlv>, q: seq<byte>, slots: seq<Slot>, i: nat, values: seq<Slot>,
                     gs: seq<seq<Tlv>>, rest: seq<byte>)
    requires i < |slots| && p == EmitAll(g) + q && IsSlotGroup(g)
    requires Accounted(q, slots[i := Fold(ApplySlot, slots[i], g)], i + 1, values, gs, rest)
    ensures Accounted(p, slots, i, values, [g] + gs, rest)
  {
    GroupInFront(p, g, q, gs, rest);
    assert values[..i] == values[..i + 1][..i];
    assert values[i] == values[..i + 1][i];
  }

  lemma {:induction false} EachIsItsTags(parse: SlotParser, decode: SlotDecoder, p: seq<byte>, count: nat,
                                         slots: seq<Slot>, i: nat)
    requires forall q, c, s :: decode(q, c, s)
               == Decoded(parse(q, c).rc, Fold(ApplySlot, s, parse(q, c).tags), parse(q, c).rest, parse(q, c).count)
    requires forall q, c | parse(q, c).rc == Success ::
               q == EmitAll(parse(q, c).tags) + parse(q, c).rest && IsSlotGroup(parse(q, c).tags)
    requires i <= |slots| && DecodeEach(decode, p, count, slots, i).rc == Success
    ensures var e, gs := DecodeEach(decode, p, count, slots, i), SlotGroups(parse, p, count, |slots| - i);
      Accounted(p, slots, i, e.value, gs, e.rest)
    decreases |slots| - i
  {
    if i < |slots| {
      var r, v := parse(p, count), decode(p, count, slots[i]).value;
      EachIsItsTags(parse, decode, r.rest, r.count, slots[i := v], i + 1);
      var e := DecodeEach(decode, r.rest, r.count, slots[i := v], i + 1);
      var gs := SlotGroups(parse, r.rest, r.count, |slots| - i - 1);
      OneMoreGroup(p, r.tags, r.rest, slots, i, e.value, gs, e.rest);
    }
  }

  /** Whatever is decoded with success was such a message: the bytes are groups of
      tags, each a slot ID and slot tags, and each slot is what its group makes of
      the structure it is decoded into. */
  lemma DecodedSlotsAreTheirTags(p: seq<byte>, count: nat, slots: seq<Slot>)
    requires DecodeEach(DecodeSlot, p, count, slots, 0).rc == Success
    ensures var e, gs := DecodeEach(DecodeSlot, p, count, slots, 0), SlotGroups(ParseSlot, p, count, |slots|);
      Accounted(p, slots, 0, e.value, gs, e.rest)
  {
    forall q, c: nat | ParseSlot(q, c).rc == Success
      ensures q == EmitAll(ParseSlot(q, c).tags) + ParseSlot(q, c).rest && IsSlotGroup(ParseSlot(q, c).tags)
    {
      SlotConsumesTags(q, c);
    }
    EachIsItsTags(ParseSlot, DecodeSlot, p, count, slots, 0);
  }
}
