/** The eROT state response: its tags, and what the decoder makes of them
  (libnsm/firmware-utils.c).

  The decoder's cursor is the payload that is left, which the code keeps as
  `*ptr` and `*payload_size`.
 */
module FirmwareTlv {
  import opened Bits
  import opened LittleEndian
  import opened Seqs
  import opened Nsm

  /** nsm_firmware_state_information_fields */
  const BACKGROUND_COPY_POLICY := 1
  const ACTIVE_FIRMWARE_SLOT := 2
  const ACTIVE_KEY_SET := 3
  const WRITE_PROTECT_STATE := 4
  const FIRMWARE_SLOT_COUNT := 5
  const FIRMWARE_SLOT_ID := 6
  const FIRMWARE_VERSION_STRING := 7
  const VERSION_COMPARISON_STAMP := 8
  const BUILD_TYPE := 9
  const SIGNING_TYPE := 10
  const FIRMWARE_STATE := 11
  const SECURITY_VERSION_NUMBER := 12
  const MINIMUM_SECURITY_VERSION_NUMBER := 13
  const SIGNING_KEY_INDEX := 14
  const INBAND_UPDATE_POLICY := 15
  const BOOT_STATUS_CODE := 16

  const VERSION_STRING_MAX := 256

  /** nsm_firmware_erot_state_info_hdr_resp */
  datatype Hdr = Hdr(
    backgroundCopyPolicy: nat,
    activeSlot: nat,
    activeKeyset: nat,
    minimumSecurityVersion: nat,
    inbandUpdatePolicy: nat,
    firmwareSlotCount: nat,
    bootStatusCode: nat)

  type VersionString = s: seq<byte> | |s| == VERSION_STRING_MAX witness seq(VERSION_STRING_MAX, _ => 0)

  /** nsm_firmware_slot_info */
  datatype Slot = Slot(
    slotId: nat,
    version: VersionString,
    versionComparisonStamp: nat,
    buildType: nat,
    signingType: nat,
    writeProtectState: nat,
    firmwareState: nat,
    securityVersionNumber: nat,
    signingKeyIndex: nat)

  function Zeros(n: nat): (s: seq<byte>)
    ensures |s| == n && forall i | 0 <= i < n :: s[i] == 0
  {
    seq(n, _ => 0)
  }

  function ZeroSlot(): Slot {
    Slot(0, Zeros(VERSION_STRING_MAX), 0, 0, 0, 0, 0, 0, 0)
  }

  /** The fields fit the types of the structs */
  predicate HdrFits(h: Hdr) {
    && h.backgroundCopyPolicy < UINT8_END && h.activeSlot < UINT8_END && h.activeKeyset < UINT8_END
    && h.minimumSecurityVersion < UINT16_END && h.inbandUpdatePolicy < UINT8_END
    && h.firmwareSlotCount < UINT8_END && h.bootStatusCode < UINT64_END
  }

  predicate SlotFits(s: Slot) {
    && s.slotId < UINT8_END
    && s.versionComparisonStamp < UINT32_END && s.buildType < UINT8_END && s.signingType < UINT8_END
    && s.writeProtectState < UINT8_END && s.firmwareState < UINT8_END
    && s.securityVersionNumber < UINT16_END && s.signingKeyIndex < UINT16_END
  }

  // ------------------------------------------------------------------- tags

  /** nsm_firmware_aggregate_tag with its data.  The second byte packs, from the
      lowest bit, valid (1 bit), length (3 bits) and reserved (4 bits). */
  datatype Tlv = Tlv(tag: byte, flags: byte, data: seq<byte>) {
    predicate IsValid() { flags % 2 == 1 }
  }

  function Emit(t: Tlv): seq<byte>
  {
    [t.tag, t.flags] + t.data
  }

  function EmitAll(ts: seq<Tlv>): seq<byte>
  {
    if ts == [] then [] else Emit(ts[0]) + EmitAll(ts[1..])
  }

  /** The tag of w data bytes at the front of the payload */
  function FirstTlv(p: seq<byte>, w: nat): Tlv
    requires |p| >= 2 + w
  {
    Tlv(p[0], p[1], p[2..2 + w])
  }

  /** Data width of a header tag, 0 for a tag the header decoder refuses */
  function HdrWidth(tag: nat): nat {
    if tag == MINIMUM_SECURITY_VERSION_NUMBER then 2
    else if tag == BOOT_STATUS_CODE then 8
    else if tag == BACKGROUND_COPY_POLICY || tag == ACTIVE_FIRMWARE_SLOT || tag == ACTIVE_KEY_SET
         || tag == INBAND_UPDATE_POLICY || tag == FIRMWARE_SLOT_COUNT then 1
    else 0
  }

  function SetHdr(h: Hdr, tag: nat, v: nat): Hdr {
    if tag == BACKGROUND_COPY_POLICY then h.(backgroundCopyPolicy := v)
    else if tag == ACTIVE_FIRMWARE_SLOT then h.(activeSlot := v)
    else if tag == ACTIVE_KEY_SET then h.(activeKeyset := v)
    else if tag == MINIMUM_SECURITY_VERSION_NUMBER then h.(minimumSecurityVersion := v)
    else if tag == INBAND_UPDATE_POLICY then h.(inbandUpdatePolicy := v)
    else if tag == BOOT_STATUS_CODE then h.(bootStatusCode := v)
    else if tag == FIRMWARE_SLOT_COUNT then h.(firmwareSlotCount := v)
    else h
  }

  /** Data width of a fixed-width slot tag, 0 for any other tag */
  function SlotWidth(tag: nat): nat {
    if tag == VERSION_COMPARISON_STAMP then 4
    else if tag == SECURITY_VERSION_NUMBER || tag == SIGNING_KEY_INDEX then 2
    else if tag == BUILD_TYPE || tag == SIGNING_TYPE || tag == WRITE_PROTECT_STATE || tag == FIRMWARE_STATE then 1
    else 0
  }

  /** memcpy to the front of the version string; data is 128 bytes at most */
  function Overwrite(version: VersionString, data: seq<byte>): VersionString {
    if |data| <= |version| then data + version[|data|..] else version
  }

  function SetSlot(s: Slot, tag: nat, data: seq<byte>): Slot {
    if tag == FIRMWARE_SLOT_ID then s.(slotId := LeValue(data))
    else if tag == FIRMWARE_VERSION_STRING then
      s.(version := Overwrite(s.version, data))
    else if tag == VERSION_COMPARISON_STAMP then s.(versionComparisonStamp := LeValue(data))
    else if tag == BUILD_TYPE then s.(buildType := LeValue(data))
    else if tag == SIGNING_TYPE then s.(signingType := LeValue(data))
    else if tag == WRITE_PROTECT_STATE then s.(writeProtectState := LeValue(data))
    else if tag == FIRMWARE_STATE then s.(firmwareState := LeValue(data))
    else if tag == SECURITY_VERSION_NUMBER then s.(securityVersionNumber := LeValue(data))
    else if tag == SIGNING_KEY_INDEX then s.(signingKeyIndex := LeValue(data))
    else s
  }

  /** A tag without the valid bit leaves its field alone */
  function ApplyHdr(h: Hdr, t: Tlv): Hdr {
    if t.IsValid() then SetHdr(h, t.tag, LeValue(t.data)) else h
  }

  function ApplySlot(s: Slot, t: Tlv): Slot {
    if t.IsValid() then SetSlot(s, t.tag, t.data) else s
  }

  /** The effect of a list of tags, one after the other */
  function Fold<S>(apply: (S, Tlv) -> S, s: S, ts: seq<Tlv>): S
    decreases |ts|
  {
    if ts == [] then s else Fold(apply, apply(s, ts[0]), ts[1..])
  }

  // --------------------------------------------------------------- decoding

  /** One round of a decoder loop: it ends, or a tag is read, maybe the last */
  datatype Move = Stop(rc: Rc) | Read(t: Tlv, rest: seq<byte>, last: bool)

  /** One round of decode_nsm_query_firmware_header_information, whose last tag
      is the slot count */
  function HdrMove(p: seq<byte>): Move {
    if |p| < 3 then Stop(Success)
    else
      var w := HdrWidth(p[0]);
      if w == 0 then Stop(ErrorData)
      else if |p| < 2 + w then Stop(ErrorLength)
      else Read(FirstTlv(p, w), p[2 + w..], p[0] == FIRMWARE_SLOT_COUNT)
  }

  function TextWidth(flags: byte): nat {
    Pow2((flags / 2) % 8)
  }

  /** One round of decode_nsm_query_firmware_slot_information, which ends where
      the next slot begins.  The version string is as long as its length field
      says, and its decoder asks for six bytes in any case. */
  function SlotMove(p: seq<byte>): Move {
    if |p| < 3 || p[0] == FIRMWARE_SLOT_ID then Stop(Success)
    else
      var text := p[0] == FIRMWARE_VERSION_STRING;
      var w := if text then TextWidth(p[1]) else SlotWidth(p[0]);
      if w == 0 then Stop(ErrorData)
      else if |p| < 2 + w || (text && |p| < 6) then Stop(ErrorLength)
      else Read(FirstTlv(p, w), p[2 + w..], false)
  }

  /** The tags a decoder loop reads, and what is left when it ends: how it
      ended, the rest of the payload and of the tag count */
  datatype Parsed = Parsed(rc: Rc, tags: seq<Tlv>, rest: seq<byte>, count: nat)

  function Cons(t: Tlv, r: Parsed): Parsed {
    r.(tags := [t] + r.tags)
  }

  /** A decoder loop, driven by payload size and telemetry count */
  function Loop(move: seq<byte> -> Move, p: seq<byte>, count: nat): Parsed
    decreases count
  {
    if count == 0 then Parsed(Success, [], p, 0)
    else match move(p)
      case Stop(rc) => Parsed(rc, [], p, count)
      case Read(t, rest, last) =>
        if last then Parsed(Success, [t], rest, count - 1)
        else Cons(t, Loop(move, rest, count - 1))
  }

  function ParseHdr(p: seq<byte>, count: nat): Parsed {
    Loop(HdrMove, p, count)
  }

  /** A slot starts with its ID */
  function ParseSlot(p: seq<byte>, count: nat): Parsed {
    if |p| < 3 || count == 0 || p[0] != FIRMWARE_SLOT_ID then Parsed(ErrorData, [], p, count)
    else Cons(FirstTlv(p, 1), Loop(SlotMove, p[3..], count - 1))
  }

  /** Result, what was decoded, and what is left */
  datatype Decoded<T> = Decoded(rc: Rc, value: T, rest: seq<byte>, count: nat)

  /** decode_nsm_query_firmware_header_information */
  function DecodeHdr(p: seq<byte>, count: nat, h: Hdr): Decoded<Hdr> {
    var r := ParseHdr(p, count);
    Decoded(r.rc, Fold(ApplyHdr, h, r.tags), r.rest, r.count)
  }

  /** decode_nsm_query_firmware_slot_information */
  function DecodeSlot(p: seq<byte>, count: nat, s: Slot): Decoded<Slot> {
    var r := ParseSlot(p, count);
    Decoded(r.rc, Fold(ApplySlot, s, r.tags), r.rest, r.count)
  }

  /** The slots from number i on; the first failure ends the loop */
  function DecodeEach(decode: (seq<byte>, nat, Slot) -> Decoded<Slot>,
                      p: seq<byte>, count: nat, slots: seq<Slot>, i: nat): Decoded<seq<Slot>>
    requires i <= |slots|
    decreases |slots| - i
  {
    if i == |slots| then Decoded(Success, slots, p, count)
    else
      var d := decode(p, count, slots[i]);
      if d.rc != Success then Decoded(d.rc, slots[i := d.value], d.rest, d.count)
      else DecodeEach(decode, d.rest, d.count, slots[i := d.value], i + 1)
  }

  // ------------------------------------------- one tag, seen from both sides

  predicate WfHdr(t: Tlv) {
    |t.data| == HdrWidth(t.tag) > 0
  }

  /** A slot tag other than the slot ID */
  predicate WfSlot(t: Tlv) {
    if t.tag == FIRMWARE_VERSION_STRING then |t.data| == TextWidth(t.flags)
    else |t.data| == SlotWidth(t.tag) > 0
  }

  predicate IsSlotId(t: Tlv) {
    t.tag == FIRMWARE_SLOT_ID && |t.data| == 1
  }

  lemma FirstEmit(p: seq<byte>, w: nat)
    requires |p| >= 2 + w
    ensures Emit(FirstTlv(p, w)) + p[2 + w..] == p
  {
  }

  lemma EmitFirst(t: Tlv, rest: seq<byte>)
    ensures FirstTlv(Emit(t) + rest, |t.data|) == t
    ensures (Emit(t) + rest)[2 + |t.data|..] == rest
  {
    assert (Emit(t) + rest)[2..2 + |t.data|] == t.data;
  }

  /** What is read is well-formed and was at the front of the payload */
  lemma HdrMoveReads(p: seq<byte>)
    requires HdrMove(p).Read?
    ensures WfHdr(HdrMove(p).t) && p == Emit(HdrMove(p).t) + HdrMove(p).rest
  {
    FirstEmit(p, HdrWidth(p[0]));
  }

  lemma SlotMoveReads(p: seq<byte>)
    requires SlotMove(p).Read?
    ensures WfSlot(SlotMove(p).t) && p == Emit(SlotMove(p).t) + SlotMove(p).rest
  {
    FirstEmit(p, |SlotMove(p).t.data|);
  }

  /** and a well-formed tag at the front is read */
  lemma HdrMoveOnTag(t: Tlv, rest: seq<byte>)
    requires WfHdr(t)
    ensures HdrMove(Emit(t) + rest) == Read(t, rest, t.tag == FIRMWARE_SLOT_COUNT)
  {
    EmitFirst(t, rest);
  }

  /** The decoder of the version string asks for six bytes */
  predicate TextFits(t: Tlv, more: seq<byte>) {
    t.tag == FIRMWARE_VERSION_STRING ==> |Emit(t) + more| >= 6
  }

  lemma SlotMoveOnTag(t: Tlv, rest: seq<byte>)
    requires WfSlot(t)
    ensures SlotMove(Emit(t) + rest) == if TextFits(t, rest) then Read(t, rest, false) else Stop(ErrorLength)
  {
    EmitFirst(t, rest);
  }

  lemma EmitAllCons(t: Tlv, ts: seq<Tlv>)
    ensures EmitAll([t] + ts) == Emit(t) + EmitAll(ts)
  {
    assert ([t] + ts)[1..] == ts;
  }

  lemma EmitAllFront(ts: seq<Tlv>, rest: seq<byte>)
    requires ts != []
    ensures EmitAll(ts) + rest == Emit(ts[0]) + (EmitAll(ts[1..]) + rest)
  {
    Associative(Emit(ts[0]), EmitAll(ts[1..]), rest);
  }

  lemma {:induction false} EmitAllAppend(ts: seq<Tlv>, us: seq<Tlv>)
    ensures EmitAll(ts + us) == EmitAll(ts) + EmitAll(us)
  {
    if ts == [] {
      assert ts + us == us;
    } else {
      EmitAllAppend(ts[1..], us);
      assert (ts + us)[1..] == ts[1..] + us;
      Associative(Emit(ts[0]), EmitAll(ts[1..]), EmitAll(us));
    }
  }

  lemma EmitOneMore(ts: seq<Tlv>, t: Tlv)
    ensures EmitAll(ts + [t]) == EmitAll(ts) + Emit(t)
  {
    EmitAllAppend(ts, [t]);
    EmitAllCons(t, []);
  }

  // ------------------------------ the decoders accept what the tags describe

  /** Every tag of the list has what its decoder asks for in front of it */
  predicate AllFit(fits: (Tlv, seq<byte>) -> bool, ts: seq<Tlv>, rest: seq<byte>)
    decreases |ts|
  {
    ts == [] || (fits(ts[0], EmitAll(ts[1..]) + rest) && AllFit(fits, ts[1..], rest))
  }

  /** A loop that reads each of the tags, if it fits, reads them all */
  lemma {:induction false} LoopReads(move: seq<byte> -> Move, fits: (Tlv, seq<byte>) -> bool,
                                     ts: seq<Tlv>, rest: seq<byte>, count: nat)
    requires forall t, more | t in ts ::
               move(Emit(t) + more) == if fits(t, more) then Read(t, more, false) else Stop(ErrorLength)
    requires count >= |ts|
    ensures var r, after := Loop(move, EmitAll(ts) + rest, count), Loop(move, rest, count - |ts|);
      if AllFit(fits, ts, rest) then r == after.(tags := ts + after.tags) else r.rc == ErrorLength
    decreases |ts|
  {
    var after := Loop(move, rest, count - |ts|);
    if ts == [] {
      assert EmitAll(ts) + rest == rest;
      assert ts + after.tags == after.tags;
    } else {
      var t, us, more := ts[0], ts[1..], EmitAll(ts[1..]) + rest;
      EmitAllFront(ts, rest);
      assert move(Emit(t) + more) == if fits(t, more) then Read(t, more, false) else Stop(ErrorLength);
      LoopReads(move, fits, us, rest, count - 1);
      assert [t] + us == ts;
      Associative([t], us, after.tags);
    }
  }

  predicate Always(t: Tlv, more: seq<byte>) {
    true
  }

  lemma {:induction false} AlwaysFit(ts: seq<Tlv>, rest: seq<byte>)
    ensures AllFit(Always, ts, rest)
    decreases |ts|
  {
    if ts != [] { AlwaysFit(ts[1..], rest); }
  }

  /** Any header tags, in any order, up to the slot count, are read back */
  lemma HdrAccepts(ts: seq<Tlv>, sc: Tlv, rest: seq<byte>, count: nat)
    requires forall t <- ts :: WfHdr(t) && t.tag != FIRMWARE_SLOT_COUNT
    requires WfHdr(sc) && sc.tag == FIRMWARE_SLOT_COUNT && count > |ts|
    ensures ParseHdr(EmitAll(ts) + (Emit(sc) + rest), count) == Parsed(Success, ts + [sc], rest, count - |ts| - 1)
  {
    forall t, more | t in ts ensures HdrMove(Emit(t) + more) == Read(t, more, false) { HdrMoveOnTag(t, more); }
    AlwaysFit(ts, Emit(sc) + rest);
    LoopReads(HdrMove, Always, ts, Emit(sc) + rest, count);
    HdrMoveOnTag(sc, rest);
  }

  /** A slot ends when no tags or bytes are left, or a new slot starts */
  predicate EndsSlot(rest: seq<byte>, count: nat) {
    count == 0 || |rest| < 3 || rest[0] == FIRMWARE_SLOT_ID
  }

  lemma SlotTagsAccept(p: seq<byte>, ts: seq<Tlv>, rest: seq<byte>, count: nat)
    requires (forall t <- ts :: WfSlot(t)) && p == EmitAll(ts) + rest
    requires count >= |ts| && EndsSlot(rest, count - |ts|)
    ensures var r := Loop(SlotMove, p, count);
      if AllFit(TextFits, ts, rest) then r == Parsed(Success, ts, rest, count - |ts|)
      else r.rc == ErrorLength
  {
    forall t, more | t in ts
      ensures SlotMove(Emit(t) + more) == if TextFits(t, more) then Read(t, more, false) else Stop(ErrorLength)
    {
      SlotMoveOnTag(t, more);
    }
    LoopReads(SlotMove, TextFits, ts, rest, count);
    assert ts + [] == ts;
  }

  lemma SlotStart(p: seq<byte>, id: Tlv, more: seq<byte>, count: nat)
    requires IsSlotId(id) && count > 0 && p == Emit(id) + more
    ensures ParseSlot(p, count) == Cons(id, Loop(SlotMove, more, count - 1))
  {
    EmitFirst(id, more);
  }

  /** A slot ID and any slot tags, in any order, are read back or the slot is
      refused; they are read exactly when every version string has six bytes
      from its tag to the end of the payload. */
  lemma SlotAccepts(p: seq<byte>, id: Tlv, ts: seq<Tlv>, rest: seq<byte>, count: nat)
    requires IsSlotId(id) && (forall t <- ts :: WfSlot(t)) && p == Emit(id) + (EmitAll(ts) + rest)
    requires count > |ts| && EndsSlot(rest, count - |ts| - 1)
    ensures AllFit(TextFits, ts, rest) ==> ParseSlot(p, count) == Parsed(Success, [id] + ts, rest, count - |ts| - 1)
    ensures !AllFit(TextFits, ts, rest) ==> ParseSlot(p, count).rc == ErrorLength
  {
    var more := EmitAll(ts) + rest;
    SlotStart(p, id, more, count);
    SlotTagsAccept(more, ts, rest, count - 1);
  }

  // -------------------------------- whatever is decoded, it was such a message

  /** `r` accounts for every byte of `p` and every unit of `count` */
  predicate Accounts(p: seq<byte>, count: nat, r: Parsed) {
    p == EmitAll(r.tags) + r.rest && |r.tags| + r.count == count
  }

  lemma ConsAccounts(p: seq<byte>, t: Tlv, rest: seq<byte>, count: nat, r: Parsed)
    requires p == Emit(t) + rest && Accounts(rest, count, r)
    ensures Accounts(p, count + 1, Cons(t, r))
  {
    EmitAllCons(t, r.tags);
    Associative(Emit(t), EmitAll(r.tags), r.rest);
  }

  lemma NothingParsed(p: seq<byte>, count: nat, rc: Rc)
    ensures Accounts(p, count, Parsed(rc, [], p, count))
  {
    assert [] + p == p;
  }

  lemma {:induction false} LoopConsumes(move: seq<byte> -> Move, ok: Tlv -> bool, p: seq<byte>, count: nat)
    requires forall q | move(q).Read? :: ok(move(q).t) && q == Emit(move(q).t) + move(q).rest
    ensures Accounts(p, count, Loop(move, p, count))
    ensures forall t <- Loop(move, p, count).tags :: ok(t)
    decreases count
  {
    if count == 0 {
      NothingParsed(p, count, Success);
    } else {
      match move(p)
      case Stop(rc) =>
        NothingParsed(p, count, rc);
      case Read(t, rest, last) =>
        var r := Parsed(Success, [], rest, count - 1);
        if last {
          NothingParsed(rest, count - 1, Success);
          assert Loop(move, p, count) == Cons(t, r);
        } else {
          LoopConsumes(move, ok, rest, count - 1);
          r := Loop(move, rest, count - 1);
        }
        ConsAccounts(p, t, rest, count - 1, r);
    }
  }

  /** On arbitrary bytes, successful or not: what the header decoder consumed is
      a list of well-formed tags, as many as the count dropped by. */
  lemma HdrConsumesTags(p: seq<byte>, count: nat)
    ensures Accounts(p, count, ParseHdr(p, count))
    ensures forall t <- ParseHdr(p, count).tags :: WfHdr(t)
  {
    forall q | HdrMove(q).Read? ensures WfHdr(HdrMove(q).t) && q == Emit(HdrMove(q).t) + HdrMove(q).rest {
      HdrMoveReads(q);
    }
    LoopConsumes(HdrMove, WfHdr, p, count);
  }

  /** The same for a slot: its ID first, then slot tags */
  lemma SlotConsumesTags(p: seq<byte>, count: nat)
    ensures Accounts(p, count, ParseSlot(p, count))
    ensures var tags := ParseSlot(p, count).tags;
      if tags == [] then ParseSlot(p, count).rc == ErrorData
      else IsSlotId(tags[0]) && forall t <- tags[1..] :: WfSlot(t)
  {
    if |p| < 3 || count == 0 || p[0] != FIRMWARE_SLOT_ID {
      NothingParsed(p, count, ErrorData);
    } else {
      forall q | SlotMove(q).Read? ensures WfSlot(SlotMove(q).t) && q == Emit(SlotMove(q).t) + SlotMove(q).rest {
        SlotMoveReads(q);
      }
      var t, r := FirstTlv(p, 1), Loop(SlotMove, p[3..], count - 1);
      FirstEmit(p, 1);
      LoopConsumes(SlotMove, WfSlot, p[3..], count - 1);
      ConsAccounts(p, t, p[3..], count - 1, r);
      assert Cons(t, r).tags[1..] == r.tags;
    }
  }

  // ------------------------------------------------- exactly how a loop ends

  /** A last tag was read, as the last one */
  predicate Closed(isLast: Tlv -> bool, ts: seq<Tlv>) {
    ts != [] && isLast(ts[|ts| - 1])
  }

  lemma {:induction false} LoopEnds(move: seq<byte> -> Move, isLast: Tlv -> bool, p: seq<byte>, count: nat)
    requires forall q | move(q).Read? :: move(q).last == isLast(move(q).t)
    ensures var r := Loop(move, p, count);
      && (if Closed(isLast, r.tags) || r.count == 0 then r.rc == Success else move(r.rest) == Stop(r.rc))
      && forall i | 0 <= i < |r.tags| - 1 :: !isLast(r.tags[i])
    decreases count
  {
    if count > 0 && move(p).Read? && !move(p).last {
      LoopEnds(move, isLast, move(p).rest, count - 1);
      var ts := Loop(move, move(p).rest, count - 1).tags;
      assert forall i | 0 < i < |ts| + 1 :: ([move(p).t] + ts)[i] == ts[i - 1];
    }
  }

  predicate IsCount(t: Tlv) {
    t.tag == FIRMWARE_SLOT_COUNT
  }

  /** A whole tag of that kind is at the front */
  ghost predicate HasFront(wf: Tlv -> bool, fits: (Tlv, seq<byte>) -> bool, p: seq<byte>) {
    exists t, more :: wf(t) && fits(t, more) && p == Emit(t) + more
  }

  predicate KnownHdrTag(tag: nat) {
    tag in {BACKGROUND_COPY_POLICY, ACTIVE_FIRMWARE_SLOT, ACTIVE_KEY_SET, MINIMUM_SECURITY_VERSION_NUMBER,
            INBAND_UPDATE_POLICY, BOOT_STATUS_CODE, FIRMWARE_SLOT_COUNT}
  }

  predicate KnownSlotTag(tag: nat) {
    tag in {FIRMWARE_VERSION_STRING, VERSION_COMPARISON_STAMP, BUILD_TYPE, SIGNING_TYPE, WRITE_PROTECT_STATE,
            FIRMWARE_STATE, SECURITY_VERSION_NUMBER, SIGNING_KEY_INDEX}
  }

  lemma HdrFront(p: seq<byte>)
    requires |p| >= 3
    ensures HasFront(WfHdr, Always, p) <==> HdrMove(p).Read?
    ensures HdrMove(p) == Stop(ErrorData) <==> !KnownHdrTag(p[0])
    ensures HdrMove(p) != Stop(Success)
  {
    if HdrMove(p).Read? { HdrMoveReads(p); }
    forall t, more | WfHdr(t) && p == Emit(t) + more ensures HdrMove(p).Read? { HdrMoveOnTag(t, more); }
  }

  lemma SlotFront(p: seq<byte>)
    requires |p| >= 3 && p[0] != FIRMWARE_SLOT_ID
    ensures HasFront(WfSlot, TextFits, p) <==> SlotMove(p).Read?
    ensures SlotMove(p) == Stop(ErrorData) <==> !KnownSlotTag(p[0])
    ensures SlotMove(p) != Stop(Success)
  {
    if SlotMove(p).Read? {
      SlotMoveReads(p);
      var t, more := SlotMove(p).t, SlotMove(p).rest;
      assert WfSlot(t) && TextFits(t, more) && p == Emit(t) + more;
    }
    forall t, more | WfSlot(t) && TextFits(t, more) && p == Emit(t) + more ensures SlotMove(p).Read? {
      SlotMoveOnTag(t, more);
    }
  }

  /** On arbitrary bytes, how the header ends: with success exactly when the last tag
      read is the slot count, or there is no whole tag's worth of bytes or no count
      left; and else with the tag in front, unknown or not all there. */
  lemma HdrResultIff(p: seq<byte>, count: nat)
    ensures var r := ParseHdr(p, count);
      var over := Closed(IsCount, r.tags) || r.count == 0 || |r.rest| < 3;
      && (forall i | 0 <= i < |r.tags| - 1 :: r.tags[i].tag != FIRMWARE_SLOT_COUNT)
      && (r.rc == Success <==> over)
      && (r.rc == ErrorData <==> !over && !KnownHdrTag(r.rest[0]))
      && (r.rc == ErrorLength <==> !over && KnownHdrTag(r.rest[0]) && !HasFront(WfHdr, Always, r.rest))
  {
    LoopEnds(HdrMove, IsCount, p, count);
    var r := ParseHdr(p, count);
    if |r.rest| >= 3 { HdrFront(r.rest); }
  }

  /** And how a slot ends, once its ID is there: with success exactly when no tags or
      bytes are left or the next slot begins. */
  lemma SlotResultIff(p: seq<byte>, count: nat)
    ensures var r := ParseSlot(p, count);
      if |p| < 3 || count == 0 || p[0] != FIRMWARE_SLOT_ID then r == Parsed(ErrorData, [], p, count)
      else
        && (r.rc == Success <==> EndsSlot(r.rest, r.count))
        && (r.rc == ErrorData <==> !EndsSlot(r.rest, r.count) && !KnownSlotTag(r.rest[0]))
        && (r.rc == ErrorLength <==>
              !EndsSlot(r.rest, r.count) && KnownSlotTag(r.rest[0]) && !HasFront(WfSlot, TextFits, r.rest))
  {
    if |p| >= 3 && count > 0 && p[0] == FIRMWARE_SLOT_ID {
      var never := (t: Tlv) => false;
      LoopEnds(SlotMove, never, p[3..], count - 1);
      var r := ParseSlot(p, count);
      if |r.rest| >= 3 && r.rest[0] != FIRMWARE_SLOT_ID { SlotFront(r.rest); }
    }
  }
}
