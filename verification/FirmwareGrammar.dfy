/** Exactly which payloads the eROT state decoder accepts, and what it makes of
  them (libnsm/firmware-utils.c).
 */
module FirmwareGrammar {
  import opened Bits
  import opened LittleEndian
  import opened Seqs
  import opened Nsm
  import opened FirmwareTlv
  import opened FirmwareOrder
  import opened FirmwareResponse

  // -------------------------------------------------------------- the grammar

  /** A header: well-formed tags up to the slot count, or up to the end */
  predicate IsHeader(ts: seq<Tlv>, rest: seq<byte>, left: nat) {
    && (forall t <- ts :: WfHdr(t))
    && (forall i | 0 <= i < |ts| - 1 :: !IsCount(ts[i]))
    && (Closed(IsCount, ts) || left == 0 || |rest| < 3)
  }

  /** A slot that ends there: its version strings have six bytes */
  predicate IsSlot(g: seq<Tlv>, rest: seq<byte>, left: nat) {
    IsSlotGroup(g) && AllFit(TextFits, g[1..], rest) && EndsSlot(rest, left)
  }

  function TagsOf(gs: seq<seq<Tlv>>): nat {
    if gs == [] then 0 else |gs[0]| + TagsOf(gs[1..])
  }

  /** Slots one after the other.  Only for the last is there something to ask, as
      each other is followed by a slot ID. */
  predicate AreSlots(gs: seq<seq<Tlv>>, rest: seq<byte>, left: nat) {
    && (forall g <- gs :: IsSlotGroup(g))
    && (gs != [] ==> IsSlot(gs[|gs| - 1], rest, left))
  }

  // ---------------------------------------------------------------- the header

  lemma HdrParsedIff(p: seq<byte>, count: nat, ts: seq<Tlv>, rest: seq<byte>, left: nat)
    ensures ParseHdr(p, count) == Parsed(Success, ts, rest, left) <==>
      p == EmitAll(ts) + rest && |ts| + left == count && IsHeader(ts, rest, left)
  {
    if p == EmitAll(ts) + rest && |ts| + left == count && IsHeader(ts, rest, left) {
      HdrParses(p, count, ts, rest);
    } else {
      HdrConsumesTags(p, count);
      HdrResultIff(p, count);
    }
  }

  lemma HdrParses(p: seq<byte>, count: nat, ts: seq<Tlv>, rest: seq<byte>)
    requires p == EmitAll(ts) + rest && |ts| <= count && IsHeader(ts, rest, count - |ts|)
    ensures ParseHdr(p, count) == Parsed(Success, ts, rest, count - |ts|)
  {
    if Closed(IsCount, ts) {
      BeforeTheCount(ts, rest, count - |ts|);
      ClosedParses(p, count, ts, ts[..|ts| - 1], ts[|ts| - 1], rest);
    } else {
      OpenParses(p, count, ts, rest);
    }
  }

  lemma BeforeTheCount(ts: seq<Tlv>, rest: seq<byte>, left: nat)
    requires IsHeader(ts, rest, left) && Closed(IsCount, ts)
    ensures forall t <- ts[..|ts| - 1] :: WfHdr(t) && !IsCount(t)
    ensures ts == ts[..|ts| - 1] + [ts[|ts| - 1]] && WfHdr(ts[|ts| - 1])
  {
    forall t | t in ts[..|ts| - 1] ensures WfHdr(t) && !IsCount(t) {
      var i :| 0 <= i < |ts| - 1 && ts[i] == t;
      assert ts[i] in ts;
    }
  }

  lemma ClosedParses(p: seq<byte>, count: nat, ts: seq<Tlv>, us: seq<Tlv>, sc: Tlv, rest: seq<byte>)
    requires (forall t <- us :: WfHdr(t) && !IsCount(t)) && WfHdr(sc) && IsCount(sc)
    requires ts == us + [sc] && p == EmitAll(ts) + rest && count >= |ts|
    ensures ParseHdr(p, count) == Parsed(Success, ts, rest, count - |ts|)
  {
    EmitOneMore(us, sc);
    Associative(EmitAll(us), Emit(sc), rest);
    HdrAccepts(us, sc, rest, count);
  }

  lemma OpenParses(p: seq<byte>, count: nat, ts: seq<Tlv>, rest: seq<byte>)
    requires (forall t <- ts :: WfHdr(t) && !IsCount(t)) && count >= |ts| && (count == |ts| || |rest| < 3)
    requires p == EmitAll(ts) + rest
    ensures ParseHdr(p, count) == Parsed(Success, ts, rest, count - |ts|)
  {
    forall t, more | t in ts ensures HdrMove(Emit(t) + more) == Read(t, more, false) { HdrMoveOnTag(t, more); }
    AlwaysFit(ts, rest);
    LoopReads(HdrMove, Always, ts, rest, count);
    assert ts + [] == ts;
  }

  // ----------------------------------------------------------------- the slots

  lemma SlotParsedIff(p: seq<byte>, count: nat, g: seq<Tlv>, rest: seq<byte>, left: nat)
    ensures ParseSlot(p, count) == Parsed(Success, g, rest, left) <==>
      p == EmitAll(g) + rest && |g| + left == count && IsSlot(g, rest, left)
  {
    if p == EmitAll(g) + rest && |g| + left == count && IsSlotGroup(g) && EndsSlot(rest, left) {
      assert g == [g[0]] + g[1..];
      EmitAllFront(g, rest);
      SlotAccepts(p, g[0], g[1..], rest, count);
    }
    SlotConsumesTags(p, count);
    SlotResultIff(p, count);
  }

  /** What is in front of another slot ID fits */
  lemma {:induction false} FitsBefore(ts: seq<Tlv>, rest: seq<byte>)
    requires (forall t <- ts :: WfSlot(t)) && |rest| >= 3
    ensures AllFit(TextFits, ts, rest)
    decreases |ts|
  {
    if ts != [] {
      assert WfSlot(ts[0]) && |ts[0].data| >= 1;
      FitsBefore(ts[1..], rest);
    }
  }

  lemma StartsWithId(g: seq<Tlv>, more: seq<byte>)
    requires IsSlotGroup(g)
    ensures |EmitAll(g) + more| >= 3 && (EmitAll(g) + more)[0] == FIRMWARE_SLOT_ID
  {
    EmitAllFront(g, more);
  }

  /** The first of some slots, and the others */
  lemma FirstOfSlots(g: seq<Tlv>, gs: seq<seq<Tlv>>, rest: seq<byte>, left: nat)
    requires forall h <- gs :: IsSlotGroup(h)
    ensures AreSlots([g] + gs, rest, left) <==>
      IsSlot(g, EmitGroups(gs) + rest, TagsOf(gs) + left) && AreSlots(gs, rest, left)
  {
    if gs == [] {
      assert EmitGroups(gs) + rest == rest && [g] + gs == [g];
    } else {
      Associative(EmitAll(gs[0]), EmitGroups(gs[1..]), rest);
      StartsWithId(gs[0], EmitGroups(gs[1..]) + rest);
      if IsSlotGroup(g) { FitsBefore(g[1..], EmitGroups(gs) + rest); }
      assert ([g] + gs)[|gs|] == gs[|gs| - 1];
    }
  }

  lemma OneMoreSlot(g: seq<Tlv>, gs: seq<seq<Tlv>>, rest: seq<byte>)
    ensures EmitGroups([g] + gs) + rest == EmitAll(g) + (EmitGroups(gs) + rest)
    ensures TagsOf([g] + gs) == |g| + TagsOf(gs)
  {
    assert ([g] + gs)[1..] == gs;
    Associative(EmitAll(g), EmitGroups(gs), rest);
  }

  /** A parser reads a slot exactly if that is at the front, */
  ghost predicate ReadsSlot(parse: SlotParser, p: seq<byte>, count: nat, g: seq<Tlv>, rest: seq<byte>, left: nat) {
    parse(p, count) == Parsed(Success, g, rest, left) <==>
      p == EmitAll(g) + rest && |g| + left == count && IsSlot(g, rest, left)
  }

  /** and a decoder makes of a structure what the tags say. */
  ghost predicate FollowsTags(parse: SlotParser, decode: SlotDecoder, p: seq<byte>, count: nat, s: Slot) {
    var r := parse(p, count);
    decode(p, count, s) == Decoded(r.rc, Fold(ApplySlot, s, r.tags), r.rest, r.count)
  }

  ghost predicate ReadsSlots(parse: SlotParser, decode: SlotDecoder) {
    && (forall p, count, g, rest, left: nat :: ReadsSlot(parse, p, count, g, rest, left))
    && (forall p, count, s :: FollowsTags(parse, decode, p, count, s))
  }

  /** These are the slots at the front, and then comes the rest */
  predicate InFront(p: seq<byte>, count: nat, gs: seq<seq<Tlv>>, rest: seq<byte>, left: nat) {
    p == EmitGroups(gs) + rest && count == TagsOf(gs) + left && AreSlots(gs, rest, left)
  }

  lemma FirstInFront(p: seq<byte>, count: nat, g: seq<Tlv>, us: seq<seq<Tlv>>, rest: seq<byte>, left: nat)
    requires InFront(p, count, [g] + us, rest, left)
    ensures var q, c := EmitGroups(us) + rest, TagsOf(us) + left;
      p == EmitAll(g) + q && count == |g| + c && IsSlot(g, q, c) && InFront(q, c, us, rest, left)
  {
    OneMoreSlot(g, us, rest);
    FirstOfSlots(g, us, rest, left);
  }

  lemma {:induction false} EachReads(parse: SlotParser, decode: SlotDecoder, p: seq<byte>, count: nat,
                                     slots: seq<Slot>, i: nat, gs: seq<seq<Tlv>>, rest: seq<byte>, left: nat)
    requires ReadsSlots(parse, decode) && i + |gs| == |slots| && InFront(p, count, gs, rest, left)
    ensures var e := DecodeEach(decode, p, count, slots, i);
      e.rc == Success && e.rest == rest && e.count == left
    ensures SlotGroups(parse, p, count, |gs|) == gs
    decreases |gs|
  {
    if gs == [] {
      assert EmitGroups(gs) + rest == rest;
    } else {
      var g, us := gs[0], gs[1..];
      var q, c := EmitGroups(us) + rest, TagsOf(us) + left;
      assert gs == [g] + us;
      FirstInFront(p, count, g, us, rest, left);
      assert ReadsSlot(parse, p, count, g, q, c) && FollowsTags(parse, decode, p, count, slots[i]);
      assert parse(p, count) == Parsed(Success, g, q, c);
      var v := Fold(ApplySlot, slots[i], g);
      EachReads(parse, decode, q, c, slots[i := v], i + 1, us, rest, left);
    }
  }

  lemma {:induction false} EachWasRead(parse: SlotParser, decode: SlotDecoder, p: seq<byte>, count: nat,
                                       slots: seq<Slot>, i: nat)
    requires ReadsSlots(parse, decode) && i <= |slots| && DecodeEach(decode, p, count, slots, i).rc == Success
    ensures var e := DecodeEach(decode, p, count, slots, i);
      InFront(p, count, SlotGroups(parse, p, count, |slots| - i), e.rest, e.count)
    decreases |slots| - i
  {
    if i == |slots| {
      assert EmitGroups([]) + p == p;
    } else {
      var r, d := parse(p, count), decode(p, count, slots[i]);
      assert FollowsTags(parse, decode, p, count, slots[i]);
      assert ReadsSlot(parse, p, count, r.tags, r.rest, r.count);
      EachWasRead(parse, decode, r.rest, r.count, slots[i := d.value], i + 1);
      var e := DecodeEach(decode, r.rest, r.count, slots[i := d.value], i + 1);
      var us := SlotGroups(parse, r.rest, r.count, |slots| - i - 1);
      OneMoreSlot(r.tags, us, e.rest);
      FirstOfSlots(r.tags, us, e.rest, e.count);
    }
  }

  lemma ReadsSlotsOnly()
    ensures ReadsSlots(ParseSlot, DecodeSlot)
  {
    forall p, count, g, rest, left: nat ensures ReadsSlot(ParseSlot, p, count, g, rest, left) {
      SlotParsedIff(p, count, g, rest, left);
    }
  }

  // --------------------------------------------------------------- the message

  /** The payload of a message: a header, as many slots as it says, and the rest.
      `h` is the header as the caller passes it in. */
  ghost predicate IsPayload(p: seq<byte>, count: nat, h: Hdr, ts: seq<Tlv>, gs: seq<seq<Tlv>>, rest: seq<byte>,
                            left: nat)
  {
    && p == EmitAll(ts) + (EmitGroups(gs) + rest) && count == |ts| + TagsOf(gs) + left
    && IsHeader(ts, EmitGroups(gs) + rest, TagsOf(gs) + left)
    && AreSlots(gs, rest, left) && |gs| == Fold(ApplyHdr, h, ts).firmwareSlotCount
  }

  /** The decoder succeeds on these payloads, */
  lemma PayloadAccepted(p: seq<byte>, count: nat, reason: nat, info: Info, ts: seq<Tlv>, gs: seq<seq<Tlv>>,
                        rest: seq<byte>, left: nat)
    requires IsPayload(p, count, info.hdr, ts, gs, rest, left)
    ensures var r := DecodeTags(DecodeHdr, DecodeSlot, p, count, reason, info);
      r.rc == Success && r.info.hdr == Fold(ApplyHdr, info.hdr, ts) && r.info.slots == MadeFrom(gs)
  {
    var q, c, n := EmitGroups(gs) + rest, TagsOf(gs) + left, |gs|;
    HdrParsedIff(p, count, ts, q, c);
    ReadsSlotsOnly();
    var zeros := seq(n, _ => ZeroSlot());
    EachReads(ParseSlot, DecodeSlot, q, c, zeros, 0, gs, rest, left);
    DecodedSlotsAreTheirTags(q, c, zeros);
  }

  /** Each slot is what its tags make of zeros */
  function MadeFrom(gs: seq<seq<Tlv>>): seq<Slot> {
    seq(|gs|, i requires 0 <= i < |gs| => Fold(ApplySlot, ZeroSlot(), gs[i]))
  }

  /** and on no others. */
  lemma AcceptedIsPayload(p: seq<byte>, count: nat, reason: nat, info: Info)
    returns (ts: seq<Tlv>, gs: seq<seq<Tlv>>, rest: seq<byte>, left: nat)
    requires DecodeTags(DecodeHdr, DecodeSlot, p, count, reason, info).rc == Success
    ensures IsPayload(p, count, info.hdr, ts, gs, rest, left)
  {
    var r := ParseHdr(p, count);
    ts := r.tags;
    HdrParsedIff(p, count, ts, r.rest, r.count);
    ReadsSlotsOnly();
    var n := Fold(ApplyHdr, info.hdr, ts).firmwareSlotCount;
    var zeros := seq(n, _ => ZeroSlot());
    EachWasRead(ParseSlot, DecodeSlot, r.rest, r.count, zeros, 0);
    gs := SlotGroups(ParseSlot, r.rest, r.count, n);
    var e := DecodeEach(DecodeSlot, r.rest, r.count, zeros, 0);
    rest, left := e.rest, e.count;
  }

  ghost predicate Acceptable(p: seq<byte>, count: nat, h: Hdr) {
    exists ts, gs, rest, left :: IsPayload(p, count, h, ts, gs, rest, left)
  }

  lemma AcceptedIff(p: seq<byte>, count: nat, reason: nat, info: Info)
    ensures DecodeTags(DecodeHdr, DecodeSlot, p, count, reason, info).rc == Success <==> Acceptable(p, count, info.hdr)
  {
    if DecodeTags(DecodeHdr, DecodeSlot, p, count, reason, info).rc == Success {
      var ts, gs, rest, left := AcceptedIsPayload(p, count, reason, info);
    }
    forall ts, gs, rest, left | IsPayload(p, count, info.hdr, ts, gs, rest, left)
      ensures DecodeTags(DecodeHdr, DecodeSlot, p, count, reason, info).rc == Success
    {
      PayloadAccepted(p, count, reason, info, ts, gs, rest, left);
    }
  }

  // ------------------------------------------------------------ what is refused

  /** Some slots are decoded, one in part, and the others not at all */
  ghost predicate InPart(slots: seq<Slot>, i: nat, values: seq<Slot>, gs: seq<seq<Tlv>>, g: seq<Tlv>) {
    && i + |gs| < |slots| == |values|
    && (forall k | 0 <= k < |slots| && !(i <= k <= i + |gs|) :: values[k] == slots[k])
    && (forall k | 0 <= k < |gs| :: values[i + k] == Fold(ApplySlot, slots[i + k], gs[k]))
    && values[i + |gs|] == Fold(ApplySlot, slots[i + |gs|], g)
  }

  lemma {:induction false} EachRefused(parse: SlotParser, decode: SlotDecoder, p: seq<byte>, count: nat,
                                       slots: seq<Slot>, i: nat)
    returns (gs: seq<seq<Tlv>>, q: seq<byte>, c: nat)
    requires ReadsSlots(parse, decode) && i <= |slots| && DecodeEach(decode, p, count, slots, i).rc != Success
    ensures InFront(p, count, gs, q, c) || (gs == [] && q == p && c == count)
    ensures var e, r := DecodeEach(decode, p, count, slots, i), parse(q, c);
      r.rc == e.rc && InPart(slots, i, e.value, gs, r.tags)
    decreases |slots| - i
  {
    var r, d := parse(p, count), decode(p, count, slots[i]);
    assert FollowsTags(parse, decode, p, count, slots[i]);
    if d.rc != Success {
      gs, q, c := [], p, count;
    } else {
      assert ReadsSlot(parse, p, count, r.tags, r.rest, r.count);
      var us;
      us, q, c := EachRefused(parse, decode, r.rest, r.count, slots[i := d.value], i + 1);
      gs := [r.tags] + us;
      assert us == [] ==> EmitGroups(us) + q == q;
      OneMoreSlot(r.tags, us, q);
      FirstOfSlots(r.tags, us, q, c);
      OneMoreInPart(slots, i, r.tags, DecodeEach(decode, p, count, slots, i).value, us, parse(q, c).tags);
    }
  }

  lemma OneMoreInPart(slots: seq<Slot>, i: nat, h: seq<Tlv>, values: seq<Slot>, gs: seq<seq<Tlv>>, g: seq<Tlv>)
    requires i < |slots| && InPart(slots[i := Fold(ApplySlot, slots[i], h)], i + 1, values, gs, g)
    ensures InPart(slots, i, values, [h] + gs, g)
  {
  }

  /** A payload that is refused has a header that is, with its result, or a whole
      header, whole slots, fewer than it says, and then a slot that is refused, with
      its result.  HdrResultIff and SlotResultIff say when and why these are. */
  lemma RefusedWhere(p: seq<byte>, count: nat, reason: nat, info: Info)
    returns (gs: seq<seq<Tlv>>, q: seq<byte>, c: nat)
    requires DecodeTags(DecodeHdr, DecodeSlot, p, count, reason, info).rc != Success
    ensures var r, h := DecodeTags(DecodeHdr, DecodeSlot, p, count, reason, info), ParseHdr(p, count);
      if h.rc != Success then r.rc == h.rc && r.info == Info(Fold(ApplyHdr, info.hdr, h.tags), info.slots)
      else
        && h.rest == EmitGroups(gs) + q && h.count == TagsOf(gs) + c && AreSlots(gs, q, c)
        && r.rc == ParseSlot(q, c).rc && r.info.hdr == Fold(ApplyHdr, info.hdr, h.tags)
        && InPart(seq(r.info.hdr.firmwareSlotCount, _ => ZeroSlot()), 0, r.info.slots, gs, ParseSlot(q, c).tags)
  {
    var h := ParseHdr(p, count);
    gs, q, c := [], p, count;
    if h.rc == Success {
      ReadsSlotsOnly();
      var n := Fold(ApplyHdr, info.hdr, h.tags).firmwareSlotCount;
      gs, q, c := EachRefused(ParseSlot, DecodeSlot, h.rest, h.count, seq(n, _ => ZeroSlot()), 0);
      assert gs == [] ==> EmitGroups(gs) + q == q;
    }
  }

  /** The whole message: which are accepted, what is answered otherwise, and that
      nothing is decoded of one that is not a success message. */
  lemma MessageResultIff(mem: seq<byte>, msgLen: nat, reason: nat, info: Info)
    requires Readable(mem, msgLen)
    ensures var r, cc := DecodeResp(mem, msgLen, reason, info), mem[6];
      && r.cc == cc
      && (r.rc == Success <==>
            || cc == NSM_ACCEPTED
            || (cc != NSM_SUCCESS && msgLen == 9)
            || (cc == NSM_SUCCESS && msgLen >= 8
                && Acceptable(mem[TAGS_AT..TAGS_AT + PayloadSize(msgLen)], LeValue(mem[7..9]), info.hdr)))
      && (cc != NSM_SUCCESS || msgLen < 8 ==> r.rc in {Success, ErrorLength} && r.info == info)
      && r.reason == if cc !in {NSM_SUCCESS, NSM_ACCEPTED} && msgLen == 9 then LeValue(mem[7..9]) else reason
  {
    if mem[6] == NSM_SUCCESS && msgLen >= 8 {
      AcceptedIff(mem[TAGS_AT..TAGS_AT + PayloadSize(msgLen)], LeValue(mem[7..9]), reason, info);
    }
  }

  // -------------------------------------------------------- what is decoded

  /** A valid tag of that kind with more than i bytes of data */
  predicate Sets(t: Tlv, tag: nat, i: nat) {
    t.tag == tag && t.flags % 2 == 1 && i < |t.data|
  }

  /** The last of them, or -1 */
  function LastSetting(ts: seq<Tlv>, tag: nat, i: nat): (n: int)
    ensures -1 <= n < |ts| && (n >= 0 ==> Sets(ts[n], tag, i)) && forall k | n < k < |ts| :: !Sets(ts[k], tag, i)
  {
    if ts == [] then -1
    else if Sets(ts[|ts| - 1], tag, i) then |ts| - 1
    else LastSetting(ts[..|ts| - 1], tag, i)
  }

  /** What a field holds that `was` before: the last valid value there is */
  function LastValue(ts: seq<Tlv>, tag: nat, was: nat): nat {
    var n := LastSetting(ts, tag, 0);
    if n < 0 then was else LeValue(ts[n].data)
  }

  function LatestHdr(h: Hdr, ts: seq<Tlv>): Hdr {
    Hdr(
      LastValue(ts, BACKGROUND_COPY_POLICY, h.backgroundCopyPolicy),
      LastValue(ts, ACTIVE_FIRMWARE_SLOT, h.activeSlot),
      LastValue(ts, ACTIVE_KEY_SET, h.activeKeyset),
      LastValue(ts, MINIMUM_SECURITY_VERSION_NUMBER, h.minimumSecurityVersion),
      LastValue(ts, INBAND_UPDATE_POLICY, h.inbandUpdatePolicy),
      LastValue(ts, FIRMWARE_SLOT_COUNT, h.firmwareSlotCount),
      LastValue(ts, BOOT_STATUS_CODE, h.bootStatusCode))
  }

  function LatestSlot(s: Slot, version: VersionString, ts: seq<Tlv>): Slot {
    Slot(
      LastValue(ts, FIRMWARE_SLOT_ID, s.slotId),
      version,
      LastValue(ts, VERSION_COMPARISON_STAMP, s.versionComparisonStamp),
      LastValue(ts, BUILD_TYPE, s.buildType),
      LastValue(ts, SIGNING_TYPE, s.signingType),
      LastValue(ts, WRITE_PROTECT_STATE, s.writeProtectState),
      LastValue(ts, FIRMWARE_STATE, s.firmwareState),
      LastValue(ts, SECURITY_VERSION_NUMBER, s.securityVersionNumber),
      LastValue(ts, SIGNING_KEY_INDEX, s.signingKeyIndex))
  }

  /** What a tag does to a field */
  function Put(t: Tlv, tag: nat, was: nat): nat {
    if Sets(t, tag, 0) then LeValue(t.data) else was
  }

  lemma LastStep(us: seq<Tlv>, t: Tlv, tag: nat, was: nat)
    ensures LastValue(us + [t], tag, was) == Put(t, tag, LastValue(us, tag, was))
  {
    LastSettingStep(us, t, tag, 0);
  }

  lemma HdrStep(h: Hdr, us: seq<Tlv>, t: Tlv)
    requires WfHdr(t)
    ensures LatestHdr(h, us + [t]) == ApplyHdr(LatestHdr(h, us), t)
  {
    forall tag: nat, was: nat ensures LastValue(us + [t], tag, was) == Put(t, tag, LastValue(us, tag, was)) {
      LastStep(us, t, tag, was);
    }
  }

  lemma SlotTagSets(s: Slot, t: Tlv)
    requires IsSlotId(t) || WfSlot(t)
    ensures ApplySlot(s, t) == Slot(
      Put(t, FIRMWARE_SLOT_ID, s.slotId),
      ApplySlot(s, t).version,
      Put(t, VERSION_COMPARISON_STAMP, s.versionComparisonStamp),
      Put(t, BUILD_TYPE, s.buildType),
      Put(t, SIGNING_TYPE, s.signingType),
      Put(t, WRITE_PROTECT_STATE, s.writeProtectState),
      Put(t, FIRMWARE_STATE, s.firmwareState),
      Put(t, SECURITY_VERSION_NUMBER, s.securityVersionNumber),
      Put(t, SIGNING_KEY_INDEX, s.signingKeyIndex))
  {
  }

  lemma SlotStep(s: Slot, version: VersionString, us: seq<Tlv>, t: Tlv)
    requires IsSlotId(t) || WfSlot(t)
    ensures LatestSlot(s, ApplySlot(LatestSlot(s, version, us), t).version, us + [t])
         == ApplySlot(LatestSlot(s, version, us), t)
  {
    forall tag: nat, was: nat ensures LastValue(us + [t], tag, was) == Put(t, tag, LastValue(us, tag, was)) {
      LastStep(us, t, tag, was);
    }
    SlotTagSets(LatestSlot(s, version, us), t);
  }

  /** Each header field is the value in the last valid tag of its kind, or what the
      caller's structure held. */
  lemma {:induction false} HdrFieldsMean(h: Hdr, ts: seq<Tlv>)
    requires forall t <- ts :: WfHdr(t)
    ensures Fold(ApplyHdr, h, ts) == LatestHdr(h, ts)
  {
    if ts != [] {
      var us, t := ts[..|ts| - 1], ts[|ts| - 1];
      assert ts == us + [t] && WfHdr(t);
      HdrFieldsMean(h, us);
      FoldAppend(ApplyHdr, h, us, t);
      HdrStep(h, us, t);
    }
  }

  /** So is each field of a slot, */
  lemma {:induction false} SlotFieldsMean(s: Slot, ts: seq<Tlv>)
    requires forall t <- ts :: IsSlotId(t) || WfSlot(t)
    ensures Fold(ApplySlot, s, ts) == LatestSlot(s, Fold(ApplySlot, s, ts).version, ts)
  {
    if ts != [] {
      var us, t := ts[..|ts| - 1], ts[|ts| - 1];
      assert ts == us + [t] && (IsSlotId(t) || WfSlot(t));
      SlotFieldsMean(s, us);
      FoldAppend(ApplySlot, s, us, t);
      SlotStep(s, Fold(ApplySlot, s, us).version, us, t);
    }
  }

  lemma VersionStep(s: Slot, t: Tlv, i: nat)
    requires (IsSlotId(t) || WfSlot(t)) && i < VERSION_STRING_MAX
    ensures ApplySlot(s, t).version[i] == if Sets(t, FIRMWARE_VERSION_STRING, i) then t.data[i] else s.version[i]
  {
    if t.tag == FIRMWARE_VERSION_STRING { TextIsShort(t); }
  }

  lemma LastSettingStep(us: seq<Tlv>, t: Tlv, tag: nat, i: nat)
    ensures LastSetting(us + [t], tag, i) == if Sets(t, tag, i) then |us| else LastSetting(us, tag, i)
  {
    assert (us + [t])[..|us|] == us;
  }

  /** and each byte of the version string is that of the last valid one that is
      so long. */
  lemma {:induction false} VersionMeans(s: Slot, ts: seq<Tlv>, i: nat)
    requires (forall t <- ts :: IsSlotId(t) || WfSlot(t)) && i < VERSION_STRING_MAX
    ensures var n := LastSetting(ts, FIRMWARE_VERSION_STRING, i);
      Fold(ApplySlot, s, ts).version[i] == if n < 0 then s.version[i] else ts[n].data[i]
  {
    if ts != [] {
      var us, t := ts[..|ts| - 1], ts[|ts| - 1];
      assert ts == us + [t] && (IsSlotId(t) || WfSlot(t));
      VersionMeans(s, us, i);
      FoldAppend(ApplySlot, s, us, t);
      VersionStep(Fold(ApplySlot, s, us), t, i);
      LastSettingStep(us, t, FIRMWARE_VERSION_STRING, i);
    }
  }

  lemma TextIsShort(t: Tlv)
    requires t.tag == FIRMWARE_VERSION_STRING && WfSlot(t)
    ensures |t.data| <= 128
  {
    Pow2Monotone(t.flags / 2 % 8, 7);
    assert Pow2(7) == 128;
  }
}
