/** The eROT state codec as it runs: a cursor over the received bytes, and one
  over the message being written (libnsm/firmware-utils.c).
 */
module FirmwareCodec {
  import opened Bits
  import opened LittleEndian
  import opened Seqs
  import opened Nsm
  import opened FirmwareTlv
  import opened FirmwareOrder
  import opened FirmwareResponse

  type uint16 = x: int | 0 <= x < UINT16_END

  // --------------------------------------------------------------- decoding

  /** What a decoder loop does to a structure */
  function Scan<S>(move: seq<byte> -> Move, apply: (S, Tlv) -> S, p: seq<byte>, count: nat, s: S): Decoded<S> {
    var r := Loop(move, p, count);
    Decoded(r.rc, Fold(apply, s, r.tags), r.rest, r.count)
  }

  /** One round, and the loop goes on with what is left */
  lemma ScanStep<S>(move: seq<byte> -> Move, apply: (S, Tlv) -> S, p: seq<byte>, count: nat, s: S)
    requires count > 0
    ensures move(p).Stop? ==> Scan(move, apply, p, count, s) == Decoded(move(p).rc, s, p, count)
    ensures move(p).Read? && move(p).last ==>
      Scan(move, apply, p, count, s) == Decoded(Success, apply(s, move(p).t), move(p).rest, count - 1)
    ensures move(p).Read? && !move(p).last ==>
      Scan(move, apply, p, count, s) == Scan(move, apply, move(p).rest, count - 1, apply(s, move(p).t))
  {
    if move(p).Read? {
      var t, r := move(p).t, Loop(move, move(p).rest, count - 1);
      assert [t][1..] == [];
      assert Fold(apply, s, [t]) == apply(s, t);
      assert ([t] + r.tags)[1..] == r.tags;
    }
  }

  /** Rounds of the header loop */
  lemma HdrStops(p: seq<byte>, count: nat, h: Hdr)
    requires count == 0 || |p| < 3 || HdrMove(p).Stop?
    ensures DecodeHdr(p, count, h) == Decoded(if count == 0 || |p| < 3 then Success else HdrMove(p).rc, h, p, count)
  {
  }

  lemma HdrGoesOn(p: seq<byte>, count: nat, h: Hdr, q: seq<byte>, h': Hdr)
    requires count > 0 && HdrMove(p).Read? && q == HdrMove(p).rest && h' == ApplyHdr(h, HdrMove(p).t)
    ensures DecodeHdr(p, count, h)
         == if HdrMove(p).last then Decoded(Success, h', q, count - 1) else DecodeHdr(q, count - 1, h')
  {
    ScanStep(HdrMove, ApplyHdr, p, count, h);
  }

  /** The slot loop, after the slot ID */
  function SlotRest(p: seq<byte>, count: nat, s: Slot): Decoded<Slot> {
    Scan(SlotMove, ApplySlot, p, count, s)
  }

  lemma SlotStarts(p: seq<byte>, count: nat, s: Slot, q: seq<byte>, s': Slot)
    requires |p| >= 3 && count > 0 && p[0] == FIRMWARE_SLOT_ID
    requires q == p[3..] && s' == ApplySlot(s, FirstTlv(p, 1))
    ensures DecodeSlot(p, count, s) == SlotRest(q, count - 1, s')
  {
    var t, r := FirstTlv(p, 1), Loop(SlotMove, p[3..], count - 1);
    assert ([t] + r.tags)[1..] == r.tags;
  }

  lemma SlotStops(p: seq<byte>, count: nat, s: Slot)
    requires count == 0 || |p| < 3 || SlotMove(p).Stop?
    ensures SlotRest(p, count, s) == Decoded(if count == 0 || |p| < 3 then Success else SlotMove(p).rc, s, p, count)
  {
  }

  lemma SlotGoesOn(p: seq<byte>, count: nat, s: Slot, q: seq<byte>, s': Slot)
    requires count > 0 && SlotMove(p).Read? && q == SlotMove(p).rest && s' == ApplySlot(s, SlotMove(p).t)
    ensures SlotRest(p, count, s) == SlotRest(q, count - 1, s')
  {
    ScanStep(SlotMove, ApplySlot, p, count, s);
  }

  /** `*ptr`, `*payload_size` and `*telemetry_count` */
  class TagReader {
    const buf: array<byte>
    var pos: nat
    var size: uint16
    var count: uint16

    ghost predicate Valid()
      reads this`pos, this`size
    {
      pos + size <= buf.Length
    }

    /** The payload that is left */
    function Left(): seq<byte>
      requires Valid()
      reads this`pos, this`size, buf
    {
      buf[pos..pos + size]
    }

    constructor (buf: array<byte>, pos: nat, size: uint16, count: uint16)
      requires pos + size <= buf.Length
      ensures Valid() && this.buf == buf && this.pos == pos && this.size == size && this.count == count
    {
      this.buf, this.pos, this.size, this.count := buf, pos, size, count;
    }

    /** decode_nsm_firmware_aggregate_tag_uint8, _uint16, _uint32 and _uint64:
        w data bytes, whatever the length field says */
    method DecodeFixed(w: nat, value: nat) returns (ok: bool, v: nat)
      requires Valid() && 0 < w <= 8
      modifies this`pos, this`size
      ensures Valid() && pos + size == old(pos + size)
      ensures ok <==> old(size) >= 2 + w
      ensures !ok ==> pos == old(pos) && v == value
      ensures ok ==> v == (if FirstTlv(old(Left()), w).IsValid() then LeValue(FirstTlv(old(Left()), w).data) else value)
      ensures ok ==> Left() == old(Left())[2 + w..]
    {
      v := value;
      if size < 2 + w { return false, v; }
      Within(buf[..], pos, size, 2, 2 + w);
      var valid := buf[pos + 1] % 2 == 1;
      if valid { v := LeValue(buf[..][pos + 2..pos + 2 + w]); }
      Advance(2 + w);
      ok := true;
    }

    /** decode_nsm_firmware_aggregate_tag_uint8_array: the length field counts */
    method DecodeText(version: VersionString) returns (ok: bool, v: VersionString)
      requires Valid()
      modifies this`pos, this`size
      ensures Valid() && pos + size == old(pos + size)
      ensures ok <==> old(size) >= 6 && old(size) >= 2 + TextWidth(old(Left())[1])
      ensures !ok ==> pos == old(pos) && v == version
      ensures ok ==> var t := FirstTlv(old(Left()), TextWidth(old(Left())[1]));
        v == if t.IsValid() then Overwrite(version, t.data) else version
      ensures ok ==> Left() == old(Left())[2 + TextWidth(old(Left())[1])..]
    {
      v := version;
      if size < 6 { return false, v; }
      var valid := buf[pos + 1] % 2 == 1;
      var length := TextWidth(buf[pos + 1]);
      if size < 2 + length { return false, v; }
      Within(buf[..], pos, size, 2, 2 + length);
      var data := buf[..][pos + 2..pos + 2 + length];
      assert FirstTlv(Left(), length) == Tlv(buf[pos], buf[pos + 1], data);
      if valid { v := Overwrite(version, data); }
      Advance(2 + length);
      ok := true;
    }

    method Advance(n: nat)
      requires Valid() && n <= size
      modifies this`pos, this`size
      ensures Valid() && pos == old(pos) + n && size == old(size) - n
      ensures Left() == old(Left())[n..]
    {
      Within(buf[..], pos, size, n, size);
      pos := pos + n;
      size := size - n;
    }

    /** One round of the header loop */
    method DecodeHeaderTag(hdr: Hdr) returns (rc: Rc, h: Hdr, last: bool)
      requires Valid() && size >= 3
      modifies this`pos, this`size
      ensures Valid() && pos + size == old(pos + size)
      ensures var m := HdrMove(old(Left()));
        if m.Stop? then rc == m.rc != Success && h == hdr && Left() == old(Left())
        else rc == Success && h == ApplyHdr(hdr, m.t) && Left() == m.rest && last == m.last
    {
      h, last := hdr, false;
      var tag := buf[pos];
      var ok, v;
      if tag == BACKGROUND_COPY_POLICY {
        ok, v := DecodeFixed(1, h.backgroundCopyPolicy);
        h := h.(backgroundCopyPolicy := v);
      } else if tag == ACTIVE_FIRMWARE_SLOT {
        ok, v := DecodeFixed(1, h.activeSlot);
        h := h.(activeSlot := v);
      } else if tag == ACTIVE_KEY_SET {
        ok, v := DecodeFixed(1, h.activeKeyset);
        h := h.(activeKeyset := v);
      } else if tag == MINIMUM_SECURITY_VERSION_NUMBER {
        ok, v := DecodeFixed(2, h.minimumSecurityVersion);
        h := h.(minimumSecurityVersion := v);
      } else if tag == INBAND_UPDATE_POLICY {
        ok, v := DecodeFixed(1, h.inbandUpdatePolicy);
        h := h.(inbandUpdatePolicy := v);
      } else if tag == BOOT_STATUS_CODE {
        ok, v := DecodeFixed(8, h.bootStatusCode);
        h := h.(bootStatusCode := v);
      } else if tag == FIRMWARE_SLOT_COUNT {
        ok, v := DecodeFixed(1, h.firmwareSlotCount);
        h := h.(firmwareSlotCount := v);
        last := ok;
      } else {
        return ErrorData, h, last;
      }
      rc := if ok then Success else ErrorLength;
    }

    /** and what it means for the whole loop */
    method DecodeHeaderRound(hdr: Hdr) returns (rc: Rc, h: Hdr, done: bool)
      requires Valid() && size >= 3 && count > 0
      modifies this
      ensures Valid() && pos + size == old(pos + size) && (!done ==> count < old(count))
      ensures DecodeHdr(old(Left()), old(count), hdr)
           == if done then Decoded(rc, h, Left(), count) else DecodeHdr(Left(), count, h)
    {
      ghost var p := Left();
      var last;
      rc, h, last := DecodeHeaderTag(hdr);
      if rc != Success {
        HdrStops(p, count, hdr);
        return rc, h, true;
      }
      HdrGoesOn(p, count, hdr, Left(), h);
      count := count - 1;
      done := last;
    }

    /** decode_nsm_query_firmware_header_information */
    method DecodeHeader(hdr: Hdr) returns (rc: Rc, h: Hdr)
      requires Valid()
      modifies this
      ensures Valid() && pos + size == old(pos + size)
      ensures Decoded(rc, h, Left(), count) == DecodeHdr(old(Left()), old(count), hdr)
    {
      h := hdr;
      ghost var target := DecodeHdr(Left(), count, h);
      while size >= 3 && count > 0
        invariant Valid() && pos + size == old(pos + size)
        invariant DecodeHdr(Left(), count, h) == target
        decreases count
      {
        var done;
        rc, h, done := DecodeHeaderRound(h);
        if done { return; }
      }
      rc := Success;
      HdrStops(Left(), count, h);
    }

    /** One round of the slot loop; `next` tells that another slot begins */
    method DecodeSlotTag(slot: Slot) returns (rc: Rc, s: Slot, next: bool)
      requires Valid() && size >= 3
      modifies this`pos, this`size
      ensures Valid() && pos + size == old(pos + size)
      ensures var m := SlotMove(old(Left()));
        if m.Stop? then rc == m.rc && s == slot && Left() == old(Left()) && (next <==> rc == Success)
        else rc == Success && s == ApplySlot(slot, m.t) && Left() == m.rest && !next
    {
      s, next := slot, false;
      var tag := buf[pos];
      var ok, v;
      if tag == FIRMWARE_VERSION_STRING {
        var version;
        ok, version := DecodeText(s.version);
        s := s.(version := version);
      } else if tag == VERSION_COMPARISON_STAMP {
        ok, v := DecodeFixed(4, s.versionComparisonStamp);
        s := s.(versionComparisonStamp := v);
      } else if tag == BUILD_TYPE {
        ok, v := DecodeFixed(1, s.buildType);
        s := s.(buildType := v);
      } else if tag == SIGNING_TYPE {
        ok, v := DecodeFixed(1, s.signingType);
        s := s.(signingType := v);
      } else if tag == WRITE_PROTECT_STATE {
        ok, v := DecodeFixed(1, s.writeProtectState);
        s := s.(writeProtectState := v);
      } else if tag == FIRMWARE_STATE {
        ok, v := DecodeFixed(1, s.firmwareState);
        s := s.(firmwareState := v);
      } else if tag == SECURITY_VERSION_NUMBER {
        ok, v := DecodeFixed(2, s.securityVersionNumber);
        s := s.(securityVersionNumber := v);
      } else if tag == SIGNING_KEY_INDEX {
        ok, v := DecodeFixed(2, s.signingKeyIndex);
        s := s.(signingKeyIndex := v);
      } else if tag == FIRMWARE_SLOT_ID {
        return Success, s, true;
      } else {
        return ErrorData, s, false;
      }
      rc := if ok then Success else ErrorLength;
    }

    /** and what it means for the whole loop */
    method DecodeSlotRound(slot: Slot) returns (rc: Rc, s: Slot, done: bool)
      requires Valid() && size >= 3 && count > 0
      modifies this
      ensures Valid() && pos + size == old(pos + size) && (!done ==> count < old(count))
      ensures SlotRest(old(Left()), old(count), slot)
           == if done then Decoded(rc, s, Left(), count) else SlotRest(Left(), count, s)
    {
      ghost var p := Left();
      var next;
      rc, s, next := DecodeSlotTag(slot);
      if rc != Success || next {
        SlotStops(p, count, slot);
        return rc, s, true;
      }
      SlotGoesOn(p, count, slot, Left(), s);
      count := count - 1;
      done := false;
    }

    /** The slot loop */
    method DecodeSlotTags(slot: Slot) returns (rc: Rc, s: Slot)
      requires Valid()
      modifies this
      ensures Valid() && pos + size == old(pos + size)
      ensures Decoded(rc, s, Left(), count) == SlotRest(old(Left()), old(count), slot)
    {
      s := slot;
      ghost var target := SlotRest(Left(), count, s);
      while size >= 3 && count > 0
        invariant Valid() && pos + size == old(pos + size)
        invariant SlotRest(Left(), count, s) == target
        decreases count
      {
        var done;
        rc, s, done := DecodeSlotRound(s);
        if done { return; }
      }
      rc := Success;
      SlotStops(Left(), count, s);
    }

    /** decode_nsm_query_firmware_slot_information */
    method DecodeSlotInfo(slot: Slot) returns (rc: Rc, s: Slot)
      requires Valid()
      modifies this
      ensures Valid() && pos + size == old(pos + size)
      ensures Decoded(rc, s, Left(), count) == DecodeSlot(old(Left()), old(count), slot)
    {
      s := slot;
      if size < 3 || count == 0 { return ErrorData, s; }
      var tag := buf[pos];
      if tag != FIRMWARE_SLOT_ID { return ErrorData, s; }
      ghost var p := Left();
      var ok, id := DecodeFixed(1, s.slotId);
      s := s.(slotId := id);
      SlotStarts(p, count, slot, Left(), s);
      count := count - 1;
      rc, s := DecodeSlotTags(s);
    }
  }

  /** The message decoder, which allocates the slots it decodes into */
  method DecodeSlots(reader: TagReader, n: nat) returns (rc: Rc, slots: array<Slot>)
    requires reader.Valid()
    modifies reader
    ensures reader.Valid() && reader.pos + reader.size == old(reader.pos + reader.size)
    ensures Decoded(rc, slots[..], reader.Left(), reader.count)
         == DecodeEach(DecodeSlot, old(reader.Left()), old(reader.count), seq(n, _ => ZeroSlot()), 0)
  {
    slots := new Slot[n](_ => ZeroSlot());
    ghost var p := reader.Left();
    ghost var target := DecodeEach(DecodeSlot, p, reader.count, slots[..], 0);
    assert slots[..] == seq(n, _ => ZeroSlot());
    var i := 0;
    while i < n
      invariant 0 <= i <= n && reader.Valid() && reader.pos + reader.size == old(reader.pos + reader.size)
      invariant p == reader.Left() && DecodeEach(DecodeSlot, p, reader.count, slots[..], i) == target
    {
      ghost var q, c, before := p, reader.count, slots[..];
      var s;
      rc, s := reader.DecodeSlotInfo(slots[i]);
      slots[i] := s;
      p := reader.Left();
      EachGoesOn(DecodeSlot, q, c, before, i, Decoded(rc, s, p, reader.count), slots[..]);
      if rc != Success { return; }
      i := i + 1;
    }
    rc := Success;
  }

  lemma EachGoesOn(decode: SlotDecoder, p: seq<byte>, count: nat, slots: seq<Slot>, i: nat, d: Decoded<Slot>,
                   slots': seq<Slot>)
    requires i < |slots| && d == decode(p, count, slots[i]) && slots' == slots[i := d.value]
    ensures DecodeEach(decode, p, count, slots, i)
         == if d.rc != Success then Decoded(d.rc, slots', d.rest, d.count)
            else DecodeEach(decode, d.rest, d.count, slots', i + 1)
  {
  }

  /** decode_nsm_query_get_erot_state_parameters_resp.  `msg` is the memory from
      the message on, which has `msgLen` bytes of it. */
  method DecodeResponse(msg: array<byte>, msgLen: nat, reason: nat, info: Info) returns (r: Response)
    requires Readable(msg[..], msgLen)
    ensures r == DecodeResp(msg[..], msgLen, reason, info)
  {
    var cc := msg[6];
    if cc == NSM_ACCEPTED { return Response(Success, cc, reason, info); }
    if cc != NSM_SUCCESS {
      if msgLen != 9 { return Response(ErrorLength, cc, reason, info); }
      return Response(Success, cc, LeValue(msg[7..9]), info);
    }
    if msgLen < 8 { return Response(ErrorLength, cc, reason, info); }
    r := DecodePayload(msg, PayloadSize(msgLen), reason, info);
  }

  method DecodePayload(msg: array<byte>, size: uint16, reason: nat, info: Info) returns (r: Response)
    requires msg.Length >= TAGS_AT + size
    ensures r == DecodeTags(DecodeHdr, DecodeSlot, msg[TAGS_AT..TAGS_AT + size], LeValue(msg[7..9]), reason, info)
  {
    WordSizes();
    LeBytesOfValue(msg[7..9]);
    var reader := new TagReader(msg, TAGS_AT, size, LeValue(msg[7..9]));
    var rc, h := reader.DecodeHeader(info.hdr);
    if rc != Success { return Response(rc, NSM_SUCCESS, reason, Info(h, info.slots)); }
    var slots;
    rc, slots := DecodeSlots(reader, h.firmwareSlotCount);
    r := Response(rc, NSM_SUCCESS, reason, Info(h, slots[..]));
  }

  // --------------------------------------------------------------- encoding

  /** The message being written: `ptr`, `msg_size` and `telemetry_count` */
  class TagWriter {
    const buf: array<byte>
    var pos: nat
    var msgSize: uint16
    var telemetryCount: uint16
    ghost var tags: seq<Tlv>
    ghost const before: seq<byte>

    /** Nothing but the tags so far has been written, after the nine first bytes */
    ghost predicate Valid()
      reads this, buf
    {
      && TAGS_AT <= pos <= buf.Length == |before| && pos == msgSize + 5
      && buf[..] == before[..TAGS_AT] + EmitAll(tags) + before[pos..]
      && pos == TAGS_AT + |EmitAll(tags)| && telemetryCount == |tags|
    }

    /** for k tags of n bytes in all */
    ghost predicate Room(k: nat, n: nat)
      reads this
    {
      pos + n <= buf.Length && msgSize + n < UINT16_END && telemetryCount + k < UINT16_END
    }

    constructor (buf: array<byte>)
      requires buf.Length >= TAGS_AT
      ensures Valid() && this.buf == buf && before == buf[..] && pos == TAGS_AT && tags == []
    {
      this.buf, pos, msgSize, telemetryCount, tags := buf, TAGS_AT, 4, 0, [];
      before := buf[..];
    }

    /** encode_nsm_firmware_aggregate_tag_uint8, _uint16, _uint32 and _uint64 */
    method EncodeFixed(tag: byte, length: nat, value: nat)
      requires Valid() && length < 4 && Room(1, 2 + Pow2(length))
      modifies this, buf
      ensures Valid() && tags == old(tags) + [FixedTlv(tag, length, value)] && pos == old(pos) + 2 + Pow2(length)
    {
      Put(FixedTlv(tag, length, value));
    }

    /** encode_nsm_firmware_aggregate_tag_uint8_array */
    method EncodeText(version: VersionString)
      requires Valid() && Room(1, 18)
      modifies this, buf
      ensures Valid() && tags == old(tags) + [TextTlv(version)] && pos == old(pos) + 18
    {
      Put(TextTlv(version));
    }

    method Put(t: Tlv)
      requires Valid() && Room(1, 2 + |t.data|)
      modifies this, buf
      ensures Valid() && tags == old(tags) + [t] && pos == old(pos) + 2 + |t.data|
    {
      var n := |t.data|;
      Write(buf, pos, [t.tag, t.flags] + t.data);
      Splice(before, EmitAll(tags), Emit(t), old(buf[..]), buf[..], pos);
      EmitOneMore(tags, t);
      pos := pos + 2 + n;
      msgSize := msgSize + 2 + n;
      telemetryCount := telemetryCount + 1;
      tags := tags + [t];
    }

    /** The header part of the response encoder */
    method EncodeHeader(h: Hdr)
      requires Valid() && tags == [] && Room(7, 29)
      modifies this, buf
      ensures Valid() && tags == HdrTags(h) + [CountTag(h)] && pos == old(pos) + 29
    {
      WordSizes();
      assert Pow2(0) == 1 && Pow2(1) == 2 && Pow2(3) == 8;
      EncodeFixed(BACKGROUND_COPY_POLICY, 0, h.backgroundCopyPolicy);
      EncodeFixed(ACTIVE_FIRMWARE_SLOT, 0, h.activeSlot);
      EncodeFixed(ACTIVE_KEY_SET, 0, h.activeKeyset);
      assert tags == HdrTags(h)[..3];
      EncodeFixed(MINIMUM_SECURITY_VERSION_NUMBER, 1, h.minimumSecurityVersion);
      EncodeFixed(INBAND_UPDATE_POLICY, 0, h.inbandUpdatePolicy);
      EncodeFixed(BOOT_STATUS_CODE, 3, h.bootStatusCode);
      assert tags == HdrTags(h);
      EncodeFixed(FIRMWARE_SLOT_COUNT, 0, h.firmwareSlotCount);
    }

    /** and one round of its slot loop */
    method EncodeSlot(s: Slot)
      requires Valid() && Room(9, 47)
      modifies this, buf
      ensures Valid() && tags == old(tags) + ([IdTag(s)] + SlotTags(s)) && pos == old(pos) + 47
    {
      EncodeVersion(s);
      EncodeState(s);
    }

    method EncodeVersion(s: Slot)
      requires Valid() && Room(3, 27)
      modifies this, buf
      ensures Valid() && tags == old(tags) + ([IdTag(s)] + SlotTags(s)[..2]) && pos == old(pos) + 27
    {
      assert Pow2(0) == 1 && Pow2(2) == 4;
      EncodeFixed(FIRMWARE_SLOT_ID, 0, s.slotId);
      EncodeText(s.version);
      EncodeFixed(VERSION_COMPARISON_STAMP, 2, s.versionComparisonStamp);
    }

    method EncodeState(s: Slot)
      requires Valid() && Room(6, 20)
      modifies this, buf
      ensures Valid() && tags == old(tags) + SlotTags(s)[2..] && pos == old(pos) + 20
    {
      assert Pow2(0) == 1 && Pow2(1) == 2;
      EncodeFixed(BUILD_TYPE, 0, s.buildType);
      EncodeFixed(SIGNING_TYPE, 0, s.signingType);
      EncodeFixed(WRITE_PROTECT_STATE, 0, s.writeProtectState);
      EncodeFixed(FIRMWARE_STATE, 0, s.firmwareState);
      EncodeFixed(SECURITY_VERSION_NUMBER, 1, s.securityVersionNumber);
      EncodeFixed(SIGNING_KEY_INDEX, 1, s.signingKeyIndex);
    }
  }

  /** One more tag in place */
  lemma Splice<T>(start: seq<T>, e: seq<T>, x: seq<T>, before: seq<T>, after: seq<T>, pos: nat)
    requires TAGS_AT <= |start| && pos == TAGS_AT + |e| && pos + |x| <= |start|
    requires before == start[..TAGS_AT] + e + start[pos..]
    requires after == before[..pos] + x + before[pos + |x|..]
    ensures after == start[..TAGS_AT] + (e + x) + start[pos + |x|..]
  {
    assert before[..pos] == start[..TAGS_AT] + e;
    assert before[pos + |x|..] == start[pos + |x|..];
  }

  /** The tags of the first n slots */
  function SlotsTags(slots: seq<Slot>, n: nat): seq<Tlv>
    requires n <= |slots|
  {
    if n == 0 then [] else SlotsTags(slots, n - 1) + ([IdTag(slots[n - 1])] + SlotTags(slots[n - 1]))
  }

  lemma {:induction false} SlotsEmitted(slots: seq<Slot>, n: nat)
    requires n <= |slots|
    ensures EmitAll(SlotsTags(slots, n)) == EncodeEach(SlotBytes, slots[..n]) && |SlotsTags(slots, n)| == 9 * n
  {
    if n > 0 {
      var s := slots[n - 1];
      SlotsEmitted(slots, n - 1);
      EmitAllAppend(SlotsTags(slots, n - 1), [IdTag(s)] + SlotTags(s));
      EmitAllCons(IdTag(s), SlotTags(s));
      EncodeEachAppend(SlotBytes, slots[..n - 1], s);
      assert slots[..n] == slots[..n - 1] + [s];
    }
  }

  /** encode_nsm_query_get_erot_state_parameters_resp: the bytes of the response
      are written, its telemetry count last, and nothing behind it. */
  method EncodeResponse(instanceId: nat, cc: byte, reason: nat, info: Info, msg: array<byte>) returns (rc: Rc)
    requires InfoFits(info) && msg.Length >= if cc == NSM_SUCCESS then TAGS_AT + 29 + 47 * |info.slots| else TAGS_AT
    modifies msg
    ensures rc == if instanceId > INSTANCE_MAX then ErrorData else Success
    ensures rc != Success ==> msg[..] == old(msg[..])
    ensures rc == Success && cc != NSM_SUCCESS ==>
      msg[..] == EncodeFailure(instanceId, cc, reason) + old(msg[..])[TAGS_AT..]
    ensures rc == Success && cc == NSM_SUCCESS ==>
      msg[..] == EncodeResp(instanceId, info) + old(msg[..])[TAGS_AT + 29 + 47 * |info.slots|..]
  {
    if instanceId > INSTANCE_MAX { return ErrorData; }
    ghost var before := msg[..];
    PutFront(msg, instanceId, cc);
    if cc != NSM_SUCCESS {
      SameTail(before, msg[..], 7, TAGS_AT);
      PutLe16(msg, 7, reason);
      return Success;
    }
    SameTail(before, msg[..], 7, TAGS_AT + 29 + 47 * |info.slots|);
    EncodePayload(info, msg);
    rc := Success;
  }

  method PutLe16(msg: array<byte>, at: nat, v: nat)
    requires at + 2 <= msg.Length
    modifies msg
    ensures msg[..] == old(msg[..])[..at] + LeBytes(v, 2) + old(msg[..])[at + 2..]
  {
    Write(msg, at, LeBytes(v, 2));
  }

  /** pack_nsm_header, then command and completion code */
  method PutFront(msg: array<byte>, instanceId: nat, cc: byte)
    requires msg.Length >= TAGS_AT && instanceId <= INSTANCE_MAX
    modifies msg
    ensures msg[..7] == MsgHeader(instanceId) + [GET_EROT_STATE_INFORMATION, cc] && msg[7..] == old(msg[7..])
  {
    msg[0], msg[1], msg[2], msg[3], msg[4] := 0x10, 0xde, instanceId, 0x89, 6;
    msg[5], msg[6] := GET_EROT_STATE_INFORMATION, cc;
  }

  method EncodePayload(info: Info, msg: array<byte>)
    requires InfoFits(info) && msg.Length >= TAGS_AT + 29 + 47 * |info.slots|
    modifies msg
    ensures msg[..] == old(msg[..])[..7] + LeBytes(TagCount(|info.slots|), 2) + TagBytes(info)
      + old(msg[..])[TAGS_AT + 29 + 47 * |info.slots|..]
  {
    var telemetryCount := EncodeTags(info, msg);
    assert msg[..][..7] == old(msg[..])[..7];
    assert msg[..][TAGS_AT..] == TagBytes(info) + old(msg[..])[TAGS_AT + 29 + 47 * |info.slots|..];
    PutLe16(msg, 7, telemetryCount);
  }

  method EncodeTags(info: Info, msg: array<byte>) returns (telemetryCount: uint16)
    requires InfoFits(info) && msg.Length >= TAGS_AT + 29 + 47 * |info.slots|
    modifies msg
    ensures telemetryCount == TagCount(|info.slots|) && |TagBytes(info)| == 29 + 47 * |info.slots|
    ensures msg[..] == old(msg[..])[..TAGS_AT] + TagBytes(info) + old(msg[..])[TAGS_AT + 29 + 47 * |info.slots|..]
  {
    var w := new TagWriter(msg);
    w.EncodeHeader(info.hdr);
    ghost var front := w.tags;
    var i := 0;
    while i < info.hdr.firmwareSlotCount
      invariant 0 <= i <= |info.slots| && w.Valid() && w.pos == TAGS_AT + 29 + 47 * i && |w.tags| == 7 + 9 * i
      invariant w.tags == front + SlotsTags(info.slots, i)
    {
      Associative(front, SlotsTags(info.slots, i), [IdTag(info.slots[i])] + SlotTags(info.slots[i]));
      w.EncodeSlot(info.slots[i]);
      i := i + 1;
    }
    AllEmitted(info);
    telemetryCount := w.telemetryCount;
  }

  lemma AllEmitted(info: Info)
    ensures EmitAll(HdrTags(info.hdr) + [CountTag(info.hdr)] + SlotsTags(info.slots, |info.slots|))
         == TagBytes(info)
  {
    var a, b, c := HdrTags(info.hdr), CountTag(info.hdr), SlotsTags(info.slots, |info.slots|);
    EmitAllAppend(a + [b], c);
    EmitAllAppend(a, [b]);
    EmitAllCons(b, []);
    SlotsEmitted(info.slots, |info.slots|);
    assert info.slots[..|info.slots|] == info.slots;
  }
}
