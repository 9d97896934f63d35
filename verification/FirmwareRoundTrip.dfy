/** Encoding and decoding a whole eROT state response: when, exactly, everything
  comes back (libnsm/firmware-utils.c).
 */
module FirmwareRoundTrip {
  import opened Bits
  import opened LittleEndian
  import opened Seqs
  import opened Nsm
  import opened FirmwareTlv
  import opened FirmwareResponse

  /** The nine first bytes of a success message */
  function Front(instanceId: nat, n: nat): (f: seq<byte>)
    requires instanceId <= INSTANCE_MAX
    ensures |f| == TAGS_AT
  {
    MsgHeader(instanceId) + [GET_EROT_STATE_INFORMATION, NSM_SUCCESS] + LeBytes(TagCount(n), 2)
  }

  /** Bytes of the tags of n slots */
  function TagsSize(n: nat): nat {
    29 + 47 * n
  }

  lemma EncodedParts(instanceId: nat, info: Info)
    requires instanceId <= INSTANCE_MAX && InfoFits(info)
    ensures EncodeResp(instanceId, info) == Front(instanceId, |info.slots|) + TagBytes(info)
    ensures |TagBytes(info)| == TagsSize(|info.slots|) && TagCount(|info.slots|) < UINT16_END
  {
    EncodedSize(instanceId, info);
    Grouped(Front(instanceId, |info.slots|), EmitAll(HdrTags(info.hdr)), Emit(CountTag(info.hdr)),
            EncodeEach(SlotBytes, info.slots));
  }

  lemma Grouped<T>(f: seq<T>, a: seq<T>, b: seq<T>, c: seq<T>)
    ensures f + a + b + c == f + (a + b + c)
  {
  }

  /** The payload size of a message of n slots with trailing bytes */
  function SeenSize(n: nat, trailing: seq<byte>): (size: nat)
    ensures size <= TagsSize(n) + |trailing|
  {
    PayloadWithinIff(TAGS_AT + TagsSize(n) + |trailing|);
    PayloadSize(TAGS_AT + TagsSize(n) + |trailing|)
  }

  /** What the decoder looks at: tags and trailing bytes as far as that goes */
  function Seen(info: Info, trailing: seq<byte>): seq<byte>
    requires |TagBytes(info)| == TagsSize(|info.slots|)
  {
    (TagBytes(info) + trailing)[..SeenSize(|info.slots|, trailing)]
  }

  /** A success message consists of its nine first bytes and its payload, and
      what the payload size does not count is not looked at. */
  lemma MessageTags(msg: seq<byte>, front: seq<byte>, p: seq<byte>, rest: seq<byte>, count: nat, reason: nat,
                    info0: Info)
    requires msg == front + (p + rest) && |front| == TAGS_AT && |p| == PayloadSize(|msg|)
    requires count < UINT16_END && front[6] == NSM_SUCCESS && front[7..9] == LeBytes(count, 2)
    ensures Readable(msg, |msg|)
    ensures DecodeResp(msg, |msg|, reason, info0) == DecodeTags(DecodeHdr, DecodeSlot, p, count, reason, info0)
  {
    assert msg[TAGS_AT..TAGS_AT + PayloadSize(|msg|)] == p;
    assert msg[7..9] == front[7..9];
    WordSizes();
    LeRoundTrip(count, 2);
  }

  lemma DecodesSeen(instanceId: nat, info: Info, trailing: seq<byte>, reason: nat, info0: Info)
    requires instanceId <= INSTANCE_MAX && InfoFits(info)
    ensures |TagBytes(info)| == TagsSize(|info.slots|)
    ensures var msg := EncodeResp(instanceId, info) + trailing;
      && Readable(msg, |msg|)
      && DecodeResp(msg, |msg|, reason, info0)
         == DecodeTags(DecodeHdr, DecodeSlot, Seen(info, trailing), TagCount(|info.slots|), reason, info0)
  {
    EncodedParts(instanceId, info);
    var f, t, p := Front(instanceId, |info.slots|), TagBytes(info), Seen(info, trailing);
    var rest := (t + trailing)[|p|..];
    assert p + rest == t + trailing;
    Associative(f, t, trailing);
    MessageTags(EncodeResp(instanceId, info) + trailing, f, p, rest, TagCount(|info.slots|), reason, info0);
  }

  /** Decoding restores every field, each version string cut to 16 bytes and zeros */
  ghost predicate Restored(instanceId: nat, info: Info, trailing: seq<byte>, reason: nat, info0: Info)
    requires instanceId <= INSTANCE_MAX && InfoFits(info)
  {
    var msg := EncodeResp(instanceId, info) + trailing;
    && Readable(msg, |msg|)
    && DecodeResp(msg, |msg|, reason, info0)
       == Response(Success, NSM_SUCCESS, reason, Info(info.hdr, SentAll(info.slots)))
  }

  /** Round trip for any slot count from 0 to 255, any trailing bytes and whatever
      the caller's structure held, if the payload size covers the tags. */
  lemma RoundTrip(instanceId: nat, info: Info, trailing: seq<byte>, reason: nat, info0: Info)
    requires instanceId <= INSTANCE_MAX && InfoFits(info)
    requires SeenSize(|info.slots|, trailing) >= TagsSize(|info.slots|)
    ensures Restored(instanceId, info, trailing, reason, info0)
  {
    DecodesSeen(instanceId, info, trailing, reason, info0);
    var seen := trailing[..SeenSize(|info.slots|, trailing) - TagsSize(|info.slots|)];
    assert Seen(info, trailing) == TagBytes(info) + seen;
    var a, b, c := EmitAll(HdrTags(info.hdr)), Emit(CountTag(info.hdr)), EncodeEach(SlotBytes, info.slots);
    Regroup(a, b, c, seen);
    TagsRoundTrip(Seen(info, trailing), c + seen, TagCount(|info.slots|), info, seen, reason, info0);
  }

  lemma Regroup<T>(a: seq<T>, b: seq<T>, c: seq<T>, d: seq<T>)
    ensures a + b + c + d == a + (b + (c + d))
  {
  }

  // ---------------------------------------------------------------- converse

  /** If two infos look the same to the decoder, it does not restore both */
  lemma NotBoth(instanceId: nat, a: Info, b: Info, trailing: seq<byte>, reason: nat, info0: Info)
    requires instanceId <= INSTANCE_MAX && InfoFits(a) && InfoFits(b) && |a.slots| == |b.slots|
    requires |TagBytes(a)| == |TagBytes(b)| == TagsSize(|a.slots|) && Seen(a, trailing) == Seen(b, trailing)
    requires Info(a.hdr, SentAll(a.slots)) != Info(b.hdr, SentAll(b.slots))
    ensures !Restored(instanceId, a, trailing, reason, info0) || !Restored(instanceId, b, trailing, reason, info0)
  {
    DecodesSeen(instanceId, a, trailing, reason, info0);
    DecodesSeen(instanceId, b, trailing, reason, info0);
  }

  /** A slot up to its last two bytes, the signing key index */
  function KeyFront(s: Slot): seq<byte> {
    Emit(IdTag(s)) + EmitAll(SlotTags(s)[..7]) + [SIGNING_KEY_INDEX, 3]
  }

  lemma SlotEndsWithKey(s: Slot, w: nat)
    ensures SlotBytes(s.(signingKeyIndex := w)) == KeyFront(s) + LeBytes(w, 2)
  {
    var x, ts, key := s.(signingKeyIndex := w), SlotTags(s)[..7], FixedTlv(SIGNING_KEY_INDEX, 1, w);
    assert SlotTags(x) == ts + [key];
    EmitAllAppend(ts, [key]);
    EmitAllCons(key, []);
    Emitted(key, w);
    KeyParts(Emit(IdTag(s)), EmitAll(ts), [SIGNING_KEY_INDEX, 3], LeBytes(w, 2));
  }

  lemma Emitted(key: Tlv, w: nat)
    requires key == FixedTlv(SIGNING_KEY_INDEX, 1, w)
    ensures Emit(key) == [SIGNING_KEY_INDEX, 3] + LeBytes(w, 2) && EmitAll([]) == []
  {
  }

  lemma KeyParts<T>(a: seq<T>, b: seq<T>, c: seq<T>, d: seq<T>)
    ensures a + (b + ((c + d) + [])) == a + b + c + d
  {
  }

  lemma EndsWithKey(hdr: Hdr, slots: seq<Slot>, s: Slot, w: nat)
    ensures TagBytes(Info(hdr, slots + [s.(signingKeyIndex := w)]))
         == EmitAll(HdrTags(hdr)) + Emit(CountTag(hdr)) + EncodeEach(SlotBytes, slots) + KeyFront(s) + LeBytes(w, 2)
  {
    SlotEndsWithKey(s, w);
    EncodeEachAppend(SlotBytes, slots, s.(signingKeyIndex := w));
    TailParts(EmitAll(HdrTags(hdr)) + Emit(CountTag(hdr)), EncodeEach(SlotBytes, slots), KeyFront(s), LeBytes(w, 2));
  }

  lemma TailParts<T>(a: seq<T>, b: seq<T>, c: seq<T>, d: seq<T>)
    ensures a + (b + (c + d)) == a + b + c + d
  {
  }

  lemma SameFront<T>(a: seq<T>, b: seq<T>, ta: seq<T>, tb: seq<T>, trailing: seq<T>, k: nat)
    requires k <= |a| && k <= |b| && a[..k] == b[..k]
    ensures (a + ta + trailing)[..k] == (b + tb + trailing)[..k]
  {
    assert (a + ta + trailing)[..k] == a[..k] && (b + tb + trailing)[..k] == b[..k];
  }

  function PlainHdr(n: nat): Hdr {
    Hdr(0, 0, 0, 0, 0, n, 0)
  }

  /** n slots, the last with this signing key index */
  function Keyed(n: nat, w: nat): Info
    requires n > 0
  {
    Info(PlainHdr(n), seq(n - 1, _ => ZeroSlot()) + [ZeroSlot().(signingKeyIndex := w)])
  }

  /** Without the last byte of the tags, an index of 0 and one of 256 look the same */
  lemma KeyIsCut(instanceId: nat, n: nat, trailing: seq<byte>, reason: nat, info0: Info)
    requires instanceId <= INSTANCE_MAX && 0 < n < UINT8_END && SeenSize(n, trailing) < TagsSize(n)
    ensures InfoFits(Keyed(n, 0)) && InfoFits(Keyed(n, 256))
    ensures || !Restored(instanceId, Keyed(n, 0), trailing, reason, info0)
            || !Restored(instanceId, Keyed(n, 256), trailing, reason, info0)
  {
    var a, b, slots := Keyed(n, 0), Keyed(n, 256), seq(n - 1, _ => ZeroSlot());
    EncodedParts(instanceId, a);
    EncodedParts(instanceId, b);
    EndsWithKey(PlainHdr(n), slots, ZeroSlot(), 0);
    EndsWithKey(PlainHdr(n), slots, ZeroSlot(), 256);
    var front := EmitAll(HdrTags(PlainHdr(n))) + Emit(CountTag(PlainHdr(n))) + EncodeEach(SlotBytes, slots)
      + KeyFront(ZeroSlot());
    TwoBytes(front, trailing, SeenSize(n, trailing));
    assert SentAll(a.slots)[n - 1].signingKeyIndex == 0 && SentAll(b.slots)[n - 1].signingKeyIndex == 256;
    NotBoth(instanceId, a, b, trailing, reason, info0);
  }

  lemma TwoBytes(front: seq<byte>, trailing: seq<byte>, k: nat)
    requires k < |front| + 2
    ensures (front + LeBytes(0, 2) + trailing)[..k] == (front + LeBytes(256, 2) + trailing)[..k]
  {
    assert LeBytes(0, 1) == [0] && LeBytes(1, 1) == [1];
    assert LeBytes(0, 2) == [0] + LeBytes(0, 1) && LeBytes(256, 2) == [0] + LeBytes(1, 1);
    assert front + LeBytes(0, 2) == front + [0] + [0] && front + LeBytes(256, 2) == front + [0] + [1];
    SameFront(front + [0], front + [0], [0], [1], trailing, k);
  }

  /** A header without slots, with this boot status code */
  function Booted(w: nat): Info {
    Info(PlainHdr(0).(bootStatusCode := w), [])
  }

  function BootFront(): seq<byte> {
    EmitAll(HdrTags(PlainHdr(0))[..5]) + [BOOT_STATUS_CODE, 7]
  }

  function BootBack(): seq<byte> {
    Emit(CountTag(PlainHdr(0)))
  }

  lemma BootedBytes(w: nat)
    ensures TagBytes(Booted(w)) == BootFront() + LeBytes(w, 8) + BootBack()
  {
    var ts, boot := HdrTags(PlainHdr(0))[..5], FixedTlv(BOOT_STATUS_CODE, 3, w);
    assert Pow2(3) == 8;
    assert HdrTags(Booted(w).hdr) == ts + [boot];
    EmitAllAppend(ts, [boot]);
    EmitAllCons(boot, []);
    BootParts(EmitAll(ts), [BOOT_STATUS_CODE, 7], LeBytes(w, 8), BootBack());
  }

  lemma BootParts<T>(a: seq<T>, b: seq<T>, c: seq<T>, d: seq<T>)
    ensures a + ((b + c) + []) + d + [] == a + b + c + d
  {
  }

  /** Boot status codes that differ in their last byte */
  function BootCodes(): (c: (nat, nat))
    ensures c.0 < UINT64_END && c.1 < UINT64_END
    ensures LeBytes(c.0, 8) == Zeros(7) + [0] && LeBytes(c.1, 8) == Zeros(7) + [1]
  {
    WordSizes();
    LeBytesOfValue(Zeros(7) + [0]);
    LeBytesOfValue(Zeros(7) + [1]);
    (LeValue(Zeros(7) + [0]), LeValue(Zeros(7) + [1]))
  }

  lemma BootSize(w: nat)
    requires w < UINT64_END
    ensures |BootFront()| == 18 && |TagBytes(Booted(w))| == TagsSize(0) && InfoFits(Booted(w))
  {
    EncodedParts(0, Booted(w));
    BootedBytes(w);
    assert |BootBack()| == 3;
  }

  lemma SameSeen(v: nat, w: nat, trailing: seq<byte>)
    requires v < UINT64_END && w < UINT64_END && LeBytes(v, 8) == Zeros(7) + [0] && LeBytes(w, 8) == Zeros(7) + [1]
    requires SeenSize(0, trailing) <= 25
    ensures |TagBytes(Booted(v))| == |TagBytes(Booted(w))| == TagsSize(0)
    ensures Seen(Booted(v), trailing) == Seen(Booted(w), trailing)
  {
    BootSize(v);
    BootSize(w);
    BootedBytes(v);
    BootedBytes(w);
    var f, z, e := BootFront(), Zeros(7), BootBack();
    Ungroup(f, z, [0], e);
    Ungroup(f, z, [1], e);
    SameFront(f + z, f + z, [0] + e, [1] + e, trailing, SeenSize(0, trailing));
  }

  lemma Ungroup<T>(f: seq<T>, z: seq<T>, x: seq<T>, e: seq<T>)
    ensures f + (z + x) + e == f + z + (x + e)
  {
  }

  /** Without the last byte of the boot status code, two codes look the same */
  lemma BootIsCut(instanceId: nat, trailing: seq<byte>, reason: nat, info0: Info) returns (info: Info)
    requires instanceId <= INSTANCE_MAX && SeenSize(0, trailing) <= 25
    ensures InfoFits(info) && info.slots == [] && !Restored(instanceId, info, trailing, reason, info0)
  {
    var (v, w) := BootCodes();
    assert (Zeros(7) + [0])[7] != (Zeros(7) + [1])[7];
    SameSeen(v, w, trailing);
    NotBoth(instanceId, Booted(v), Booted(w), trailing, reason, info0);
    info := if Restored(instanceId, Booted(v), trailing, reason, info0) then Booted(w) else Booted(v);
  }

  lemma {:induction false} CountStays(h: Hdr, ts: seq<Tlv>)
    requires forall t <- ts :: t.tag != FIRMWARE_SLOT_COUNT
    ensures Fold(ApplyHdr, h, ts).firmwareSlotCount == h.firmwareSlotCount
    decreases |ts|
  {
    if ts != [] { CountStays(ApplyHdr(h, ts[0]), ts[1..]); }
  }

  /** With less than a whole tag behind the other header tags, the slot count is
      what it was. */
  lemma CountIsCut(ts: seq<Tlv>, rest: seq<byte>, count: nat, h0: Hdr)
    requires (forall t <- ts :: WfHdr(t) && t.tag != FIRMWARE_SLOT_COUNT) && |rest| < 3 && count > |ts|
    ensures DecodeHdr(EmitAll(ts) + rest, count, h0) == Decoded(Success, Fold(ApplyHdr, h0, ts), rest, count - |ts|)
    ensures DecodeHdr(EmitAll(ts) + rest, count, h0).value.firmwareSlotCount == h0.firmwareSlotCount
  {
    forall t, more | t in ts ensures HdrMove(Emit(t) + more) == Read(t, more, false) { HdrMoveOnTag(t, more); }
    AlwaysFit(ts, rest);
    LoopReads(HdrMove, Always, ts, rest, count);
    assert ts + [] == ts;
    CountStays(h0, ts);
  }

  lemma HdrKept(decodeHdr: HdrDecoder, decodeSlot: SlotDecoder, p: seq<byte>, count: nat, reason: nat, info0: Info)
    ensures DecodeTags(decodeHdr, decodeSlot, p, count, reason, info0).info.hdr == decodeHdr(p, count, info0.hdr).value
  {
  }

  lemma FrontPart<T>(a: seq<T>, b: seq<T>, trailing: seq<T>, k: nat)
    requires |a| <= k <= |a| + |b| + |trailing|
    ensures (a + b + [] + trailing)[..k] == a + (b + trailing)[..k - |a|]
  {
    assert a + b + [] + trailing == a + (b + trailing);
  }

  /** Without the last byte of the slot count, the caller's own is left in place */
  lemma NoCount(instanceId: nat, trailing: seq<byte>, reason: nat, info0: Info)
    requires instanceId <= INSTANCE_MAX && 26 <= SeenSize(0, trailing) < TagsSize(0) && info0.hdr.firmwareSlotCount == 1
    ensures InfoFits(Booted(0)) && !Restored(instanceId, Booted(0), trailing, reason, info0)
  {
    var info, k := Booted(0), SeenSize(0, trailing);
    BootSize(0);
    DecodesSeen(instanceId, info, trailing, reason, info0);
    NoCountSeen(Seen(info, trailing), info.hdr, trailing, k, info0.hdr);
    HdrKept(DecodeHdr, DecodeSlot, Seen(info, trailing), 7, reason, info0);
  }

  lemma NoCountSeen(p: seq<byte>, hdr: Hdr, trailing: seq<byte>, k: nat, h0: Hdr)
    requires HdrFits(hdr) && 26 <= k < TagsSize(0) && k <= |TagBytes(Info(hdr, [])) + trailing|
    requires p == (TagBytes(Info(hdr, [])) + trailing)[..k]
    ensures DecodeHdr(p, 7, h0).value.firmwareSlotCount == h0.firmwareSlotCount
  {
    var ts, sc := HdrTags(hdr), CountTag(hdr);
    HdrTagsCarry(hdr);
    HdrSize(ts, sc, hdr);
    HdrWellFormed(ts, sc, hdr);
    FrontPart(EmitAll(ts), Emit(sc), trailing, k);
    CountIsCut(ts, (Emit(sc) + trailing)[..k - 26], 7, h0);
  }

  // ----------------------------------------------------------- exact condition

  /** For n slots and these trailing bytes, whatever is sent is restored, whatever
      the caller's structure held, if and only if the payload size covers the tags. */
  lemma RoundTripIff(instanceId: nat, n: nat, trailing: seq<byte>)
    requires instanceId <= INSTANCE_MAX && n < UINT8_END
    ensures (forall info, reason: nat, info0 | InfoFits(info) && |info.slots| == n ::
               Restored(instanceId, info, trailing, reason, info0))
       <==> SeenSize(n, trailing) >= TagsSize(n)
  {
    if SeenSize(n, trailing) >= TagsSize(n) {
      forall info, reason: nat, info0 | InfoFits(info) && |info.slots| == n
        ensures Restored(instanceId, info, trailing, reason, info0)
      {
        RoundTrip(instanceId, info, trailing, reason, info0);
      }
    } else {
      var info0 := Info(PlainHdr(1), []);
      if n > 0 {
        KeyIsCut(instanceId, n, trailing, 0, info0);
      } else if SeenSize(n, trailing) <= 25 {
        var info := BootIsCut(instanceId, trailing, 0, info0);
      } else {
        NoCount(instanceId, trailing, 0, info0);
      }
    }
  }

  /** Messages of up to 65544 bytes are always restored */
  lemma RoundTripUpTo65544(instanceId: nat, info: Info, trailing: seq<byte>, reason: nat, info0: Info)
    requires instanceId <= INSTANCE_MAX && InfoFits(info) && |EncodeResp(instanceId, info) + trailing| <= 65544
    ensures Restored(instanceId, info, trailing, reason, info0)
  {
    EncodedSize(instanceId, info);
    PayloadWithinIff(TAGS_AT + TagsSize(|info.slots|) + |trailing|);
    RoundTrip(instanceId, info, trailing, reason, info0);
  }

  /** A payload size of less than three, as 65536 payload bytes give, hides every
      tag: the caller's header is what is "decoded". */
  lemma NothingSeen(mem: seq<byte>, msgLen: nat, reason: nat, info0: Info)
    requires Readable(mem, msgLen) && msgLen >= 8 && mem[6] == NSM_SUCCESS && PayloadSize(msgLen) < 3
    ensures var r := DecodeResp(mem, msgLen, reason, info0);
      && r.info.hdr == info0.hdr
      && r.rc == if info0.hdr.firmwareSlotCount == 0 then Success else ErrorData
  {
  }

  /** A failure message carries its completion and reason codes and touches
      nothing else. */
  lemma FailureRoundTrip(instanceId: nat, cc: byte, reason: nat, reason0: nat, info0: Info)
    requires instanceId <= INSTANCE_MAX && cc != NSM_SUCCESS && cc != NSM_ACCEPTED && reason < UINT16_END
    ensures DecodeResp(EncodeFailure(instanceId, cc, reason), 9, reason0, info0) == Response(Success, cc, reason, info0)
  {
    var msg := EncodeFailure(instanceId, cc, reason);
    assert msg[7..9] == LeBytes(reason, 2);
    WordSizes();
    LeRoundTrip(reason, 2);
  }
}
