/** The bytes of an eROT state response, one by one (libnsm/firmware-utils.c) */
module FirmwareWire {
  import opened Bits
  import opened LittleEndian
  import opened Seqs
  import opened Nsm
  import opened NsmHeader
  import opened FirmwareTlv
  import opened FirmwareResponse

  /** Each tag says what it is, that it is valid, and the exponent of its length */
  lemma OneByteTag(tag: byte, v: nat)
    requires v < UINT8_END
    ensures Emit(FixedTlv(tag, 0, v)) == [tag, 1, v]
  {
    assert Pow2(0) == 1 && LeBytes(v, 1) == [v % 256] + LeBytes(v / 256, 0);
  }

  lemma TwoByteTag(tag: byte, v: nat)
    requires v < UINT16_END
    ensures Emit(FixedTlv(tag, 1, v)) == [tag, 3, v % 256, v / 256]
  {
    assert Pow2(1) == 2 && LeBytes(v, 2) == [v % 256] + LeBytes(v / 256, 1);
    assert LeBytes(v / 256, 1) == [v / 256 % 256] + LeBytes(v / 256 / 256, 0);
  }

  lemma Three(a: Tlv, b: Tlv, c: Tlv)
    ensures EmitAll([a, b, c]) == Emit(a) + Emit(b) + Emit(c)
  {
    assert [a, b, c][1..] == [b, c] && [b, c][1..] == [c] && [c][1..] == [];
    assert EmitAll([b, c]) == Emit(b) + EmitAll([c]) && EmitAll([c]) == Emit(c) + EmitAll([]);
  }

  lemma HdrLayout(h: Hdr)
    requires HdrFits(h)
    ensures EmitAll(HdrTags(h)) + Emit(CountTag(h)) ==
      [1, 1, h.backgroundCopyPolicy] + [2, 1, h.activeSlot] + [3, 1, h.activeKeyset]
      + [13, 3, h.minimumSecurityVersion % 256, h.minimumSecurityVersion / 256]
      + [15, 1, h.inbandUpdatePolicy] + ([16, 7] + LeBytes(h.bootStatusCode, 8)) + [5, 1, h.firmwareSlotCount]
  {
    var ts := HdrTags(h);
    assert ts == [ts[0], ts[1], ts[2]] + [ts[3], ts[4], ts[5]];
    EmitAllAppend([ts[0], ts[1], ts[2]], [ts[3], ts[4], ts[5]]);
    Three(ts[0], ts[1], ts[2]);
    Three(ts[3], ts[4], ts[5]);
    OneByteTag(1, h.backgroundCopyPolicy);
    OneByteTag(2, h.activeSlot);
    OneByteTag(3, h.activeKeyset);
    TwoByteTag(13, h.minimumSecurityVersion);
    OneByteTag(15, h.inbandUpdatePolicy);
    OneByteTag(5, h.firmwareSlotCount);
    assert Pow2(3) == 8 && Emit(ts[5]) == [16, 7] + LeBytes(h.bootStatusCode, 8);
  }

  lemma SlotLayout(s: Slot)
    requires SlotFits(s)
    ensures SlotBytes(s) ==
      [6, 1, s.slotId] + ([7, 9] + s.version[..16]) + ([8, 5] + LeBytes(s.versionComparisonStamp, 4))
      + [9, 1, s.buildType] + [10, 1, s.signingType] + [4, 1, s.writeProtectState] + [11, 1, s.firmwareState]
      + [12, 3, s.securityVersionNumber % 256, s.securityVersionNumber / 256]
      + [14, 3, s.signingKeyIndex % 256, s.signingKeyIndex / 256]
  {
    var ts := SlotTags(s);
    var a, b, c := [ts[0], ts[1], ts[2]], [ts[3], ts[4], ts[5]], [ts[6], ts[7]];
    assert ts == a + (b + c);
    EmitAllAppend(a, b + c);
    EmitAllAppend(b, c);
    Three(ts[0], ts[1], ts[2]);
    Three(ts[3], ts[4], ts[5]);
    EmitAllCons(ts[6], [ts[7]]);
    EmitAllCons(ts[7], []);
    OneByteTag(6, s.slotId);
    OneByteTag(9, s.buildType);
    OneByteTag(10, s.signingType);
    OneByteTag(4, s.writeProtectState);
    OneByteTag(11, s.firmwareState);
    TwoByteTag(12, s.securityVersionNumber);
    TwoByteTag(14, s.signingKeyIndex);
    assert Pow2(2) == 4 && Emit(ts[1]) == [8, 5] + LeBytes(s.versionComparisonStamp, 4);
    assert Emit(ts[0]) == [7, 9] + s.version[..16];
  }

  lemma FrontLayout(instanceId: nat, info: Info)
    requires instanceId <= INSTANCE_MAX && InfoFits(info)
    ensures |EncodeResp(instanceId, info)| >= TAGS_AT
    ensures var n := 7 + 9 * |info.slots|;
      EncodeResp(instanceId, info)[..TAGS_AT] == [0x10, 0xde, instanceId, 0x89, 6, 1, 0, n % 256, n / 256]
  {
    EncodedSize(instanceId, info);
    TwoByteTag(0, TagCount(|info.slots|));
    assert Emit(FixedTlv(0, 1, TagCount(|info.slots|)))[2..] == LeBytes(TagCount(|info.slots|), 2);
  }

  /** Whoever receives a response, or a failure, reads from its header that it is
      one, of the firmware type, and for which instance ID. */
  lemma HeaderReadBack(instanceId: nat, info: Info, cc: byte, reason: nat, was: HeaderInfo)
    requires instanceId <= INSTANCE_MAX
    ensures |EncodeResp(instanceId, info)| >= HDR_LEN && |EncodeFailure(instanceId, cc, reason)| >= HDR_LEN
    ensures Unpacked(EncodeResp(instanceId, info), was) == (Success, HeaderInfo(RESPONSE, instanceId, 6))
    ensures Unpacked(EncodeFailure(instanceId, cc, reason), was) == (Success, HeaderInfo(RESPONSE, instanceId, 6))
  {
    var h := HeaderInfo(RESPONSE, instanceId, 6);
    assert MsgHeader(instanceId) == Packed(h, OCP_VERSION);
    HeaderRoundTrip(h, OCP_VERSION, EncodeResp(instanceId, info)[5..], was);
    HeaderRoundTrip(h, OCP_VERSION, EncodeFailure(instanceId, cc, reason)[5..], was);
    assert EncodeResp(instanceId, info) == MsgHeader(instanceId) + EncodeResp(instanceId, info)[5..];
    assert EncodeFailure(instanceId, cc, reason) == MsgHeader(instanceId) + EncodeFailure(instanceId, cc, reason)[5..];
  }
}
