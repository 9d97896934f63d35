/** The header of every message (libnsm/base.c) */
module NsmHeader {
  import opened Bits
  import opened Nsm

  const PCI_VENDOR_ID := 0x10de
  const OCP_TYPE := 8
  const OCP_VERSION := 9
  const OCP_VERSION_V2 := 10

  /** nsm_msg_type */
  const RESPONSE := 0
  const EVENT_ACKNOWLEDGMENT := 1
  const REQUEST := 2
  const EVENT := 3

  /** sizeof(nsm_msg_hdr) */
  const HDR_LEN := 5

  /** nsm_header_info */
  datatype HeaderInfo = HeaderInfo(msgType: byte, instanceId: byte, nvidiaType: byte)

  predicate Packable(h: HeaderInfo) {
    h.msgType <= EVENT && h.instanceId <= INSTANCE_MAX
  }

  predicate IsDatagram(msgType: byte) {
    msgType == EVENT_ACKNOWLEDGMENT || msgType == EVENT
  }

  predicate IsRequest(msgType: byte) {
    msgType == REQUEST || msgType == EVENT
  }

  /** Vendor ID, highest byte first; instance ID (5 bits), reserved, datagram and
      request; OCP version and type (4 bits each); and the message type */
  function Packed(h: HeaderInfo, version: nat): (b: seq<byte>)
    requires Packable(h) && version < 16
    ensures |b| == HDR_LEN
  {
    [PCI_VENDOR_ID / 256, PCI_VENDOR_ID % 256,
     h.instanceId + (if IsDatagram(h.msgType) then 64 else 0) + (if IsRequest(h.msgType) then 128 else 0),
     version + 16 * OCP_TYPE, h.nvidiaType]
  }

  /** pack_nsm_header, or pack_nsm_header_v2 */
  method PackHeader(h: HeaderInfo, v2: bool, msg: array<byte>) returns (rc: Rc)
    requires msg.Length >= HDR_LEN
    modifies msg
    ensures rc == if Packable(h) then Success else ErrorData
    ensures msg[..] == if Packable(h) then Packed(h, if v2 then 10 else 9) + old(msg[..])[5..] else old(msg[..])
  {
    if h.msgType != RESPONSE && h.msgType != REQUEST && h.msgType != EVENT && h.msgType != EVENT_ACKNOWLEDGMENT {
      return ErrorData;
    }
    if h.instanceId > INSTANCE_MAX { return ErrorData; }
    var datagram, request := 0, 0;
    if h.msgType == EVENT_ACKNOWLEDGMENT || h.msgType == EVENT { datagram := 1; }
    if h.msgType == REQUEST || h.msgType == EVENT { request := 1; }
    msg[0], msg[1] := PCI_VENDOR_ID / 256, PCI_VENDOR_ID % 256;
    msg[2] := h.instanceId + 64 * datagram + 128 * request;
    msg[3] := OCP_VERSION + 16 * OCP_TYPE;
    msg[4] := h.nvidiaType;
    if v2 { msg[3] := OCP_VERSION_V2 + 16 * OCP_TYPE; }
    rc := Success;
  }

  /** unpack_nsm_header: result, and the header or what was passed in */
  function Unpacked(b: seq<byte>, was: HeaderInfo): (Rc, HeaderInfo)
    requires |b| >= HDR_LEN
  {
    if b[0] as int * 256 + b[1] != PCI_VENDOR_ID || b[3] / 16 != OCP_TYPE then (ErrorData, was)
    else if b[3] % 16 != OCP_VERSION && b[3] % 16 != OCP_VERSION_V2 then (ErrorData, was)
    else
      var request, datagram := b[2] / 128 == 1, b[2] / 64 % 2 == 1;
      (Success,
       HeaderInfo(if !request then (if datagram then EVENT_ACKNOWLEDGMENT else RESPONSE)
                  else if datagram then EVENT else REQUEST,
                  b[2] % 32, b[4]))
  }

  method UnpackHeader(msg: array<byte>, was: HeaderInfo) returns (rc: Rc, h: HeaderInfo)
    requires msg.Length >= HDR_LEN
    ensures (rc, h) == Unpacked(msg[..], was)
  {
    h := was;
    if msg[0] as int * 256 + msg[1] != PCI_VENDOR_ID { return ErrorData, h; }
    if msg[3] / 16 != OCP_TYPE { return ErrorData, h; }
    if msg[3] % 16 != OCP_VERSION && msg[3] % 16 != OCP_VERSION_V2 { return ErrorData, h; }
    var request, datagram := msg[2] / 128, msg[2] / 64 % 2;
    if request == 0 {
      h := h.(msgType := if datagram == 1 then EVENT_ACKNOWLEDGMENT else RESPONSE);
    } else {
      h := h.(msgType := if datagram == 1 then EVENT else REQUEST);
    }
    h := h.(instanceId := msg[2] % 32, nvidiaType := msg[4]);
    rc := Success;
  }

  /** Every header is read back, in either version and whatever follows; with any
      other version it is refused. */
  lemma HeaderRoundTrip(h: HeaderInfo, version: nat, rest: seq<byte>, was: HeaderInfo)
    requires Packable(h) && version < 16
    ensures Unpacked(Packed(h, version) + rest, was) == if version in {9, 10} then (Success, h) else (ErrorData, was)
  {
    var b := Packed(h, version) + rest;
    assert b[..5] == Packed(h, version);
  }

  /** Five bytes are a header exactly if they carry vendor, type and one of the two
      versions; packed again it gives these bytes exactly if the reserved bit was
      zero. */
  lemma UnpackIff(b: seq<byte>, was: HeaderInfo)
    requires |b| == HDR_LEN
    ensures var (rc, h) := Unpacked(b, was);
      && (rc == Success <==> b[0] == 0x10 && b[1] == 0xde && b[3] in {0x89, 0x8a})
      && (rc != Success ==> rc == ErrorData && h == was)
      && (rc == Success ==> h == HeaderInfo(b[2] / 64, b[2] % 32, b[4]))
      && (rc == Success ==> Packable(h) && (Packed(h, b[3] % 16) == b <==> b[2] / 32 % 2 == 0))
  {
  }
}
