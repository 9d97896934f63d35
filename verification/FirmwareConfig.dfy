/** Irreversible firmware configuration: key permissions and minimum security
  versions (mockupResponder/firmwareUtils.cpp).
 */
module FirmwareConfig {
  import opened Bits
  import opened Bitmap
  import opened Wrappers

  const FIXED_NONCE := 123456789

  /** irreversible_cfg_request_types */
  const QUERY := 0
  const DISABLE := 1
  const ENABLE := 2

  /** nsm_code_auth_key_perm_request_type and sec_update_request_types */
  const MOST_RESTRICTIVE := 0
  const SPECIFIED := 1

  const AP := 0x0010
  const EC := 0xFF00

  const SUCCESS := 0
  const INVALID_DATA := 2
  const INVALID_DATA_LENGTH := 3
  const CONFIG_DISABLED := 0x87
  const NONCE_MISMATCH := 0x88

  const METHOD_AUTO := 0x1
  const METHOD_DC_POWER_CYCLE := 0x10
  const METHOD_DC_AC_POWER_CYCLE := 0x30

  /** nsm_firmware_security_version_number_resp */
  datatype Versions = Versions(active: nat, pending: nat, minimum: nat, pendingMinimum: nat)

  /** The fields that some request can change or that decide what it does */
  datatype Rot = Rot(
    config: nat,
    ec: Versions,
    ap: Versions,
    apKeyIndex: nat,
    ecKeyIndex: nat,
    apPendingEfuse: seq<byte>,
    ecEfuse: seq<byte>,
    ecPendingEfuse: seq<byte>)

  function Init(): Rot {
    Rot(0, Versions(3, 4, 0, 0), Versions(3, 4, 1, 0), 6, 2, Blank(8), Blank(1), Blank(1))
  }

  /** Requests as decoded */
  datatype Request =
    | Irreversible(kind: nat)
    | KeyPerm(kind: nat, classification: nat, identifier: nat, classIndex: nat, nonce: nat, bitmap: seq<byte>)
    | MinVersion(kind: nat, identifier: nat, nonce: nat, version: nat)

  /** What is answered: the code, and the update method, state or nonce with it */
  datatype Reply = Reply(cc: nat, info: nat)

  /** The shortest bitmap with exactly the bits below k */
  function MostRestrictive(k: nat): (b: seq<byte>)
    ensures forall n: nat :: |b| <= n <==> k <= 8 * n
  {
    seq((k + 7) / 8, i requires 0 <= i < (k + 7) / 8 => LowBits(if k >= 8 * i + 8 then 8 else k - 8 * i))
  }

  function LowBits(n: nat): byte
    requires n <= 8
  {
    WordSizes();
    Pow2Monotone(n, 8);
    Pow2(n) - 1
  }

  /** What a request asks to be set */
  function Asked(s: Rot, r: Request): seq<byte>
    requires r.KeyPerm?
  {
    if r.kind != MOST_RESTRICTIVE then r.bitmap
    else if r.identifier == AP then MostRestrictive(s.apKeyIndex)
    else MostRestrictive(s.ecKeyIndex)
  }

  /** `a[i] |= b[i]` */
  function OrInto(a: seq<byte>, b: seq<byte>): (c: seq<byte>)
    requires |b| <= |a|
    ensures |c| == |a|
  {
    seq(|a|, i requires 0 <= i < |a| => if i < |b| then OrByte(a[i], b[i]) else a[i])
  }

  function OrByte(a: byte, b: byte): byte {
    WordSizes();
    OrFits(a, b, 8);
    Or(a, b)
  }

  // -------------------------------------------------------------- the decision

  predicate WellFormed(r: Request)
    requires r.KeyPerm?
  {
    && (r.kind == MOST_RESTRICTIVE || r.kind == SPECIFIED)
    && (r.kind == MOST_RESTRICTIVE ==> r.bitmap == [])
    && r.classification == 0x000A && r.classIndex == 0
    && (r.identifier == AP || r.identifier == EC)
  }

  /** The completion code, by the first reason there is to refuse */
  function KeyPermCode(s: Rot, r: Request): nat
    requires r.KeyPerm?
  {
    if !WellFormed(r) then INVALID_DATA
    else if s.config == 0 then CONFIG_DISABLED
    else if r.nonce != FIXED_NONCE then NONCE_MISMATCH
    else if |r.bitmap| > |if r.identifier == AP then s.apPendingEfuse else s.ecEfuse| then INVALID_DATA_LENGTH
    else SUCCESS
  }

  /** The minimum version a request asks for */
  function Wanted(s: Rot, r: Request): nat
    requires r.MinVersion?
  {
    if r.kind != MOST_RESTRICTIVE then r.version else if r.identifier == EC then s.ec.active else s.ap.active
  }

  function MinVersionCode(s: Rot, r: Request): nat
    requires r.MinVersion?
  {
    var v := Wanted(s, r);
    if r.kind == SPECIFIED && v == 0 then INVALID_DATA
    else if r.nonce != FIXED_NONCE then NONCE_MISMATCH
    else if s.config == 0 then CONFIG_DISABLED
    else if r.kind == MOST_RESTRICTIVE then SUCCESS
    else if r.identifier == EC then if s.ec.minimum <= v <= s.ec.active then SUCCESS else INVALID_DATA
    else if 0 < v <= s.ap.active then SUCCESS else INVALID_DATA
  }

  predicate Accepted(s: Rot, r: Request) {
    (r.KeyPerm? && KeyPermCode(s, r) == SUCCESS) || (r.MinVersion? && MinVersionCode(s, r) == SUCCESS)
  }

  predicate SizesOk(s: Rot) {
    && |s.apPendingEfuse| == 8 && |s.ecEfuse| == 1 && |s.ecPendingEfuse| == 1
    && s.apKeyIndex <= 64 && s.ecKeyIndex <= 8
  }

  /** The state after a request */
  function After(s: Rot, r: Request): Rot
    requires SizesOk(s)
  {
    if r.Irreversible? then
      s.(config := if r.kind == DISABLE then 0 else if r.kind == ENABLE then 1 else s.config)
    else if !Accepted(s, r) then s
    else if r.KeyPerm? then
      AskedFits(s, r);
      var c := Asked(s, r);
      if r.identifier == AP then s.(apPendingEfuse := OrInto(s.apPendingEfuse, c))
      else s.(ecEfuse := OrInto(s.ecEfuse, c), ecPendingEfuse := OrInto(s.ecPendingEfuse, c))
    else if r.identifier == EC then s.(ec := s.ec.(minimum := Wanted(s, r)))
    else s.(ap := s.ap.(pendingMinimum := Wanted(s, r)))
  }

  function Answer(s: Rot, r: Request): Reply {
    match r
    case Irreversible(kind) =>
      Reply(SUCCESS, if kind == QUERY then s.config else if kind == ENABLE then FIXED_NONCE else 0)
    case KeyPerm(_, _, _, _, _, _) =>
      var cc := KeyPermCode(s, r);
      Reply(cc, if cc != SUCCESS then 0 else if r.identifier == AP then METHOD_DC_POWER_CYCLE else METHOD_AUTO)
    case MinVersion(_, _, _, _) =>
      var cc := MinVersionCode(s, r);
      Reply(cc, if cc != SUCCESS then 0 else if r.identifier == EC then METHOD_AUTO else METHOD_DC_AC_POWER_CYCLE)
  }

  lemma AskedFits(s: Rot, r: Request)
    requires SizesOk(s) && r.KeyPerm? && Accepted(s, r)
    ensures |Asked(s, r)| <= |if r.identifier == AP then s.apPendingEfuse else s.ecEfuse|
  {
  }

  lemma {:induction false} LowBitsMean(n: nat, i: nat)
    ensures HasBit(Pow2(n) - 1, i) <==> i < n
  {
    if n == 0 {
      ZeroBit(i);
    } else if i > 0 {
      assert (Pow2(n) - 1) / 2 == Pow2(n - 1) - 1;
      LowBitsMean(n - 1, i - 1);
    }
  }

  /** A most restrictive request sets exactly the bits below the active key
      index.  The bytes it takes fit a fuse of n bytes, so that the writes are in
      bounds, exactly up to key index 8n. */
  lemma MostRestrictiveMeans(k: nat)
    ensures var b := MostRestrictive(k);
      (forall i: nat | i < 8 * |b| :: Bit(b, i) <==> i < k) && forall n: nat :: |b| <= n <==> k <= 8 * n
  {
    var b := MostRestrictive(k);
    forall i: nat | i < 8 * |b| ensures Bit(b, i) <==> i < k {
      var c := i / 8;
      LowBitsMean(if k >= 8 * c + 8 then 8 else k - 8 * c, i % 8);
    }
  }

  /** and it is what the list of those indices gives. */
  lemma MostRestrictiveFromIndices(k: nat, s: seq<byte>)
    requires k == |s| <= 256 && forall i | 0 <= i < k :: s[i] == i
    ensures ToBitmap(s, 0) == Ok(MostRestrictive(k))
  {
    ToBitmapMeans(s, 0);
    MostRestrictiveMeans(k);
    var b, m := ToBitmap(s, 0).value, MostRestrictive(k);
    forall n: nat ensures AllBelow(s, 8 * n) <==> k <= 8 * n {
      if k > 8 * n { assert s[k - 1] in s; }
    }
    assert |b| <= |m| <==> AllBelow(s, 8 * |m|);
    assert |b| <= |b| <==> AllBelow(s, 8 * |b|);
    forall i: nat | i < 8 * |b| ensures Bit(b, i) <==> Bit(m, i) {
      if i < k { assert s[i] in s; }
    }
    SameBitmap(b, m);
  }

  // ---------------------------------------------------------------- the code

  class FirmwareStateMachine {
    var configState: nat
    var sec_respEc: Versions
    var sec_respAp: Versions
    var apActiveComponentKeyIndex: nat
    var ecActiveComponentKeyIndex: nat
    const apPendingEfuseKeyPerm: array<byte>
    const ecEfuseKeyPerm: array<byte>
    const ecPendingEfuseKeyPerm: array<byte>

    function State(): Rot
      reads this, apPendingEfuseKeyPerm, ecEfuseKeyPerm, ecPendingEfuseKeyPerm
    {
      Rot(configState, sec_respEc, sec_respAp, apActiveComponentKeyIndex, ecActiveComponentKeyIndex,
          apPendingEfuseKeyPerm[..], ecEfuseKeyPerm[..], ecPendingEfuseKeyPerm[..])
    }

    ghost predicate Valid()
      reads this, apPendingEfuseKeyPerm, ecEfuseKeyPerm, ecPendingEfuseKeyPerm
    {
      && SizesOk(State())
      && apPendingEfuseKeyPerm != ecEfuseKeyPerm && apPendingEfuseKeyPerm != ecPendingEfuseKeyPerm
      && ecEfuseKeyPerm != ecPendingEfuseKeyPerm
    }

    constructor ()
      ensures Valid() && State() == Init()
    {
      configState, sec_respEc, sec_respAp := 0, Versions(3, 4, 0, 0), Versions(3, 4, 1, 0);
      apActiveComponentKeyIndex, ecActiveComponentKeyIndex := 6, 2;
      apPendingEfuseKeyPerm := new byte[8](_ => 0);
      ecEfuseKeyPerm := new byte[1](_ => 0);
      ecPendingEfuseKeyPerm := new byte[1](_ => 0);
    }

    method IrreversibleConfig(kind: nat) returns (r: Reply)
      requires Valid()
      modifies this
      ensures Valid() && State() == After(old(State()), Irreversible(kind))
      ensures r == Answer(old(State()), Irreversible(kind))
    {
      r := Reply(SUCCESS, 0);
      if kind == QUERY {
        r := Reply(SUCCESS, configState);
      } else if kind == DISABLE {
        configState := 0;
      } else if kind == ENABLE {
        configState := 1;
        r := Reply(SUCCESS, FIXED_NONCE);
      }
    }

    method CodeAuthKeyPermUpdate(kind: nat, classification: nat, identifier: nat, classIndex: nat, nonce: nat,
                                 bitmap: seq<byte>)
      returns (r: Reply)
      requires Valid()
      modifies apPendingEfuseKeyPerm, ecEfuseKeyPerm, ecPendingEfuseKeyPerm
      ensures Valid()
      ensures State() == After(old(State()), KeyPerm(kind, classification, identifier, classIndex, nonce, bitmap))
      ensures r == Answer(old(State()), KeyPerm(kind, classification, identifier, classIndex, nonce, bitmap))
    {
      if kind != MOST_RESTRICTIVE && kind != SPECIFIED { return Reply(INVALID_DATA, 0); }
      if kind == MOST_RESTRICTIVE && |bitmap| != 0 { return Reply(INVALID_DATA, 0); }
      if classification != 0x000A { return Reply(INVALID_DATA, 0); }
      if classIndex != 0 { return Reply(INVALID_DATA, 0); }
      if identifier != AP && identifier != EC { return Reply(INVALID_DATA, 0); }
      if configState == 0 { return Reply(CONFIG_DISABLED, 0); }
      if nonce != FIXED_NONCE { return Reply(NONCE_MISMATCH, 0); }
      var toSet := bitmap;
      if identifier == AP {
        if kind == MOST_RESTRICTIVE { toSet := BitmapBelow(apActiveComponentKeyIndex); }
        if |bitmap| > apPendingEfuseKeyPerm.Length { return Reply(INVALID_DATA_LENGTH, 0); }
        OrBytes(apPendingEfuseKeyPerm, toSet);
        r := Reply(SUCCESS, METHOD_DC_POWER_CYCLE);
      } else {
        if kind == MOST_RESTRICTIVE { toSet := BitmapBelow(ecActiveComponentKeyIndex); }
        if |bitmap| > ecEfuseKeyPerm.Length { return Reply(INVALID_DATA_LENGTH, 0); }
        OrBytes(ecEfuseKeyPerm, toSet);
        OrBytes(ecPendingEfuseKeyPerm, toSet);
        r := Reply(SUCCESS, METHOD_AUTO);
      }
    }

    method UpdateMinSecurityVersion(kind: nat, identifier: nat, nonce: nat, version: nat) returns (r: Reply)
      requires Valid()
      modifies this
      ensures Valid() && State() == After(old(State()), MinVersion(kind, identifier, nonce, version))
      ensures r == Answer(old(State()), MinVersion(kind, identifier, nonce, version))
    {
      if kind == SPECIFIED && version == 0 { return Reply(INVALID_DATA, 0); }
      if nonce != FIXED_NONCE { return Reply(NONCE_MISMATCH, 0); }
      if configState == 0 { return Reply(CONFIG_DISABLED, 0); }
      if kind == MOST_RESTRICTIVE {
        if identifier == EC {
          sec_respEc := sec_respEc.(minimum := sec_respEc.active);
          r := Reply(SUCCESS, METHOD_AUTO);
        } else {
          sec_respAp := sec_respAp.(pendingMinimum := sec_respAp.active);
          r := Reply(SUCCESS, METHOD_DC_AC_POWER_CYCLE);
        }
      } else if identifier == EC {
        if version >= sec_respEc.minimum && version <= sec_respEc.active {
          sec_respEc := sec_respEc.(minimum := version);
          r := Reply(SUCCESS, METHOD_AUTO);
        } else {
          r := Reply(INVALID_DATA, 0);
        }
      } else {
        if version > 0 && version <= sec_respAp.active {
          sec_respAp := sec_respAp.(pendingMinimum := version);
          r := Reply(SUCCESS, METHOD_DC_AC_POWER_CYCLE);
        } else {
          r := Reply(INVALID_DATA, 0);
        }
      }
    }
  }

  /** The list of indices and its bitmap */
  method BitmapBelow(keyIndex: nat) returns (bitmap: seq<byte>)
    requires keyIndex <= 256
    ensures bitmap == MostRestrictive(keyIndex)
  {
    var indices: seq<byte> := [];
    var i := 0;
    while i < keyIndex
      invariant 0 <= i <= keyIndex && |indices| == i && forall j | 0 <= j < i :: indices[j] == j
    {
      indices := indices + [i % 256];
      i := i + 1;
    }
    MostRestrictiveFromIndices(keyIndex, indices);
    var r := IndicesToBitmap(indices, 0);
    bitmap := r.value;
  }

  method OrBytes(a: array<byte>, b: seq<byte>)
    requires |b| <= a.Length
    modifies a
    ensures a[..] == OrInto(old(a[..]), b)
  {
    var i := 0;
    while i < |b|
      invariant 0 <= i <= |b|
      invariant forall j | 0 <= j < a.Length :: a[j] == if j < i then OrByte(old(a[j]), b[j]) else old(a[j])
    {
      a[i] := OrByte(a[i], b[i]);
      i := i + 1;
    }
  }

  // -------------------------------------------------- over all request sequences

  lemma SizesStayOk(s: Rot, r: Request)
    requires SizesOk(s)
    ensures SizesOk(After(s, r))
  {
  }

  /** The state after the first n requests */
  function StateAt(rs: seq<Request>, n: nat): (s: Rot)
    requires n <= |rs|
    ensures SizesOk(s)
  {
    if n == 0 then Init()
    else
      SizesStayOk(StateAt(rs, n - 1), rs[n - 1]);
      After(StateAt(rs, n - 1), rs[n - 1])
  }

  /** Request i was accepted and asked for bit k of component `id` */
  predicate Contributes(rs: seq<Request>, i: nat, id: nat, k: nat)
    requires i < |rs|
  {
    var s, r := StateAt(rs, i), rs[i];
    r.KeyPerm? && Accepted(s, r) && r.identifier == id && k < 8 * |Asked(s, r)| && Bit(Asked(s, r), k)
  }

  lemma OrIntoBit(a: seq<byte>, b: seq<byte>, k: nat)
    requires |b| <= |a| && k < 8 * |a|
    ensures Bit(OrInto(a, b), k) <==> Bit(a, k) || (k < 8 * |b| && Bit(b, k))
  {
    if k / 8 < |b| { OrBit(a[k / 8], b[k / 8], k % 8); }
  }

  /** Bit k of the fuse: the pending one of the AP, either one of the EC */
  predicate FuseBit(s: Rot, id: nat, k: nat)
    requires SizesOk(s)
  {
    if id == AP then k < 64 && Bit(s.apPendingEfuse, k) else k < 8 && Bit(s.ecEfuse, k)
  }

  /** One request sets the bits it contributes, and clears none */
  lemma FuseStep(rs: seq<Request>, n: nat, id: nat, k: nat)
    requires n < |rs| && (id == AP || id == EC)
    ensures FuseBit(StateAt(rs, n + 1), id, k) <==> FuseBit(StateAt(rs, n), id, k) || Contributes(rs, n, id, k)
  {
    var s, r := StateAt(rs, n), rs[n];
    if r.KeyPerm? && Accepted(s, r) {
      var c := Asked(s, r);
      AskedFits(s, r);
      if r.identifier == id == AP && k < 64 { OrIntoBit(s.apPendingEfuse, c, k); }
      if r.identifier == id == EC && k < 8 { OrIntoBit(s.ecEfuse, c, k); }
    }
  }

  /** What is refused changes nothing, and what is answered with success was
      done: every bit asked for is set, or the minimum asked for is in place. */
  lemma AnswersAreTruthful(s: Rot, r: Request, k: nat)
    requires SizesOk(s) && !r.Irreversible?
    ensures Answer(s, r).cc != SUCCESS ==> After(s, r) == s
    ensures Answer(s, r).cc == SUCCESS && r.KeyPerm? && k < 8 * |Asked(s, r)| && Bit(Asked(s, r), k) ==>
      FuseBit(After(s, r), r.identifier, k)
    ensures Answer(s, r).cc == SUCCESS && r.MinVersion? ==>
      if r.identifier == EC then After(s, r).ec.minimum == if r.kind == 0 then s.ec.active else r.version
      else After(s, r).ap.pendingMinimum == if r.kind == 0 then s.ap.active else r.version
  {
    if Accepted(s, r) && r.KeyPerm? && k < 8 * |Asked(s, r)| {
      AskedFits(s, r);
      OrIntoBit(if r.identifier == AP then s.apPendingEfuse else s.ecEfuse, Asked(s, r), k);
    }
  }

  /** Over every sequence of requests, the pending fuse of the AP is the OR of
      what its accepted updates asked for, and so is the fuse of the EC, */
  lemma {:induction false} FuseIsOrOfAccepted(rs: seq<Request>, n: nat, id: nat, k: nat)
    requires n <= |rs| && (id == AP || id == EC)
    ensures FuseBit(StateAt(rs, n), id, k) <==> exists i: nat :: i < n && Contributes(rs, i, id, k)
  {
    if n == 0 {
      ZeroBit(k % 8);
    } else {
      FuseIsOrOfAccepted(rs, n - 1, id, k);
      FuseStep(rs, n - 1, id, k);
    }
  }

  /** which is always the same as its pending one. */
  lemma {:induction false} EcFusesAgree(rs: seq<Request>, n: nat)
    requires n <= |rs|
    ensures StateAt(rs, n).ecEfuse == StateAt(rs, n).ecPendingEfuse
  {
    if n > 0 { EcFusesAgree(rs, n - 1); }
  }

  /** So no bit is ever cleared */
  lemma FuseBitsStay(rs: seq<Request>, m: nat, n: nat, id: nat, k: nat)
    requires m <= n <= |rs| && (id == AP || id == EC) && FuseBit(StateAt(rs, m), id, k)
    ensures FuseBit(StateAt(rs, n), id, k)
  {
    FuseIsOrOfAccepted(rs, m, id, k);
    FuseIsOrOfAccepted(rs, n, id, k);
  }

  lemma {:induction false} KeyIndicesStay(rs: seq<Request>, n: nat)
    requires n <= |rs|
    ensures StateAt(rs, n).apKeyIndex == 6 && StateAt(rs, n).ecKeyIndex == 2
  {
    if n > 0 { KeyIndicesStay(rs, n - 1); }
  }

  /** An accepted most restrictive request sets exactly the bits below the active
      key index. */
  lemma MostRestrictiveContributes(rs: seq<Request>, n: nat, k: nat)
    requires n < |rs| && rs[n].KeyPerm? && rs[n].kind == MOST_RESTRICTIVE && Accepted(StateAt(rs, n), rs[n])
    ensures Contributes(rs, n, rs[n].identifier, k) <==> k < if rs[n].identifier == AP then 6 else 2
  {
    KeyIndicesStay(rs, n);
    MostRestrictiveMeans(6);
    MostRestrictiveMeans(2);
    var b := if rs[n].identifier == AP then MostRestrictive(6) else MostRestrictive(2);
    assert |b| <= 1;
  }

  // -------------------------------------------------------- security versions

  predicate VersionsOk(s: Rot) {
    s.ec.minimum <= s.ec.active && s.ap.pendingMinimum <= s.ap.active
  }

  /** Neither minimum ever exceeds the active version */
  lemma {:induction false} MinimaBounded(rs: seq<Request>, n: nat)
    requires n <= |rs|
    ensures VersionsOk(StateAt(rs, n))
    ensures StateAt(rs, n).ec.active == 3 && StateAt(rs, n).ap.active == 3 && StateAt(rs, n).ap.minimum == 1
  {
    if n > 0 { MinimaBounded(rs, n - 1); }
  }

  /** and that of the EC never decreases. */
  lemma {:induction false} EcMinimumNeverDecreases(rs: seq<Request>, m: nat, n: nat)
    requires m <= n <= |rs|
    ensures StateAt(rs, m).ec.minimum <= StateAt(rs, n).ec.minimum
    decreases n
  {
    if m < n {
      EcMinimumNeverDecreases(rs, m, n - 1);
      MinimaBounded(rs, n - 1);
    }
  }

  /** The pending minimum of the AP decreases exactly when a specified version
      below it is accepted. */
  lemma ApPendingDecreasesIff(rs: seq<Request>, n: nat)
    requires n < |rs|
    ensures StateAt(rs, n + 1).ap.pendingMinimum < StateAt(rs, n).ap.pendingMinimum <==>
      && rs[n].MinVersion? && rs[n].kind != MOST_RESTRICTIVE && rs[n].identifier != EC
      && rs[n].nonce == FIXED_NONCE && StateAt(rs, n).config != 0
      && (rs[n].kind == SPECIFIED ==> rs[n].version > 0)
      && 0 < rs[n].version < StateAt(rs, n).ap.pendingMinimum
  {
    MinimaBounded(rs, n);
  }

  /** It does: 3 is accepted, and then 1 */
  lemma ApPendingCanDecrease()
    ensures var rs := [Irreversible(ENABLE), MinVersion(SPECIFIED, AP, FIXED_NONCE, 3),
                       MinVersion(SPECIFIED, AP, FIXED_NONCE, 1)];
      StateAt(rs, 2).ap.pendingMinimum == 3 && StateAt(rs, 3).ap.pendingMinimum == 1
  {
    var rs := [Irreversible(ENABLE), MinVersion(SPECIFIED, AP, FIXED_NONCE, 3),
               MinVersion(SPECIFIED, AP, FIXED_NONCE, 1)];
    assert StateAt(rs, 0) == Init();
    assert StateAt(rs, 1) == Init().(config := 1);
    assert StateAt(rs, 2).ap.pendingMinimum == 3;
  }

  // ----------------------------------------------------------------- the guard

  /** Step n enables the configuration and nothing disables it before step m */
  predicate EnabledSince(rs: seq<Request>, n: nat, m: nat)
    requires n < m <= |rs|
  {
    rs[n] == Irreversible(ENABLE) && forall i | n < i < m :: rs[i] != Irreversible(DISABLE)
  }

  lemma {:induction false} ConfigMeans(rs: seq<Request>, n: nat)
    requires n <= |rs|
    ensures StateAt(rs, n).config != 0 <==> exists i: nat :: i < n && EnabledSince(rs, i, n)
  {
    if n > 0 {
      ConfigMeans(rs, n - 1);
      var r := rs[n - 1];
      if r == Irreversible(ENABLE) {
        assert EnabledSince(rs, n - 1, n);
      } else if r == Irreversible(DISABLE) {
        assert forall i: nat | i < n - 1 :: !EnabledSince(rs, i, n);
      } else if StateAt(rs, n - 1).config != 0 {
        var i: nat :| i < n - 1 && EnabledSince(rs, i, n - 1);
        assert EnabledSince(rs, i, n);
      } else {
        forall i: nat | i < n - 1 ensures !EnabledSince(rs, i, n) { assert !EnabledSince(rs, i, n - 1); }
      }
    }
  }

  /** Nothing but the configuration state changes unless the configuration was
      enabled, and not disabled since, and the nonce is right. */
  lemma ChangesAreAuthorized(rs: seq<Request>, n: nat)
    requires n < |rs|
    ensures var s, t, r := StateAt(rs, n), StateAt(rs, n + 1), rs[n];
      t.(config := s.config) != s ==>
        && t.config == s.config && !r.Irreversible? && r.nonce == FIXED_NONCE
        && exists i: nat :: i < n && EnabledSince(rs, i, n)
  {
    ConfigMeans(rs, n);
  }

  /** The two update requests check nonce and state in a different order: with
      both wrong, one reports the state and the other the nonce. */
  lemma OrderOfChecks(s: Rot, kp: Request, mv: Request)
    requires kp.KeyPerm? && WellFormed(kp) && kp.nonce != FIXED_NONCE
    requires mv.MinVersion? && !(mv.kind == SPECIFIED && mv.version == 0) && mv.nonce != FIXED_NONCE
    ensures KeyPermCode(s, kp) != MinVersionCode(s, mv) <==> s.config == 0
  {
  }

  // ------------------------------------------------ exactly what is answered

  /** Some request has enabled the configuration, and none has disabled it since */
  ghost predicate InForce(rs: seq<Request>, n: nat)
    requires n <= |rs|
  {
    exists i: nat :: i < n && EnabledSince(rs, i, n)
  }

  /** The nonce that enabling the configuration is answered with */
  function Nonce(): (nonce: nat)
    ensures nonce == 123456789
  {
    Answer(Init(), Irreversible(ENABLE)).info
  }

  /** Key permissions are for class 10 and index 0 of the AP or the EC; only
      specified ones come with a bitmap */
  predicate MayBeAsked(r: Request)
    requires r.KeyPerm?
  {
    && ((r.kind == 0 && r.bitmap == []) || r.kind == 1)
    && r.classification == 10 && r.classIndex == 0 && r.identifier in {0x0010, 0xFF00}
  }

  function FuseSize(id: nat): nat {
    if id == AP then 8 else 1
  }

  lemma {:induction false} ConfigIsFlag(rs: seq<Request>, n: nat)
    requires n <= |rs|
    ensures StateAt(rs, n).config == if InForce(rs, n) then 1 else 0
  {
    ConfigMeans(rs, n);
    if n > 0 { ConfigIsFlag(rs, n - 1); }
  }

  /** A query tells whether the configuration is in force, and enabling it, always
      with the same nonce, */
  lemma IrreversibleAnswers(rs: seq<Request>, n: nat)
    requires n < |rs| && rs[n].Irreversible?
    ensures Answer(StateAt(rs, n), rs[n]) ==
      Reply(SUCCESS, if rs[n].kind == 0 then (if InForce(rs, n) then 1 else 0)
                     else if rs[n].kind == 2 then Nonce() else 0)
  {
    ConfigIsFlag(rs, n);
  }

  /** which an update of key permissions must have.  For each answer there is,
      exactly when it is given: invalid data (2), configuration disabled (0x87),
      nonce mismatch (0x88), invalid length (3), and success. */
  lemma KeyPermAnswers(rs: seq<Request>, n: nat)
    requires n < |rs| && rs[n].KeyPerm?
    ensures var r, a := rs[n], Answer(StateAt(rs, n), rs[n]);
      && (a == Reply(2, 0) <==> !MayBeAsked(r))
      && (a == Reply(0x87, 0) <==> MayBeAsked(r) && !InForce(rs, n))
      && (a == Reply(0x88, 0) <==> MayBeAsked(r) && InForce(rs, n) && r.nonce != Nonce())
      && (a == Reply(3, 0) <==>
            MayBeAsked(r) && InForce(rs, n) && r.nonce == Nonce() && |r.bitmap| > FuseSize(r.identifier))
      && (a.cc == SUCCESS <==>
            MayBeAsked(r) && InForce(rs, n) && r.nonce == Nonce() && |r.bitmap| <= FuseSize(r.identifier))
      && (a.cc == SUCCESS ==> a.info == if r.identifier == AP then METHOD_DC_POWER_CYCLE else METHOD_AUTO)
  {
    ConfigIsFlag(rs, n);
  }

  /** The version asked for is one that may become the minimum: for the EC from
      the minimum it has, for the AP from 1, up to the active version. */
  predicate InRange(rs: seq<Request>, n: nat)
    requires n < |rs| && rs[n].MinVersion?
  {
    var v := rs[n].version;
    rs[n].kind == 0 || (v <= 3 && if rs[n].identifier == EC then StateAt(rs, n).ec.minimum <= v else v > 0)
  }

  /** The same for minimum versions */
  lemma MinVersionAnswers(rs: seq<Request>, n: nat)
    requires n < |rs| && rs[n].MinVersion?
    ensures var r, a, asked := rs[n], Answer(StateAt(rs, n), rs[n]), !(rs[n].kind == 1 && rs[n].version == 0);
      && (a == Reply(0x88, 0) <==> asked && r.nonce != Nonce())
      && (a == Reply(0x87, 0) <==> asked && r.nonce == Nonce() && !InForce(rs, n))
      && (a == Reply(2, 0) <==>
            !asked || (r.nonce == Nonce() && InForce(rs, n) && !InRange(rs, n)))
      && (a.cc == SUCCESS <==> asked && r.nonce == Nonce() && InForce(rs, n) && InRange(rs, n))
      && (a.cc == SUCCESS ==> a.info == if r.identifier == EC then METHOD_AUTO else METHOD_DC_AC_POWER_CYCLE)
  {
    ConfigIsFlag(rs, n);
    MinimaBounded(rs, n);
  }

  /** Request i is an update of component `id` that has to be accepted, and asks for
      bit k */
  ghost predicate Authorised(rs: seq<Request>, i: nat, id: nat, k: nat)
    requires i < |rs|
  {
    var r := rs[i];
    && r.KeyPerm? && MayBeAsked(r) && r.identifier == id && InForce(rs, i) && r.nonce == Nonce()
    && |r.bitmap| <= FuseSize(id)
    && if r.kind == 0 then k < if id == AP then 6 else 2 else k < 8 * |r.bitmap| && Bit(r.bitmap, k)
  }

  /** A bit of a fuse is set exactly by the requests so far that were authorised to,
      whatever they were answered. */
  lemma FuseIffAuthorised(rs: seq<Request>, n: nat, id: nat, k: nat)
    requires n <= |rs| && (id == AP || id == EC)
    ensures FuseBit(StateAt(rs, n), id, k) <==> exists i: nat :: i < n && Authorised(rs, i, id, k)
  {
    FuseIsOrOfAccepted(rs, n, id, k);
    forall i: nat | i < n ensures Contributes(rs, i, id, k) <==> Authorised(rs, i, id, k) {
      if rs[i].KeyPerm? {
        KeyPermAnswers(rs, i);
        if rs[i].kind == 0 && Accepted(StateAt(rs, i), rs[i]) { MostRestrictiveContributes(rs, i, k); }
      }
    }
  }

  /** A request changes nothing but what it is for */
  lemma OthersStay(s: Rot, r: Request)
    requires SizesOk(s)
    ensures var t := After(s, r);
      && t.ec == s.ec.(minimum := t.ec.minimum) && t.ap == s.ap.(pendingMinimum := t.ap.pendingMinimum)
      && t.apKeyIndex == s.apKeyIndex && t.ecKeyIndex == s.ecKeyIndex
      && (t.config != s.config ==> r.Irreversible?)
      && (t.ec != s.ec ==> r.MinVersion? && r.identifier == EC)
      && (t.ap != s.ap ==> r.MinVersion? && r.identifier != EC)
      && (t.apPendingEfuse != s.apPendingEfuse ==> r.KeyPerm? && r.identifier == AP)
      && (t.ecEfuse != s.ecEfuse || t.ecPendingEfuse != s.ecPendingEfuse ==> r.KeyPerm? && r.identifier == EC)
  {
  }
}
