/** The order of the tags in an eROT state response does not matter, except
  where the code makes it matter.
 */
module FirmwareOrder {
  import opened Bits
  import opened LittleEndian
  import opened Nsm
  import opened FirmwareTlv

  predicate DistinctTags(ts: seq<Tlv>) {
    forall i, j | 0 <= i < j < |ts| :: ts[i].tag != ts[j].tag
  }

  /** Tags that differ act on different fields */
  ghost predicate Commutes<S(!new)>(apply: (S, Tlv) -> S) {
    forall s: S, a: Tlv, b: Tlv | a.tag != b.tag :: apply(apply(s, a), b) == apply(apply(s, b), a)
  }

  lemma HdrCommutes()
    ensures Commutes(ApplyHdr)
  {
  }

  lemma SlotCommutes()
    ensures Commutes(ApplySlot)
  {
  }

  function Without(ts: seq<Tlv>, i: nat): seq<Tlv>
    requires i < |ts|
  {
    ts[..i] + ts[i + 1..]
  }

  lemma {:induction false} MoveToFront<S(!new)>(apply: (S, Tlv) -> S, s: S, ts: seq<Tlv>, i: nat)
    requires Commutes(apply) && i < |ts| && DistinctTags(ts)
    ensures Fold(apply, s, ts) == Fold(apply, apply(s, ts[i]), Without(ts, i))
    decreases i
  {
    if i == 0 {
      assert Without(ts, 0) == ts[1..];
    } else {
      var w := Without(ts, i);
      assert w[0] == ts[0] && w[1..] == Without(ts[1..], i - 1);
      MoveToFront(apply, apply(s, ts[0]), ts[1..], i - 1);
      assert apply(apply(s, ts[0]), ts[i]) == apply(apply(s, ts[i]), ts[0]);
    }
  }

  lemma SameTags(ts: seq<Tlv>, us: seq<Tlv>) returns (i: nat)
    requires multiset(ts) == multiset(us) && ts != []
    ensures i < |us| && us[i] == ts[0]
    ensures multiset(ts[1..]) == multiset(Without(us, i))
  {
    assert ts[0] in multiset(us);
    i :| 0 <= i < |us| && us[i] == ts[0];
    assert ts == [ts[0]] + ts[1..];
    assert us == us[..i] + [us[i]] + us[i + 1..];
    assert multiset(ts[1..]) == multiset(ts) - multiset{ts[0]};
    assert multiset(Without(us, i)) == multiset(us) - multiset{us[i]};
  }

  /** Distinct tags have the same effect in any order */
  lemma {:induction false} AnyOrder<S(!new)>(apply: (S, Tlv) -> S, s: S, ts: seq<Tlv>, us: seq<Tlv>)
    requires Commutes(apply) && DistinctTags(ts) && DistinctTags(us) && multiset(ts) == multiset(us)
    ensures Fold(apply, s, ts) == Fold(apply, s, us)
    decreases |ts|
  {
    if ts == [] {
      assert |multiset(us)| == 0;
    } else {
      var i := SameTags(ts, us);
      MoveToFront(apply, s, us, i);
      AnyOrder(apply, apply(s, ts[0]), ts[1..], Without(us, i));
    }
  }

  lemma {:induction false} FoldAppend<S>(apply: (S, Tlv) -> S, s: S, ts: seq<Tlv>, t: Tlv)
    ensures Fold(apply, s, ts + [t]) == apply(Fold(apply, s, ts), t)
    decreases |ts|
  {
    if ts == [] {
      assert [t][1..] == [] && ts + [t] == [t];
    } else {
      assert (ts + [t])[1..] == ts[1..] + [t];
      FoldAppend(apply, apply(s, ts[0]), ts[1..], t);
    }
  }

  lemma Permuted(ts: seq<Tlv>, us: seq<Tlv>)
    requires multiset(ts) == multiset(us)
    ensures |ts| == |us| && forall t :: t in ts <==> t in us
  {
    assert |ts| == |multiset(ts)| && |us| == |multiset(us)|;
    forall t ensures t in ts <==> t in us { assert t in ts <==> t in multiset(ts); }
  }

  /** Distinct header tags before the slot count may come in any order */
  lemma HdrOrderInsensitive(ts: seq<Tlv>, us: seq<Tlv>, sc: Tlv, rest: seq<byte>, count: nat, h: Hdr)
    requires multiset(ts) == multiset(us) && DistinctTags(ts)
    requires forall t <- ts :: WfHdr(t) && t.tag != FIRMWARE_SLOT_COUNT
    requires WfHdr(sc) && sc.tag == FIRMWARE_SLOT_COUNT && count > |ts|
    ensures DecodeHdr(EmitAll(ts) + (Emit(sc) + rest), count, h) == DecodeHdr(EmitAll(us) + (Emit(sc) + rest), count, h)
    ensures DecodeHdr(EmitAll(ts) + (Emit(sc) + rest), count, h)
         == Decoded(Success, ApplyHdr(Fold(ApplyHdr, h, ts), sc), rest, count - |ts| - 1)
  {
    Permuted(ts, us);
    PermutedDistinct(ts, us);
    HdrAccepts(ts, sc, rest, count);
    HdrAccepts(us, sc, rest, count);
    FoldAppend(ApplyHdr, h, ts, sc);
    FoldAppend(ApplyHdr, h, us, sc);
    HdrCommutes();
    AnyOrder(ApplyHdr, h, ts, us);
  }

  /** A slot whose version strings fit wherever they stand */
  lemma {:induction false} FitAnywhere(ts: seq<Tlv>, rest: seq<byte>)
    requires forall t <- ts :: TextFits(t, rest)
    ensures AllFit(TextFits, ts, rest)
    decreases |ts|
  {
    if ts != [] {
      assert TextFits(ts[0], rest);
      FitAnywhere(ts[1..], rest);
    }
  }

  function MovedLast(ts: seq<Tlv>, i: nat): seq<Tlv>
    requires i < |ts|
  {
    Without(ts, i) + [ts[i]]
  }

  lemma MovedSameTags(ts: seq<Tlv>, i: nat)
    requires i < |ts|
    ensures multiset(MovedLast(ts, i)) == multiset(ts) && multiset([ts[i]] + Without(ts, i)) == multiset(ts)
  {
    assert ts == ts[..i] + [ts[i]] + ts[i + 1..];
  }

  /** The tags of a slot are accepted in every order exactly when each version
      string, put last, still has six bytes: strings of one or two bytes are
      refused at the end of the payload only. */
  lemma AllOrdersAcceptedIff(ts: seq<Tlv>, rest: seq<byte>)
    ensures (forall us: seq<Tlv> | multiset(us) == multiset(ts) :: AllFit(TextFits, us, rest))
       <==> (forall t <- ts :: TextFits(t, rest))
  {
    if forall t <- ts :: TextFits(t, rest) {
      forall us: seq<Tlv> | multiset(us) == multiset(ts) ensures AllFit(TextFits, us, rest) {
        Permuted(us, ts);
        FitAnywhere(us, rest);
      }
    } else {
      var i :| 0 <= i < |ts| && !TextFits(ts[i], rest);
      MovedSameTags(ts, i);
      LastMustFit(Without(ts, i), ts[i], rest);
    }
  }

  lemma {:induction false} LastMustFit(ts: seq<Tlv>, t: Tlv, rest: seq<byte>)
    requires !TextFits(t, rest)
    ensures !AllFit(TextFits, ts + [t], rest)
    decreases |ts|
  {
    if ts == [] {
      assert ts + [t] == [t] && [t][1..] == [];
      assert EmitAll([]) + rest == rest;
    } else {
      assert (ts + [t])[1..] == ts[1..] + [t];
      LastMustFit(ts[1..], t, rest);
    }
  }

  /** Distinct tags after a slot ID may come in any order, if every version
      string has six bytes even at the end. */
  lemma SlotOrderInsensitive(p: seq<byte>, q: seq<byte>, id: Tlv, ts: seq<Tlv>, us: seq<Tlv>, rest: seq<byte>,
                             count: nat, s: Slot)
    requires IsSlotId(id) && multiset(ts) == multiset(us) && DistinctTags(ts)
    requires forall t <- ts :: WfSlot(t) && TextFits(t, rest)
    requires count > |ts| && EndsSlot(rest, count - |ts| - 1)
    requires p == Emit(id) + (EmitAll(ts) + rest) && q == Emit(id) + (EmitAll(us) + rest)
    ensures DecodeSlot(p, count, s) == DecodeSlot(q, count, s)
    ensures DecodeSlot(p, count, s) == Decoded(Success, Fold(ApplySlot, ApplySlot(s, id), ts), rest, count - |ts| - 1)
  {
    Permuted(ts, us);
    PermutedDistinct(ts, us);
    FitAnywhere(ts, rest);
    FitAnywhere(us, rest);
    SlotAccepts(p, id, ts, rest, count);
    SlotAccepts(q, id, us, rest, count);
    assert ([id] + ts)[1..] == ts && ([id] + us)[1..] == us;
    SlotCommutes();
    AnyOrder(ApplySlot, ApplySlot(s, id), ts, us);
  }

  // ---------------------------------------------------- when the order matters

  /** A slot with these tags after its ID */
  function SlotWith(id: Tlv, ts: seq<Tlv>, rest: seq<byte>): seq<byte> {
    Emit(id) + (EmitAll(ts) + rest)
  }

  lemma {:induction false} EachOnce(ts: seq<Tlv>, t: Tlv)
    requires DistinctTags(ts)
    ensures multiset(ts)[t] <= 1
  {
    if ts != [] {
      EachOnce(ts[1..], t);
      assert ts == [ts[0]] + ts[1..];
      if t == ts[0] { assert t !in ts[1..]; }
    }
  }

  lemma PermutedDistinct(ts: seq<Tlv>, us: seq<Tlv>)
    requires DistinctTags(ts) && multiset(ts) == multiset(us)
    ensures DistinctTags(us)
  {
    forall i, j | 0 <= i < j < |us| ensures us[i].tag != us[j].tag {
      EachOnce(ts, us[i]);
      assert us == us[..j] + [us[j]] + us[j + 1..];
      assert us[i] in us[..j] && us[i] != us[j];
      Permuted(ts, us);
      assert us[i] in ts && us[j] in ts;
    }
  }

  /** In front of another tag a version string always has six bytes */
  lemma FirstFits(t: Tlv, others: seq<Tlv>, rest: seq<byte>)
    requires WfSlot(t) && t.tag == FIRMWARE_VERSION_STRING && others != []
    requires forall u <- others :: WfSlot(u) && u.tag != FIRMWARE_VERSION_STRING
    ensures AllFit(TextFits, [t] + others, rest)
  {
    assert ([t] + others)[1..] == others;
    FitAnywhere(others, rest);
    assert |t.data| >= 1 && WfSlot(others[0]) && |others[0].data| >= 1;
  }

  /** A version string that does not fit at the end: first it is accepted, last
      it is not. */
  lemma FirstAndLast(id: Tlv, ts: seq<Tlv>, rest: seq<byte>, count: nat, s: Slot, i: nat)
    requires IsSlotId(id) && DistinctTags(ts) && (forall t <- ts :: WfSlot(t)) && |ts| > 1
    requires count > |ts| && EndsSlot(rest, count - |ts| - 1) && i < |ts| && !TextFits(ts[i], rest)
    ensures DecodeSlot(SlotWith(id, MovedLast(ts, i), rest), count, s).rc == ErrorLength
    ensures DecodeSlot(SlotWith(id, [ts[i]] + Without(ts, i), rest), count, s).rc == Success
  {
    var others := Without(ts, i);
    LastMustFit(others, ts[i], rest);
    FirstFits(ts[i], others, rest);
    SlotAccepts(SlotWith(id, MovedLast(ts, i), rest), id, MovedLast(ts, i), rest, count);
    SlotAccepts(SlotWith(id, [ts[i]] + others, rest), id, [ts[i]] + others, rest, count);
  }

  /** Whatever the order of the tags, the slot decodes to the same */
  ghost predicate AnyOrderDecodesTheSame(id: Tlv, ts: seq<Tlv>, rest: seq<byte>, count: nat, s: Slot) {
    forall us: seq<Tlv> | multiset(us) == multiset(ts) ::
      DecodeSlot(SlotWith(id, us, rest), count, s) == DecodeSlot(SlotWith(id, ts, rest), count, s)
  }

  lemma FittingInAnyOrder(id: Tlv, ts: seq<Tlv>, rest: seq<byte>, count: nat, s: Slot)
    requires IsSlotId(id) && DistinctTags(ts) && (forall t <- ts :: WfSlot(t))
    requires count > |ts| && EndsSlot(rest, count - |ts| - 1)
    requires |ts| <= 1 || forall t <- ts :: TextFits(t, rest)
    ensures AnyOrderDecodesTheSame(id, ts, rest, count, s)
  {
    forall us: seq<Tlv> | multiset(us) == multiset(ts)
      ensures DecodeSlot(SlotWith(id, us, rest), count, s) == DecodeSlot(SlotWith(id, ts, rest), count, s)
    {
      if |ts| <= 1 {
        SameSingle(us, ts);
      } else {
        SlotOrderInsensitive(SlotWith(id, ts, rest), SlotWith(id, us, rest), id, ts, us, rest, count, s);
      }
    }
  }

  /** The order of distinct slot tags makes no difference if and only if there is
      at most one, or every version string has six bytes even at the end. */
  lemma SlotOrderInsensitiveIff(id: Tlv, ts: seq<Tlv>, rest: seq<byte>, count: nat, s: Slot)
    requires IsSlotId(id) && DistinctTags(ts) && (forall t <- ts :: WfSlot(t))
    requires count > |ts| && EndsSlot(rest, count - |ts| - 1)
    ensures AnyOrderDecodesTheSame(id, ts, rest, count, s)
       <==> |ts| <= 1 || forall t <- ts :: TextFits(t, rest)
  {
    if |ts| <= 1 || forall t <- ts :: TextFits(t, rest) {
      FittingInAnyOrder(id, ts, rest, count, s);
    } else {
      var i :| 0 <= i < |ts| && !TextFits(ts[i], rest);
      MovedSameTags(ts, i);
      FirstAndLast(id, ts, rest, count, s, i);
    }
  }

  lemma SameSingle(us: seq<Tlv>, ts: seq<Tlv>)
    requires multiset(us) == multiset(ts) && |ts| <= 1
    ensures us == ts
  {
    Permuted(us, ts);
    if |ts| == 1 { assert us[0] in ts; }
  }

  /** For one: a string of one byte before the build type is decoded, and after it
      is refused. */
  lemma ShortStringLast(s: Slot)
    ensures var id, text := Tlv(FIRMWARE_SLOT_ID, 1, [0]), Tlv(FIRMWARE_VERSION_STRING, 1, [65]);
      var build := Tlv(BUILD_TYPE, 1, [0]);
      && DecodeSlot(SlotWith(id, [text, build], []), 3, s).rc == Success
      && DecodeSlot(SlotWith(id, [build, text], []), 3, s).rc == ErrorLength
  {
    var id, text := Tlv(FIRMWARE_SLOT_ID, 1, [0]), Tlv(FIRMWARE_VERSION_STRING, 1, [65]);
    var build := Tlv(BUILD_TYPE, 1, [0]);
    FirstAndLast(id, [text, build], [], 3, s, 0);
    assert Without([text, build], 0) == [build] && MovedLast([text, build], 0) == [build, text];
  }
}
