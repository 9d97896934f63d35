/** The instance ID allocator of one process (libnsm/instance-id.c).

  Every fcntl call is answered by the kernel.  The answers are a parameter, so
  that one definition serves a process that runs alone and a process whose
  calls interleave with those of others (module InstanceIdProtocol).
 */
module InstanceId {
  import opened Bits

  const INST_ID_MAX := 32
  const MCTP_EID_MAX := 256

  /** One endpoint's cursor and bitmask of allocated instance IDs */
  datatype EidState = EidState(prev: nat, allocations: nat) {
    predicate Valid() {
      prev < INST_ID_MAX && allocations < UINT32_END
    }

    function Allocated(): set<nat> {
      set i: nat | i < INST_ID_MAX && HasBit(allocations, i)
    }
  }

  const INITIAL := EidState(31, 0)

  datatype Rc = Success | ErrInval | ErrAgain | ErrProto

  /** What F_OFD_GETLK reports in l_type */
  datatype LockType = Unlck | RdLck | WrLck

  /** The kernel's answer to one fcntl call; `again` stands for EAGAIN and EINTR.
      The lock type is meaningful for a probe only. */
  datatype Reply = Error(again: bool) | Ok(ltype: LockType)

  /** Where a call stands between two fcntl calls, or how it ended */
  datatype Point =
    | AtReserve(iid: nat)
    | AtProbe(iid: nat)
    | Granted(iid: nat)
    | Failed(rc: Rc)
  {
    predicate Waiting() { AtReserve? || AtProbe? }
  }

  /** What the scan found out about an instance ID, and frees */
  datatype Event =
    | Skipped(iid: nat)    // already allocated by this context
    | Contended(iid: nat)  // reserved through another file descriptor
    | Taken(iid: nat)
    | Freed(iid: nat)

  /** iid_next */
  function Next(cur: nat): (n: nat)
    requires cur < INST_ID_MAX
    ensures n == Plus(cur, 1)
  {
    (cur + 1) % INST_ID_MAX
  }

  /** Clockwise distance from `from` to `to` */
  function Distance(from: nat, to: nat): (d: nat)
    requires from < INST_ID_MAX && to < INST_ID_MAX
    ensures d < INST_ID_MAX && Plus(from, d) == to
  {
    if from <= to then to - from else to + INST_ID_MAX - from
  }

  /** The instance ID at clockwise distance `d` from `from` */
  function Plus(from: nat, d: nat): (to: nat)
    requires from < INST_ID_MAX && d < INST_ID_MAX
    ensures to < INST_ID_MAX
  {
    if from + d < INST_ID_MAX then from + d else from + d - INST_ID_MAX
  }

  lemma NextIsCloser(n: nat, to: nat)
    requires n < INST_ID_MAX && to < INST_ID_MAX && n != to
    ensures Distance(Next(n), to) == Distance(n, to) - 1
  {
  }

  function ErrorRc(again: bool): Rc {
    if again then ErrAgain else ErrProto
  }

  /** The loop from the moment `n` became the candidate to the next fcntl call */
  function Arrive(st: EidState, n: nat): Point
    requires st.Valid() && n < INST_ID_MAX
    decreases Distance(n, st.prev)
  {
    if n == st.prev then Failed(ErrAgain)
    else if HasBit(st.allocations, n) then Arrive(st, Next(n))
    else AtReserve(n)
  }

  /** The events of Arrive */
  function ArriveLog(st: EidState, n: nat): seq<Event>
    requires st.Valid() && n < INST_ID_MAX
    decreases Distance(n, st.prev)
  {
    if n != st.prev && HasBit(st.allocations, n) then [Skipped(n)] + ArriveLog(st, Next(n)) else []
  }

  function Feed(st: EidState, pt: Point, r: Reply): Point
    requires st.Valid() && (pt.Waiting() ==> pt.iid < INST_ID_MAX)
  {
    match pt
    case AtReserve(i) => if r.Error? then Failed(ErrorRc(r.again)) else AtProbe(i)
    case AtProbe(i) =>
      if r.Error? then Failed(ErrorRc(r.again))
      else if r.ltype == Unlck then Granted(i)
      else if r.ltype == RdLck then Arrive(st, Next(i))
      else Failed(ErrProto)
    case _ => pt
  }

  function FeedLog(st: EidState, pt: Point, r: Reply): seq<Event>
    requires st.Valid() && (pt.Waiting() ==> pt.iid < INST_ID_MAX)
  {
    if !pt.AtProbe? || r.Error? || r.ltype == WrLck then []
    else if r.ltype == Unlck then [Taken(pt.iid)]
    else [Contended(pt.iid)] + ArriveLog(st, Next(pt.iid))
  }

  /** Where a call that started in `st` stands after the first n answers */
  function Run(st: EidState, rs: seq<Reply>, n: nat): (pt: Point)
    requires st.Valid() && n <= |rs|
    ensures !pt.Failed? ==> pt.iid < INST_ID_MAX
    ensures pt.Failed? ==> pt.rc.ErrAgain? || pt.rc.ErrProto?
  {
    if n == 0 then
      ArriveInRange(st, Next(st.prev));
      Arrive(st, Next(st.prev))
    else
      var pt := Run(st, rs, n - 1);
      if pt.AtProbe? then ArriveInRange(st, Next(pt.iid)); Feed(st, pt, rs[n - 1])
      else Feed(st, pt, rs[n - 1])
  }

  /** Everything the call found out up to there */
  function Log(st: EidState, rs: seq<Reply>, n: nat): seq<Event>
    requires st.Valid() && n <= |rs|
  {
    if n == 0 then ArriveLog(st, Next(st.prev))
    else Log(st, rs, n - 1) + FeedLog(st, Run(st, rs, n - 1), rs[n - 1])
  }

  lemma {:induction false} ArriveInRange(st: EidState, n: nat)
    requires st.Valid() && n < INST_ID_MAX
    ensures !Arrive(st, n).Failed? ==> Arrive(st, n).AtReserve? && Arrive(st, n).iid < INST_ID_MAX
    ensures Arrive(st, n).Failed? ==> Arrive(st, n).rc == ErrAgain
    decreases Distance(n, st.prev)
  {
    if n != st.prev && HasBit(st.allocations, n) { ArriveInRange(st, Next(n)); }
  }

  /** Only the answers given matter */
  lemma {:induction false} SameRun(st: EidState, rs: seq<Reply>, qs: seq<Reply>, n: nat)
    requires st.Valid() && n <= |rs| && n <= |qs|
    requires forall i | 0 <= i < n :: rs[i] == qs[i]
    ensures Run(st, qs, n) == Run(st, rs, n)
  {
    if n > 0 {
      SameRun(st, rs, qs, n - 1);
      assert rs[n - 1] == qs[n - 1];
    }
  }

  lemma RunPrefix(st: EidState, rs: seq<Reply>, more: seq<Reply>, n: nat)
    requires st.Valid() && n <= |rs|
    ensures Run(st, rs + more, n) == Run(st, rs, n)
  {
    SameRun(st, rs, rs + more, n);
  }

  /** One more answer */
  lemma RunFeeds(st: EidState, rs: seq<Reply>, r: Reply)
    requires st.Valid()
    ensures Run(st, rs + [r], |rs| + 1) == Feed(st, Run(st, rs, |rs|), r)
  {
    SameRun(st, rs, rs + [r], |rs|);
  }

  /** What a call leaves behind */
  function Commit(st: EidState, pt: Point): EidState {
    if pt.Granted? then EidState(pt.iid, Or(st.allocations, Pow2(pt.iid))) else st
  }

  function Release(st: EidState, iid: nat): EidState {
    st.(allocations := AndNot(st.allocations, Pow2(iid)))
  }

  // ---------------------------------------------------------------- the code

  /** `struct instance_db` */
  class InstanceDb {
    const state: array<EidState>

    ghost predicate Valid()
      reads this, state
    {
      state.Length == MCTP_EID_MAX && forall e | 0 <= e < state.Length :: state[e].Valid()
    }

    constructor ()
      ensures Valid() && fresh(state)
      ensures forall e | 0 <= e < MCTP_EID_MAX :: state[e] == INITIAL
    {
      state := new EidState[MCTP_EID_MAX];
      new;
      for i := 0 to MCTP_EID_MAX
        invariant forall e | 0 <= e < i :: state[e] == INITIAL
      {
        state[i] := INITIAL;
      }
    }

    /** instance_id_alloc.  `replies` answers the fcntl calls in order; no call
        needs more than two answers for each of 31 candidates. */
    method Alloc(eid: nat, replies: seq<Reply>) returns (rc: Rc, iid: nat, used: nat)
      requires Valid() && eid < MCTP_EID_MAX && |replies| >= 62
      modifies state
      ensures Valid() && used <= 62
      ensures Run(old(state[eid]), replies, used) == if rc == Success then Granted(iid) else Failed(rc)
      ensures EndsAt(old(state[eid]), replies, used)
      ensures state[..] == old(state[..])[eid := Commit(old(state[eid]), Run(old(state[eid]), replies, used))]
    {
      iid, used := 0, 0;
      ghost var st := state[eid];
      var l_iid: nat := state[eid].prev;
      if l_iid >= INST_ID_MAX {
        return ErrProto, iid, used;
      }
      l_iid := Next(l_iid);
      while l_iid != state[eid].prev
        invariant 0 <= l_iid < INST_ID_MAX && unchanged(state)
        invariant used <= 62
        invariant Run(st, replies, used) == Arrive(st, l_iid)
        invariant used > 0 ==> Run(st, replies, used - 1).Waiting()
        decreases Distance(l_iid, state[eid].prev)
      {
        NextIsCloser(l_iid, st.prev);
        if HasBit(state[eid].allocations, l_iid) {
          l_iid := Next(l_iid);
          continue;
        }
        AllocTerminates(st, replies, used);
        var reserved := replies[used];
        used := used + 1;
        if reserved.Error? {
          return ErrorRc(reserved.again), iid, used;
        }
        AllocTerminates(st, replies, used);
        var probed := replies[used];
        used := used + 1;
        if probed.Error? {
          return ErrorRc(probed.again), iid, used;
        }
        if probed.ltype == Unlck {
          CommitAllocates(st, Granted(l_iid));
          state[eid] := EidState(l_iid, Or(state[eid].allocations, Pow2(l_iid)));
          return Success, l_iid, used;
        }
        if probed.ltype != RdLck {
          return ErrProto, iid, used;
        }
        l_iid := Next(l_iid);
      }
      return ErrAgain, iid, used;
    }

    /** instance_id_free.  A shift by 64 or more is undefined in C. */
    method Free(eid: nat, iid: nat, reply: Reply) returns (rc: Rc)
      requires Valid() && eid < MCTP_EID_MAX && iid < 64
      modifies state
      ensures Valid()
      ensures rc == ErrInval <==> iid !in old(state[eid]).Allocated()
      ensures rc == Success <==> iid in old(state[eid]).Allocated() && reply.Ok?
      ensures rc == ErrAgain <==> iid in old(state[eid]).Allocated() && reply.Error? && reply.again
      ensures state[..] == if rc == Success then old(state[..])[eid := Release(old(state[eid]), iid)]
                           else old(state[..])
    {
      if iid >= INST_ID_MAX {
        WordSizes();
        HighBitClear(state[eid].allocations, INST_ID_MAX, iid);
      }
      if !HasBit(state[eid].allocations, iid) {
        return ErrInval;
      }
      if reply.Error? {
        return ErrorRc(reply.again);
      }
      ReleaseRemoves(state[eid], iid);
      state[eid] := state[eid].(allocations := AndNot(state[eid].allocations, Pow2(iid)));
      return Success;
    }
  }

  // ------------------------------------------------------ what a call promises

  /** The call ends with the nth answer, and not before */
  predicate EndsAt(st: EidState, rs: seq<Reply>, n: nat)
    requires st.Valid() && n <= |rs|
  {
    !Run(st, rs, n).Waiting() && (n > 0 ==> Run(st, rs, n - 1).Waiting())
  }

  /** What the answers alone say about the result of a call that ends with the nth.
      Reservations and probes alternate. */
  function Told(rs: seq<Reply>, n: nat): Rc
    requires n <= |rs|
  {
    if n == 0 || rs[n - 1] == Error(true) || rs[n - 1] == Ok(RdLck) then ErrAgain
    else if rs[n - 1] == Ok(Unlck) then Success
    else ErrProto
  }

  /** While a call waits, it has reserved and probed in turns, nothing has failed,
      and each probe met a shared lock. */
  lemma {:induction false} WaitsWhileContended(st: EidState, rs: seq<Reply>, n: nat)
    requires st.Valid() && n <= |rs| && Run(st, rs, n).Waiting()
    ensures Run(st, rs, n).AtProbe? <==> n % 2 == 1
    ensures forall k | 0 <= k < n :: rs[k].Ok? && (k % 2 == 1 ==> rs[k].ltype == RdLck)
  {
    if n > 0 {
      WaitsWhileContended(st, rs, n - 1);
      if n % 2 == 0 { ArriveInRange(st, Next(Run(st, rs, n - 1).iid)); }
    } else {
      ArriveInRange(st, Next(st.prev));
    }
  }

  /** A call ends with a failed fcntl call or an answered probe, and its result is
      -EPROTO exactly for an error other than EAGAIN and EINTR or for a probe that
      meets an exclusive lock. */
  lemma LastAnswerTells(st: EidState, rs: seq<Reply>, n: nat)
    requires st.Valid() && n <= |rs| && EndsAt(st, rs, n)
    ensures Run(st, rs, n) == if Told(rs, n) == Success then Granted(Run(st, rs, n).iid) else Failed(Told(rs, n))
    ensures n > 0 && rs[n - 1].Ok? ==> n % 2 == 0
  {
    if n == 0 {
      ArriveInRange(st, Next(st.prev));
    } else {
      WaitsWhileContended(st, rs, n - 1);
      if n % 2 == 0 { ArriveInRange(st, Next(Run(st, rs, n - 1).iid)); }
    }
  }

  ghost predicate InScanOrder(st: EidState, log: seq<Event>)
    requires st.Valid()
  {
    && |log| <= 31
    && forall k | 0 <= k < |log| :: log[k].iid == Plus(st.prev, k + 1)
  }

  /** An event says the truth about the bitmask */
  ghost predicate Truthful(st: EidState, e: Event) {
    && e.iid < INST_ID_MAX
    && !e.Freed?
    && (e.Skipped? <==> HasBit(st.allocations, e.iid))
  }

  ghost predicate NothingTaken(log: seq<Event>) {
    forall k | 0 <= k < |log| :: !log[k].Taken?
  }

  lemma {:induction false} ArriveOrder(st: EidState, n: nat)
    requires st.Valid() && n < INST_ID_MAX
    ensures var log, pt := ArriveLog(st, n), Arrive(st, n);
      && |log| <= Distance(n, st.prev)
      && (forall k | 0 <= k < |log| :: log[k] == Skipped(Plus(n, k)) && HasBit(st.allocations, log[k].iid))
      && (pt.AtReserve? ==> |log| < Distance(n, st.prev) && pt.iid == Plus(n, |log|) && !HasBit(st.allocations, pt.iid))
      && (!pt.AtReserve? ==> |log| == Distance(n, st.prev) && pt == Failed(ErrAgain))
    decreases Distance(n, st.prev)
  {
    if n != st.prev && HasBit(st.allocations, n) {
      ArriveOrder(st, Next(n));
      var rest := ArriveLog(st, Next(n));
      forall k | 0 <= k < |rest| + 1
        ensures ArriveLog(st, n)[k] == Skipped(Plus(n, k)) && HasBit(st.allocations, ArriveLog(st, n)[k].iid)
      {
        if k > 0 { assert ArriveLog(st, n)[k] == rest[k - 1]; }
      }
    }
  }

  /** Where the scan stands: `log` covers the instance IDs visited so far */
  ghost predicate ScanAt(st: EidState, pt: Point, log: seq<Event>)
    requires st.Valid()
  {
    && InScanOrder(st, log)
    && (forall k | 0 <= k < |log| :: Truthful(st, log[k]))
    && (pt.Waiting() ==> |log| < 31 && pt.iid == Plus(st.prev, |log| + 1) && !HasBit(st.allocations, pt.iid))
    && (!pt.Granted? ==> NothingTaken(log))
    && (pt.Granted? ==> |log| > 0 && log[|log| - 1] == Taken(pt.iid) && NothingTaken(log[..|log| - 1]))
  }

  lemma StartScan(st: EidState)
    requires st.Valid()
    ensures ScanAt(st, Arrive(st, Next(st.prev)), ArriveLog(st, Next(st.prev)))
  {
    ArriveOrder(st, Next(st.prev));
    ArriveInRange(st, Next(st.prev));
  }

  lemma ContendedStep(st: EidState, i: nat, log: seq<Event>)
    requires st.Valid() && ScanAt(st, AtProbe(i), log)
    ensures ScanAt(st, Arrive(st, Next(i)), log + [Contended(i)] + ArriveLog(st, Next(i)))
  {
    ArriveOrder(st, Next(i));
    ArriveInRange(st, Next(i));
    assert Distance(Next(i), st.prev) == 30 - |log|;
  }

  lemma FeedStep(st: EidState, pt: Point, log: seq<Event>, r: Reply)
    requires st.Valid() && ScanAt(st, pt, log)
    ensures ScanAt(st, Feed(st, pt, r), log + FeedLog(st, pt, r))
  {
    if pt.AtProbe? && r == Ok(RdLck) {
      ContendedStep(st, pt.iid, log);
      assert log + FeedLog(st, pt, r) == log + [Contended(pt.iid)] + ArriveLog(st, Next(pt.iid));
    } else if pt.AtProbe? && r == Ok(Unlck) {
      assert (log + [Taken(pt.iid)])[..|log|] == log;
    } else {
      assert log + FeedLog(st, pt, r) == log;
    }
  }

  /** Whatever the kernel answers, the scan visits the instance IDs after `prev`
      one by one, says of each whether it was allocated, contended or taken, and
      takes one exactly when the call succeeds. */
  lemma {:induction false} ScanInOrder(st: EidState, rs: seq<Reply>, n: nat)
    requires st.Valid() && n <= |rs|
    ensures ScanAt(st, Run(st, rs, n), Log(st, rs, n))
  {
    if n == 0 {
      StartScan(st);
    } else {
      ScanInOrder(st, rs, n - 1);
      FeedStep(st, Run(st, rs, n - 1), Log(st, rs, n - 1), rs[n - 1]);
    }
  }

  /** Each candidate costs at most two answers */
  lemma {:induction false} AnswersPerCandidate(st: EidState, rs: seq<Reply>, n: nat)
    requires st.Valid() && n <= |rs| && Run(st, rs, n).Waiting()
    ensures n <= 2 * |Log(st, rs, n)| + (if Run(st, rs, n).AtProbe? then 1 else 0)
  {
    if n > 0 { AnswersPerCandidate(st, rs, n - 1); }
  }

  /** The scan ends: no call waits for a 63rd answer, so every call of the
      code returns after at most 62 fcntl calls. */
  lemma AllocTerminates(st: EidState, rs: seq<Reply>, n: nat)
    requires st.Valid() && n <= |rs|
    ensures Run(st, rs, n).Waiting() ==> n < 62
  {
    if Run(st, rs, n).Waiting() {
      ScanInOrder(st, rs, n);
      AnswersPerCandidate(st, rs, n);
    }
  }

  lemma BeforeTheGrant(st: EidState, i: nat, log: seq<Event>, j: nat)
    requires st.Valid() && ScanAt(st, Granted(i), log)
    ensures i == Plus(st.prev, |log|) && i !in st.Allocated()
    ensures j < INST_ID_MAX && 0 < Distance(st.prev, j) < |log| ==> j in st.Allocated() || Contended(j) in log
  {
    assert log[|log| - 1].iid == i && Truthful(st, log[|log| - 1]);
    if j < INST_ID_MAX && 0 < Distance(st.prev, j) < |log| {
      var k := Distance(st.prev, j) - 1;
      assert log[k].iid == j && Truthful(st, log[k]) && !log[..|log| - 1][k].Taken?;
      assert log[k] in log;
    }
  }

  /** An instance ID is granted only if it was free, and every one between the
      previous grant and it was allocated by this context or contended. */
  lemma GrantIsFirstAvailable(st: EidState, rs: seq<Reply>, n: nat, j: nat)
    requires st.Valid() && n <= |rs| && Run(st, rs, n).Granted?
    requires j < INST_ID_MAX && 0 < Distance(st.prev, j) < Distance(st.prev, Run(st, rs, n).iid)
    ensures Run(st, rs, n).iid !in st.Allocated() && Run(st, rs, n).iid != st.prev
    ensures j in st.Allocated() || Contended(j) in Log(st, rs, n)
  {
    ScanInOrder(st, rs, n);
    BeforeTheGrant(st, Run(st, rs, n).iid, Log(st, rs, n), j);
  }

  /** No fcntl call failed, and no probe met an exclusive lock */
  ghost predicate NoErrors(st: EidState, rs: seq<Reply>, n: nat)
    requires st.Valid() && n <= |rs|
  {
    forall k | 0 <= k < n :: NoErrorAt(st, rs, k)
  }

  predicate NoErrorAt(st: EidState, rs: seq<Reply>, k: nat)
    requires st.Valid() && k < |rs|
  {
    rs[k].Ok? && (Run(st, rs, k).AtProbe? ==> rs[k].ltype != WrLck)
  }

  lemma FullLoopStep(st: EidState, pt: Point, log: seq<Event>, r: Reply)
    requires st.Valid() && ScanAt(st, pt, log) && !pt.Failed? && (pt.Waiting() ==> pt.iid < INST_ID_MAX)
    requires r.Ok? && (pt.AtProbe? ==> r.ltype != WrLck) && Feed(st, pt, r).Failed?
    ensures Feed(st, pt, r) == Failed(ErrAgain) && |log + FeedLog(st, pt, r)| == 31
  {
    ArriveOrder(st, Next(pt.iid));
  }

  lemma {:induction false} FullLoop(st: EidState, rs: seq<Reply>, n: nat)
    requires st.Valid() && n <= |rs| && NoErrors(st, rs, n) && Run(st, rs, n).Failed?
    ensures Run(st, rs, n) == Failed(ErrAgain) && |Log(st, rs, n)| == 31
  {
    if n == 0 {
      ArriveOrder(st, Next(st.prev));
    } else if Run(st, rs, n - 1).Failed? {
      FullLoop(st, rs, n - 1);
    } else {
      ScanInOrder(st, rs, n - 1);
      assert NoErrorAt(st, rs, n - 1);
      FullLoopStep(st, Run(st, rs, n - 1), Log(st, rs, n - 1), rs[n - 1]);
    }
  }

  /** A call that fails without an fcntl error has been through all other 31
      instance IDs and found each of them allocated or contended. */
  lemma GivingUpMeansNoneAvailable(st: EidState, rs: seq<Reply>, n: nat, j: nat)
    requires st.Valid() && n <= |rs| && NoErrors(st, rs, n) && Run(st, rs, n).Failed?
    requires j < INST_ID_MAX && j != st.prev
    ensures Run(st, rs, n) == Failed(ErrAgain)
    ensures j in st.Allocated() || Contended(j) in Log(st, rs, n)
  {
    FullLoop(st, rs, n);
    ScanInOrder(st, rs, n);
    var log, k := Log(st, rs, n), Distance(st.prev, j) - 1;
    assert log[k].iid == j && Truthful(st, log[k]) && !log[k].Taken?;
    assert log[k] in log;
  }

  /** A process alone on the lock file: the grant is the first free instance ID
      in circular order, and the call gives up exactly when all other 31 are
      allocated. */
  lemma AloneGrantsFirstFree(st: EidState)
    requires st.Valid()
    ensures var pt := Run(st, [Ok(Unlck), Ok(Unlck)], 2);
      && (pt == Failed(ErrAgain) <==> forall j | 0 <= j < INST_ID_MAX && j != st.prev :: j in st.Allocated())
      && (pt != Failed(ErrAgain) ==>
            && pt.Granted? && pt.iid !in st.Allocated() && pt.iid != st.prev
            && Commit(st, pt).Allocated() == st.Allocated() + {pt.iid}
            && forall j | 0 <= j < INST_ID_MAX && 0 < Distance(st.prev, j) < Distance(st.prev, pt.iid) ::
                 j in st.Allocated())
  {
    var ok := Ok(Unlck);
    ArriveOrder(st, Next(st.prev));
    var log := ArriveLog(st, Next(st.prev));
    forall j: nat | j < INST_ID_MAX && 0 < Distance(st.prev, j) <= |log| ensures j in st.Allocated() {
      assert log[Distance(st.prev, j) - 1].iid == j;
    }
    var pt := Run(st, [ok, ok], 2);
    assert pt == Feed(st, Run(st, [ok, ok], 1), ok) && Run(st, [ok, ok], 1) == Feed(st, Run(st, [ok, ok], 0), ok);
    if pt.Granted? { CommitAllocates(st, pt); }
  }

  lemma CommitBit(st: EidState, pt: Point, i: nat)
    ensures HasBit(Commit(st, pt).allocations, i) <==> HasBit(st.allocations, i) || pt == Granted(i)
  {
    if pt.Granted? { WithBit(st.allocations, pt.iid, i); }
  }

  /** A grant adds its instance ID to the allocated set, and nothing else */
  lemma CommitAllocates(st: EidState, pt: Point)
    requires st.Valid() && pt.Granted? && pt.iid < INST_ID_MAX
    ensures Commit(st, pt).Valid()
    ensures Commit(st, pt).Allocated() == st.Allocated() + {pt.iid}
  {
    WordSizes();
    Pow2Strict(pt.iid, INST_ID_MAX);
    OrFits(st.allocations, Pow2(pt.iid), INST_ID_MAX);
    forall i: nat | i < INST_ID_MAX
      ensures HasBit(Commit(st, pt).allocations, i) <==> i in st.Allocated() || i == pt.iid
    {
      WithBit(st.allocations, pt.iid, i);
    }
  }

  /** A free removes its instance ID from the allocated set, and nothing else */
  lemma ReleaseRemoves(st: EidState, iid: nat)
    requires st.Valid()
    ensures Release(st, iid).Valid()
    ensures Release(st, iid).Allocated() == st.Allocated() - {iid}
  {
    WordSizes();
    AndNotFits(st.allocations, Pow2(iid), INST_ID_MAX);
    forall i: nat | i < INST_ID_MAX
      ensures HasBit(Release(st, iid).allocations, i) <==> i in st.Allocated() && i != iid
    {
      WithBit(st.allocations, iid, i);
    }
  }
}
