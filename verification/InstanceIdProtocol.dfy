/** Any number of processes sharing the instance ID lock file.

  Steps are single fcntl calls, so that processes interleave, fail and die
  between any two of them.  Locks follow fcntl(2), "Open file description
  locks".  File descriptors that belong to no context stand for programs that
  lock the file for purposes of their own.
 */
module InstanceIdProtocol {
  import opened Bits
  import opened InstanceId
  import opened InstanceIdFairness

  type Fd = nat

  datatype Pc =
    | Idle
    | InAlloc(eid: nat, replies: seq<Reply>)
    | InUnlock(eid: nat, iid: nat)  // before the fcntl call of instance_id_free
    | InClear(eid: nat, iid: nat)   // between it and clearing the bit

  /** One open context; `history` records what its finished calls found out */
  datatype Proc = Proc(states: seq<EidState>, history: seq<seq<Event>>, pc: Pc) {
    predicate Valid() {
      && |states| == MCTP_EID_MAX && |history| == MCTP_EID_MAX
      && (forall e | 0 <= e < MCTP_EID_MAX :: states[e].Valid())
      && (!pc.Idle? ==> pc.eid < MCTP_EID_MAX)
      && ((pc.InUnlock? || pc.InClear?) ==> pc.iid < INST_ID_MAX)
    }

    /** The point of the call in progress */
    function At(): Point
      requires Valid() && pc.InAlloc?
    {
      Run(states[pc.eid], pc.replies, |pc.replies|)
    }

    /** An instance ID the caller may use: from the end of a successful
        instance_id_alloc to the unlock of instance_id_free */
    predicate Holds(eid: nat, iid: nat)
      requires Valid() && eid < MCTP_EID_MAX && iid < INST_ID_MAX
    {
      HasBit(states[eid].allocations, iid) && pc != InClear(eid, iid)
    }
  }

  function NewProc(): Proc {
    Proc(seq(MCTP_EID_MAX, _ => INITIAL), seq(MCTP_EID_MAX, _ => []), Idle)
  }

  /** The contexts, and the shared and exclusive locks as (descriptor, byte) */
  datatype System = System(procs: map<Fd, Proc>, readers: set<(Fd, nat)>, writers: set<(Fd, nat)>)

  const EMPTY := System(map[], {}, {})

  datatype Action =
    | Open(p: Fd)
    | CallAlloc(p: Fd, eid: nat)
    | Answer(p: Fd, reply: Reply)
    | CallFree(p: Fd, eid: nat, iid: nat)
    | ClearBit(p: Fd)
    | Close(p: Fd)                // instance_db_destroy, or the process dies
    | ForeignLock(f: Fd, at: nat, exclusive: bool)
    | ForeignUnlock(f: Fd, at: nat)

  /** The byte of the lock file that stands for an instance ID */
  function Offset(eid: nat, iid: nat): nat {
    eid * INST_ID_MAX + iid
  }

  lemma OffsetInjective(eid: nat, iid: nat, eid': nat, iid': nat)
    requires iid < INST_ID_MAX && iid' < INST_ID_MAX && Offset(eid, iid) == Offset(eid', iid')
    ensures eid == eid' && iid == iid'
  {
  }

  /** There are 8192 of them, each for one endpoint and instance ID */
  lemma OffsetBijective(at: nat)
    ensures at < 8192 <==>
      exists eid: nat, iid: nat :: eid < MCTP_EID_MAX && iid < INST_ID_MAX && Offset(eid, iid) == at
  {
    if at < 8192 { assert Offset(at / 32, at % 32) == at; }
  }

  ghost predicate OtherReader(s: System, p: Fd, at: nat) {
    exists q: Fd :: q != p && (q, at) in s.readers
  }

  ghost predicate OtherWriter(s: System, p: Fd, at: nat) {
    exists q: Fd :: q != p && (q, at) in s.writers
  }

  /** F_OFD_GETLK with F_WRLCK: the type of a lock that is in the way */
  ghost function ProbeResult(s: System, p: Fd, at: nat): LockType {
    if OtherWriter(s, p, at) then WrLck
    else if OtherReader(s, p, at) then RdLck
    else Unlck
  }

  /** The kernel may fail any fcntl call; it grants and reports locks correctly */
  ghost predicate Answerable(s: System, p: Fd, reply: Reply)
    requires p in s.procs && s.procs[p].Valid()
  {
    var proc := s.procs[p];
    match proc.pc
    case InAlloc(eid, _) =>
      (match proc.At()
       case AtReserve(i) => reply.Error? || !OtherWriter(s, p, Offset(eid, i))
       case AtProbe(i) => reply.Error? || reply.ltype == ProbeResult(s, p, Offset(eid, i))
       case _ => false)
    case InUnlock(_, _) => true
    case _ => false
  }

  ghost predicate Enabled(s: System, a: Action)
    requires AllValid(s)
  {
    match a
    case Open(p) => p !in s.procs && (forall b: nat :: (p, b) !in s.readers && (p, b) !in s.writers)
    case CallAlloc(p, eid) => p in s.procs && s.procs[p].pc.Idle? && eid < MCTP_EID_MAX
    case Answer(p, reply) => p in s.procs && Answerable(s, p, reply)
    case CallFree(p, eid, iid) => p in s.procs && s.procs[p].pc.Idle? && eid < MCTP_EID_MAX && iid < 64
    case ClearBit(p) => p in s.procs && s.procs[p].pc.InClear?
    case Close(p) => p in s.procs
    case ForeignLock(f, b, exclusive) =>
      f !in s.procs && !OtherWriter(s, f, b) && (exclusive ==> !OtherReader(s, f, b))
    case ForeignUnlock(f, b) => f !in s.procs
  }

  /** instance_id_alloc up to its next fcntl call, or to its return */
  function Proceed(proc: Proc, eid: nat, replies: seq<Reply>): Proc
    requires proc.Valid() && eid < MCTP_EID_MAX
  {
    var st := proc.states[eid];
    var pt := Run(st, replies, |replies|);
    if pt.Waiting() then proc.(pc := InAlloc(eid, replies))
    else Proc(proc.states[eid := Commit(st, pt)],
              proc.history[eid := proc.history[eid] + Log(st, replies, |replies|)], Idle)
  }

  /** The kernel's answer to the fcntl call that context p waits for */
  function Answered(s: System, p: Fd, reply: Reply): System
    requires p in s.procs && s.procs[p].Valid()
    requires s.procs[p].pc.InAlloc? || s.procs[p].pc.InUnlock?
  {
    var proc := s.procs[p];
    if proc.pc.InAlloc? then
      System(s.procs[p := Proceed(proc, proc.pc.eid, proc.pc.replies + [reply])],
             if proc.At().AtReserve? && reply.Ok? then s.readers + {(p, Offset(proc.pc.eid, proc.At().iid))}
             else s.readers,
             s.writers)
    else if reply.Error? then
      s.(procs := s.procs[p := proc.(pc := Idle)])
    else
      System(s.procs[p := proc.(pc := InClear(proc.pc.eid, proc.pc.iid))],
             s.readers - {(p, Offset(proc.pc.eid, proc.pc.iid))},
             s.writers)
  }

  /** The end of a successful instance_id_free */
  function Cleared(proc: Proc): Proc
    requires proc.Valid() && proc.pc.InClear?
  {
    Proc(proc.states[proc.pc.eid := Release(proc.states[proc.pc.eid], proc.pc.iid)],
         proc.history[proc.pc.eid := proc.history[proc.pc.eid] + [Freed(proc.pc.iid)]],
         Idle)
  }

  function WithoutFd(locks: set<(Fd, nat)>, p: Fd): set<(Fd, nat)> {
    set l | l in locks && l.0 != p
  }

  ghost function Apply(s: System, a: Action): System
    requires AllValid(s) && Enabled(s, a)
  {
    match a
    case Open(p) => s.(procs := s.procs[p := NewProc()])
    case CallAlloc(p, eid) => s.(procs := s.procs[p := Proceed(s.procs[p], eid, [])])
    case Answer(p, reply) => Answered(s, p, reply)
    case CallFree(p, eid, iid) =>
      if HasBit(s.procs[p].states[eid].allocations, iid)
      then s.(procs := s.procs[p := s.procs[p].(pc := InUnlock(eid, iid))])
      else s
    case ClearBit(p) => s.(procs := s.procs[p := Cleared(s.procs[p])])
    case Close(p) => System(s.procs - {p}, WithoutFd(s.readers, p), WithoutFd(s.writers, p))
    case ForeignLock(f, b, exclusive) =>
      if exclusive then System(s.procs, s.readers - {(f, b)}, s.writers + {(f, b)})
      else System(s.procs, s.readers + {(f, b)}, s.writers - {(f, b)})
    case ForeignUnlock(f, b) => System(s.procs, s.readers - {(f, b)}, s.writers - {(f, b)})
  }

  ghost predicate AllValid(s: System) {
    forall p <- s.procs :: s.procs[p].Valid()
  }

  ghost predicate Step(s: System, a: Action, s': System) {
    AllValid(s) && Enabled(s, a) && s' == Apply(s, a)
  }

  ghost predicate IsRun(trace: seq<System>, acts: seq<Action>) {
    && |trace| == |acts| + 1 && trace[0] == EMPTY
    && forall k | 0 <= k < |acts| :: Step(trace[k], acts[k], trace[k + 1])
  }

  /** A program that is no context can lock any byte that others do not lock against
      it.  As long as it does so, no context can reserve the ID, if the lock is
      exclusive, or else no probe finds it free. */
  lemma ForeignLockBlocks(s: System, f: Fd, b: nat, exclusive: bool)
    requires AllValid(s) && f !in s.procs && !OtherWriter(s, f, b) && (exclusive ==> !OtherReader(s, f, b))
    ensures Enabled(s, ForeignLock(f, b, exclusive))
    ensures forall p | p != f ::
      var t := Apply(s, ForeignLock(f, b, exclusive));
      ProbeResult(t, p, b) == if exclusive then WrLck else RdLck
  {
    var t := Apply(s, ForeignLock(f, b, exclusive));
    assert (f, b) in if exclusive then t.writers else t.readers;
    forall p | p != f ensures ProbeResult(t, p, b) == if exclusive then WrLck else RdLck {
      if exclusive { assert OtherWriter(t, p, b); } else { assert OtherReader(t, p, b) && !OtherWriter(t, p, b); }
    }
  }

  // ------------------------------------------------------- what steps preserve

  /** Locks of one descriptor exclude those of another */
  ghost predicate LocksOk(s: System) {
    && (forall p, q, b: nat | (p, b) in s.writers && (q, b) in s.readers :: false)
    && (forall p, q, b: nat | (p, b) in s.writers && (q, b) in s.writers :: p == q)
    && (forall p, b: nat | p in s.procs :: (p, b) !in s.writers)
  }

  /** What a context counts on is backed by its locks.  A probe that failed or
      was contended leaves a lock behind, so the converse does not hold. */
  ghost predicate Backed(p: Fd, proc: Proc, readers: set<(Fd, nat)>) {
    && proc.Valid()
    && (forall e: nat, i: nat | e < MCTP_EID_MAX && i < INST_ID_MAX && proc.Holds(e, i) :: (p, Offset(e, i)) in readers)
    && (proc.pc.InAlloc? ==> proc.At().Waiting())
    && (proc.pc.InAlloc? && proc.At().AtProbe? ==> (p, Offset(proc.pc.eid, proc.At().iid)) in readers)
    && (proc.pc.InUnlock? || proc.pc.InClear? ==> HasBit(proc.states[proc.pc.eid].allocations, proc.pc.iid))
  }

  ghost predicate Exclusive(s: System)
    requires AllValid(s)
  {
    forall p, q, e: nat, i: nat | p in s.procs && q in s.procs && e < MCTP_EID_MAX && i < INST_ID_MAX
      && s.procs[p].Holds(e, i) && s.procs[q].Holds(e, i) :: p == q
  }

  ghost predicate Inv(s: System) {
    && (forall p <- s.procs :: Backed(p, s.procs[p], s.readers))
    && LocksOk(s)
    && Exclusive(s)
  }

  lemma AllProcsValid(s: System)
    requires Inv(s)
    ensures AllValid(s)
  {
    forall q <- s.procs ensures s.procs[q].Valid() { assert Backed(q, s.procs[q], s.readers); }
  }

  lemma FinishedCall(proc: Proc, eid: nat, replies: seq<Reply>)
    requires proc.Valid() && eid < MCTP_EID_MAX
    ensures Proceed(proc, eid, replies).Valid()
  {
    var pt := Run(proc.states[eid], replies, |replies|);
    if pt.Granted? { CommitAllocates(proc.states[eid], pt); }
  }

  /** After a grant, a context holds what it held and the granted ID */
  lemma GrantHolds(proc: Proc, eid: nat, replies: seq<Reply>, e: nat, i: nat)
    requires proc.Valid() && eid < MCTP_EID_MAX && e < MCTP_EID_MAX && i < INST_ID_MAX
    requires proc.pc.InAlloc? || proc.pc.Idle?
    requires Proceed(proc, eid, replies).Valid()
    ensures Proceed(proc, eid, replies).Holds(e, i) <==>
              proc.Holds(e, i) || (e == eid && Run(proc.states[eid], replies, |replies|) == Granted(i))
  {
    HoldsAfter(proc, Proceed(proc, eid, replies), eid, Run(proc.states[eid], replies, |replies|), e, i);
  }

  lemma HoldsAfter(proc: Proc, proc': Proc, eid: nat, pt: Point, e: nat, i: nat)
    requires proc.Valid() && proc'.Valid() && eid < MCTP_EID_MAX && e < MCTP_EID_MAX && i < INST_ID_MAX
    requires !proc.pc.InClear? && !proc'.pc.InClear?
    requires proc'.states == if pt.Waiting() then proc.states else proc.states[eid := Commit(proc.states[eid], pt)]
    ensures proc'.Holds(e, i) <==> proc.Holds(e, i) || (e == eid && pt == Granted(i))
  {
    CommitBit(proc.states[eid], pt, i);
  }

  /** The answer to the pending fcntl call decides where the call goes */
  lemma AnswerFeeds(proc: Proc, reply: Reply)
    requires proc.Valid() && proc.pc.InAlloc?
    ensures Run(proc.states[proc.pc.eid], proc.pc.replies + [reply], |proc.pc.replies| + 1)
         == Feed(proc.states[proc.pc.eid], proc.At(), reply)
  {
    RunFeeds(proc.states[proc.pc.eid], proc.pc.replies, reply);
  }

  /** One context changes, together with its own shared locks */
  lemma ReplaceKeepsInv(s: System, p: Fd, proc: Proc, readers: set<(Fd, nat)>)
    requires Inv(s) && Backed(p, proc, readers)
    requires forall b: nat :: (p, b) !in s.writers
    requires forall q, b: nat | q != p :: (q, b) in readers <==> (q, b) in s.readers
    requires forall b: nat | (p, b) in readers && (p, b) !in s.readers :: !OtherWriter(s, p, b)
    requires forall e: nat, i: nat | e < MCTP_EID_MAX && i < INST_ID_MAX && proc.Holds(e, i) ::
               (p in s.procs && s.procs[p].Holds(e, i)) || !OtherReader(s, p, Offset(e, i))
    ensures Inv(System(s.procs[p := proc], readers, s.writers))
  {
    var s' := System(s.procs[p := proc], readers, s.writers);
    forall q <- s'.procs ensures Backed(q, s'.procs[q], readers) {
      if q != p { assert Backed(q, s.procs[q], s.readers); }
    }
    forall q, e: nat, i: nat | q in s.procs && q != p && e < MCTP_EID_MAX && i < INST_ID_MAX
                             && s.procs[q].Holds(e, i)
      ensures !proc.Holds(e, i)
    {
      assert (q, Offset(e, i)) in s.readers;
    }
  }

  lemma AnswerAllocKeepsInv(s: System, p: Fd, reply: Reply)
    requires Inv(s) && Enabled(s, Answer(p, reply)) && s.procs[p].pc.InAlloc?
    ensures Inv(Apply(s, Answer(p, reply)))
  {
    var proc := s.procs[p];
    var s', pt, eid, replies := Answered(s, p, reply), proc.At(), proc.pc.eid, proc.pc.replies + [reply];
    var proc' := Proceed(proc, eid, replies);
    AnswerFeeds(proc, reply);
    FinishedCall(proc, eid, replies);
    ArriveInRange(proc.states[eid], Next(pt.iid));
    forall e: nat, i: nat | e < MCTP_EID_MAX && i < INST_ID_MAX
      ensures proc'.Holds(e, i) <==> proc.Holds(e, i) || (e == eid && Feed(proc.states[eid], pt, reply) == Granted(i))
    {
      GrantHolds(proc, eid, replies, e, i);
    }
    ReplaceKeepsInv(s, p, proc', s'.readers);
  }

  lemma UnlockKeepsInv(s: System, p: Fd, reply: Reply)
    requires Inv(s) && Enabled(s, Answer(p, reply)) && s.procs[p].pc.InUnlock?
    ensures Inv(Apply(s, Answer(p, reply)))
  {
    var s' := Answered(s, p, reply);
    var proc, proc' := s.procs[p], s'.procs[p];
    forall e: nat, i: nat | e < MCTP_EID_MAX && i < INST_ID_MAX && proc'.Holds(e, i)
      ensures proc.Holds(e, i) && (p, Offset(e, i)) in s'.readers
    {
      if Offset(e, i) == Offset(proc.pc.eid, proc.pc.iid) { OffsetInjective(e, i, proc.pc.eid, proc.pc.iid); }
    }
    ReplaceKeepsInv(s, p, proc', s'.readers);
  }

  lemma ClearKeepsInv(s: System, p: Fd)
    requires Inv(s) && Enabled(s, ClearBit(p))
    ensures Inv(Apply(s, ClearBit(p)))
  {
    var proc, proc' := s.procs[p], Cleared(s.procs[p]);
    ReleaseRemoves(proc.states[proc.pc.eid], proc.pc.iid);
    forall e: nat, i: nat | e < MCTP_EID_MAX && i < INST_ID_MAX && proc'.Holds(e, i)
      ensures proc.Holds(e, i)
    {
      WithBit(proc.states[proc.pc.eid].allocations, proc.pc.iid, i);
    }
    ReplaceKeepsInv(s, p, proc', s.readers);
  }

  lemma CallKeepsInv(s: System, a: Action)
    requires Inv(s) && Enabled(s, a) && (a.CallAlloc? || a.CallFree? || a.Open?)
    ensures Inv(Apply(s, a))
  {
    var p := a.p;
    match a {
      case Open(_) =>
        forall i: nat ensures !HasBit(INITIAL.allocations, i) { ZeroBit(i); }
        ReplaceKeepsInv(s, p, NewProc(), s.readers);
      case CallAlloc(_, eid) =>
        var proc := s.procs[p];
        ArriveInRange(proc.states[eid], Next(proc.states[eid].prev));
        FinishedCall(proc, eid, []);
        forall e: nat, i: nat | e < MCTP_EID_MAX && i < INST_ID_MAX
          ensures Proceed(proc, eid, []).Holds(e, i) <==> proc.Holds(e, i)
        {
          GrantHolds(proc, eid, [], e, i);
        }
        ReplaceKeepsInv(s, p, Proceed(proc, eid, []), s.readers);
      case CallFree(_, eid, iid) =>
        if HasBit(s.procs[p].states[eid].allocations, iid) {
          WordSizes();
          if iid >= INST_ID_MAX { HighBitClear(s.procs[p].states[eid].allocations, INST_ID_MAX, iid); }
          ReplaceKeepsInv(s, p, s.procs[p].(pc := InUnlock(eid, iid)), s.readers);
        }
    }
  }

  lemma CloseKeepsInv(s: System, p: Fd)
    requires Inv(s) && Enabled(s, Close(p))
    ensures Inv(Apply(s, Close(p)))
  {
    var s' := Apply(s, Close(p));
    forall q <- s'.procs ensures Backed(q, s'.procs[q], s'.readers) {
      assert Backed(q, s.procs[q], s.readers);
    }
  }

  lemma ForeignKeepsInv(s: System, a: Action)
    requires Inv(s) && Enabled(s, a) && (a.ForeignLock? || a.ForeignUnlock?)
    ensures Inv(Apply(s, a))
  {
    var s' := Apply(s, a);
    forall q <- s'.procs ensures Backed(q, s'.procs[q], s'.readers) {
      assert Backed(q, s.procs[q], s.readers);
    }
  }

  lemma StepKeepsInv(s: System, a: Action, s': System)
    requires Inv(s) && Step(s, a, s')
    ensures Inv(s')
  {
    match a {
      case Open(_) => CallKeepsInv(s, a);
      case CallAlloc(_, _) => CallKeepsInv(s, a);
      case CallFree(_, _, _) => CallKeepsInv(s, a);
      case Answer(p, reply) =>
        if s.procs[p].pc.InAlloc? { AnswerAllocKeepsInv(s, p, reply); } else { UnlockKeepsInv(s, p, reply); }
      case ClearBit(p) => ClearKeepsInv(s, p);
      case Close(p) => CloseKeepsInv(s, p);
      case ForeignLock(_, _, _) => ForeignKeepsInv(s, a);
      case ForeignUnlock(_, _) => ForeignKeepsInv(s, a);
    }
  }

  lemma {:induction false} RunKeepsInv(trace: seq<System>, acts: seq<Action>, k: nat)
    requires IsRun(trace, acts) && k < |trace|
    ensures Inv(trace[k])
  {
    if k > 0 {
      RunKeepsInv(trace, acts, k - 1);
      StepKeepsInv(trace[k - 1], acts[k - 1], trace[k]);
    }
  }

  // ------------------------------------------------------------ main results

  /** Over every interleaving of any number of processes, with failing fcntl
      calls, contended probes, frees and deaths at any point, no instance ID of
      an endpoint is in use by two contexts. */
  lemma NoSharedInstanceId(trace: seq<System>, acts: seq<Action>, k: nat)
    requires IsRun(trace, acts) && k < |trace|
    ensures AllValid(trace[k]) && Exclusive(trace[k])
  {
    RunKeepsInv(trace, acts, k);
  }

  /** A context that probes holds the byte, so the probe never meets an
      exclusive lock: the last -EPROTO branch of instance_id_alloc is dead. */
  lemma ProbeNeverMeetsWriter(trace: seq<System>, acts: seq<Action>, k: nat, p: Fd)
    requires IsRun(trace, acts) && k < |trace|
    requires p in trace[k].procs && trace[k].procs[p].Valid()
    requires trace[k].procs[p].pc.InAlloc? && trace[k].procs[p].At().AtProbe?
    ensures ProbeResult(trace[k], p, Offset(trace[k].procs[p].pc.eid, trace[k].procs[p].At().iid)) != WrLck
  {
    RunKeepsInv(trace, acts, k);
    assert Backed(p, trace[k].procs[p], trace[k].readers);
  }

  /** Interleaving is invisible to the code: the answers a call has received so
      far put it where `InstanceDb.Alloc` stands after the same answers, and it
      returns with the state and the findings of that method. */
  lemma CallsBehaveLikeAlloc(trace: seq<System>, acts: seq<Action>, k: nat, p: Fd, reply: Reply)
    requires IsRun(trace, acts) && k < |acts| && acts[k] == Answer(p, reply)
    requires p in trace[k].procs && trace[k].procs[p].Valid() && trace[k].procs[p].pc.InAlloc?
    ensures var proc, proc' := trace[k].procs[p], trace[k + 1].procs[p];
      var st, rs := proc.states[proc.pc.eid], proc.pc.replies + [reply];
      if Run(st, rs, |rs|).Waiting() then proc' == proc.(pc := InAlloc(proc.pc.eid, rs))
      else proc' == Proc(proc.states[proc.pc.eid := Commit(st, Run(st, rs, |rs|))],
                         proc.history[proc.pc.eid := proc.history[proc.pc.eid] + Log(st, rs, |rs|)], Idle)
  {
    assert Step(trace[k], acts[k], trace[k + 1]);
  }

  /** In every run the answer that ends a call tells its result: -EPROTO exactly for
      an fcntl error other than EAGAIN and EINTR, -EAGAIN exactly for these two
      or for the last candidate contended, success exactly for a free probe. */
  lemma ReturnCodes(trace: seq<System>, acts: seq<Action>, k: nat, p: Fd, reply: Reply)
    requires IsRun(trace, acts) && k < |acts| && acts[k] == Answer(p, reply)
    requires p in trace[k].procs && trace[k].procs[p].Valid() && trace[k].procs[p].pc.InAlloc?
    requires p in trace[k + 1].procs && trace[k + 1].procs[p].pc.Idle?
    ensures var proc := trace[k].procs[p];
      var pt := Run(proc.states[proc.pc.eid], proc.pc.replies + [reply], |proc.pc.replies| + 1);
      && (pt == Failed(ErrProto) <==> reply == Error(false))
      && (pt == Failed(ErrAgain) <==> reply == Error(true) || reply == Ok(RdLck))
      && (pt.Granted? <==> reply == Ok(Unlck))
  {
    var proc := trace[k].procs[p];
    var st, rs, n := proc.states[proc.pc.eid], proc.pc.replies + [reply], |proc.pc.replies|;
    CallsBehaveLikeAlloc(trace, acts, k, p, reply);
    RunKeepsInv(trace, acts, k);
    assert Backed(p, proc, trace[k].readers);
    RunPrefix(st, proc.pc.replies, [reply], n);
    LastAnswerTells(st, rs, n + 1);
    if proc.At().AtProbe? { ProbeNeverMeetsWriter(trace, acts, k, p); } else { AnswerFeeds(proc, reply); }
    assert Step(trace[k], acts[k], trace[k + 1]);
  }

  ghost predicate HistoriesOk(s: System)
    requires AllValid(s)
  {
    forall p, e: nat | p in s.procs && e < MCTP_EID_MAX :: HistoryOk(s.procs[p].states[e], s.procs[p].history[e])
  }

  lemma NewHistory()
    ensures HistoryOk(INITIAL, [])
  {
    forall i: nat ensures !HasBit(0, i) { ZeroBit(i); }
    assert INITIAL.Allocated() == {};
  }

  lemma ProceedKeepsHistories(proc: Proc, eid: nat, rs: seq<Reply>)
    requires proc.Valid() && eid < MCTP_EID_MAX
    requires forall e: nat | e < MCTP_EID_MAX :: HistoryOk(proc.states[e], proc.history[e])
    ensures forall e: nat | e < MCTP_EID_MAX ::
              HistoryOk(Proceed(proc, eid, rs).states[e], Proceed(proc, eid, rs).history[e])
  {
    if !Run(proc.states[eid], rs, |rs|).Waiting() {
      FinishedCallIsFair(proc.states[eid], proc.history[eid], rs);
    }
  }

  lemma StepKeepsHistories(s: System, a: Action, s': System)
    requires Inv(s) && Step(s, a, s') && AllValid(s') && HistoriesOk(s)
    ensures HistoriesOk(s')
  {
    match a {
      case Open(p) => NewHistory();
      case CallAlloc(p, eid) =>
        ProceedKeepsHistories(s.procs[p], eid, []);
      case Answer(p, reply) =>
        if s.procs[p].pc.InAlloc? {
          ProceedKeepsHistories(s.procs[p], s.procs[p].pc.eid, s.procs[p].pc.replies + [reply]);
        }
      case ClearBit(p) =>
        FreeIsFair(s.procs[p].states[s.procs[p].pc.eid], s.procs[p].history[s.procs[p].pc.eid], s.procs[p].pc.iid);
      case _ =>
    }
  }

  lemma {:induction false} RunKeepsHistories(trace: seq<System>, acts: seq<Action>, k: nat)
    requires IsRun(trace, acts) && k < |trace|
    ensures AllValid(trace[k]) && HistoriesOk(trace[k])
  {
    RunKeepsInv(trace, acts, k);
    if k > 0 {
      RunKeepsInv(trace, acts, k - 1);
      RunKeepsHistories(trace, acts, k - 1);
      StepKeepsHistories(trace[k - 1], acts[k - 1], trace[k]);
    }
  }

  /** In every context of every run: between two grants of one instance ID all
      31 others were granted or found unavailable, two grants in a row differ,
      and the bitmask holds as many IDs as were granted and not freed. */
  lemma RoundRobinInEveryRun(trace: seq<System>, acts: seq<Action>, k: nat)
    requires IsRun(trace, acts) && k < |trace|
    ensures AllValid(trace[k])
    ensures forall p, e: nat | p in trace[k].procs && e < MCTP_EID_MAX ::
      var st, h := trace[k].procs[p].states[e], trace[k].procs[p].history[e];
      Fair(h) && Alternating(h) && |st.Allocated()| + CountFreed(h) == CountTaken(h)
  {
    RunKeepsHistories(trace, acts, k);
    var s := trace[k];
    forall p, e: nat | p in s.procs && e < MCTP_EID_MAX
      ensures Fair(s.procs[p].history[e]) && Alternating(s.procs[p].history[e])
      ensures |s.procs[p].states[e].Allocated()| + CountFreed(s.procs[p].history[e])
           == CountTaken(s.procs[p].history[e])
    {
      assert HistoryOk(s.procs[p].states[e], s.procs[p].history[e]);
    }
  }
}
