/** Shared locks that stay behind: when two contexts keep an instance ID from
  everybody, and when they keep all of them from themselves.
 */
module InstanceIdStarvation {
  import opened Bits
  import opened InstanceId
  import opened InstanceIdFairness
  import opened InstanceIdProtocol

  // ----------------------------------------------------------- one instance ID

  /** Two contexts have both reserved a byte and neither was granted it */
  ghost predicate Stuck(s: System, p: Fd, q: Fd, eid: nat, iid: nat)
    requires AllValid(s) && eid < MCTP_EID_MAX && iid < INST_ID_MAX
  {
    && p != q && p in s.procs && q in s.procs
    && (p, Offset(eid, iid)) in s.readers && (q, Offset(eid, iid)) in s.readers
    && !HasBit(s.procs[p].states[eid].allocations, iid)
    && !HasBit(s.procs[q].states[eid].allocations, iid)
  }

  /** While two contexts hold the byte, nobody is granted its instance ID */
  lemma NobodyGranted(s: System, a: Action, s': System, p: Fd, q: Fd, eid: nat, iid: nat, r: Fd)
    requires Inv(s) && Step(s, a, s') && AllValid(s') && eid < MCTP_EID_MAX && iid < INST_ID_MAX
    requires p != q && (p, Offset(eid, iid)) in s.readers && (q, Offset(eid, iid)) in s.readers
    requires r in s.procs && r in s'.procs && !HasBit(s.procs[r].states[eid].allocations, iid)
    ensures !HasBit(s'.procs[r].states[eid].allocations, iid)
  {
    if a.CallAlloc? && a.p == r {
      ArriveInRange(s.procs[r].states[a.eid], Next(s.procs[r].states[a.eid].prev));
      GrantHolds(s.procs[r], a.eid, [], eid, iid);
    } else if a.Answer? && a.p == r && s.procs[r].pc.InAlloc? {
      AnswerFeeds(s.procs[r], a.reply);
      ArriveInRange(s.procs[r].states[s.procs[r].pc.eid], Next(s.procs[r].At().iid));
      GrantHolds(s.procs[r], s.procs[r].pc.eid, s.procs[r].pc.replies + [a.reply], eid, iid);
      if s.procs[r].At() == AtProbe(iid) && s.procs[r].pc.eid == eid {
        assert OtherReader(s, r, Offset(eid, iid));
      }
    } else if a.ClearBit? && a.p == r {
      AndNotBit(s.procs[r].states[s.procs[r].pc.eid].allocations, Pow2(s.procs[r].pc.iid), iid);
    }
  }

  lemma StuckStep(s: System, a: Action, s': System, p: Fd, q: Fd, eid: nat, iid: nat)
    requires Inv(s) && Step(s, a, s') && AllValid(s') && eid < MCTP_EID_MAX && iid < INST_ID_MAX
    requires Stuck(s, p, q, eid, iid) && a != Close(p) && a != Close(q)
    ensures Stuck(s', p, q, eid, iid)
  {
    NobodyGranted(s, a, s', p, q, eid, iid, p);
    NobodyGranted(s, a, s', p, q, eid, iid, q);
    if a.Answer? && s.procs[a.p].pc.InUnlock? && Offset(s.procs[a.p].pc.eid, s.procs[a.p].pc.iid) == Offset(eid, iid) {
      OffsetInjective(s.procs[a.p].pc.eid, s.procs[a.p].pc.iid, eid, iid);
      assert Backed(a.p, s.procs[a.p], s.readers);
    }
  }

  /** No context is granted the instance ID by this step */
  ghost predicate NotGranted(s: System, s': System, eid: nat, iid: nat)
    requires AllValid(s) && AllValid(s') && eid < MCTP_EID_MAX
  {
    forall r | r in s.procs && r in s'.procs && HasBit(s'.procs[r].states[eid].allocations, iid) ::
      HasBit(s.procs[r].states[eid].allocations, iid)
  }

  lemma {:induction false} StuckPersists(trace: seq<System>, acts: seq<Action>, m: nat, n: nat, p: Fd, q: Fd,
                                         eid: nat, iid: nat)
    requires IsRun(trace, acts) && m <= n < |trace| && eid < MCTP_EID_MAX && iid < INST_ID_MAX
    requires AllValid(trace[m]) && Stuck(trace[m], p, q, eid, iid)
    requires forall k | m <= k < n :: acts[k] != Close(p) && acts[k] != Close(q)
    ensures Inv(trace[n]) && Stuck(trace[n], p, q, eid, iid)
  {
    RunKeepsInv(trace, acts, n);
    if m < n {
      StuckPersists(trace, acts, m, n - 1, p, q, eid, iid);
      StuckStep(trace[n - 1], acts[n - 1], trace[n], p, q, eid, iid);
    }
  }

  /** Once two contexts have reserved a byte that neither was granted, no context
      is granted its instance ID until one of the two is destroyed. */
  lemma StuckUntilClose(trace: seq<System>, acts: seq<Action>, m: nat, n: nat, p: Fd, q: Fd, eid: nat, iid: nat)
    requires IsRun(trace, acts) && m <= n < |acts| && eid < MCTP_EID_MAX && iid < INST_ID_MAX
    requires AllValid(trace[m]) && Stuck(trace[m], p, q, eid, iid)
    requires forall k | m <= k < n :: acts[k] != Close(p) && acts[k] != Close(q)
    ensures AllValid(trace[n]) && AllValid(trace[n + 1]) && NotGranted(trace[n], trace[n + 1], eid, iid)
  {
    StuckPersists(trace, acts, m, n, p, q, eid, iid);
    RunKeepsInv(trace, acts, n + 1);
    forall r | r in trace[n].procs && r in trace[n + 1].procs && !HasBit(trace[n].procs[r].states[eid].allocations, iid)
      ensures !HasBit(trace[n + 1].procs[r].states[eid].allocations, iid)
    {
      NobodyGranted(trace[n], acts[n], trace[n + 1], p, q, eid, iid, r);
    }
  }

  /** Destroying one of the two frees the instance ID for the other exactly
      when no third descriptor holds the byte. */
  lemma CloseUnsticks(s: System, p: Fd, q: Fd, eid: nat, iid: nat)
    requires Inv(s) && eid < MCTP_EID_MAX && iid < INST_ID_MAX && Stuck(s, p, q, eid, iid)
    ensures ProbeResult(Apply(s, Close(q)), p, Offset(eid, iid)) == Unlck
       <==> forall r | (r, Offset(eid, iid)) in s.readers :: r == p || r == q
  {
    var s', b := Apply(s, Close(q)), Offset(eid, iid);
    assert (p, b) in s'.readers;
    assert forall r | r != q :: (r, b) in s'.readers <==> (r, b) in s.readers;
    assert forall r :: (r, b) !in s'.writers;
  }

  // ------------------------------------------------------- all but the previous

  /** Every instance ID a call of p could be granted is kept by two contexts */
  ghost predicate Starving(s: System, p: Fd, eid: nat)
    requires AllValid(s) && eid < MCTP_EID_MAX
  {
    p in s.procs && forall i: nat | i < INST_ID_MAX && i != s.procs[p].states[eid].prev :: Kept(s, eid, i)
  }

  ghost predicate Kept(s: System, eid: nat, i: nat)
    requires AllValid(s) && eid < MCTP_EID_MAX && i < INST_ID_MAX
  {
    exists a: Fd, b: Fd :: Stuck(s, a, b, eid, i)
  }

  /** A probe of a starving context is contended, */
  lemma StarvingProbe(s: System, p: Fd, eid: nat)
    requires AllValid(s) && eid < MCTP_EID_MAX && Starving(s, p, eid)
    requires s.procs[p].pc.InAlloc? && s.procs[p].pc.eid == eid && s.procs[p].At().AtProbe?
    ensures OtherReader(s, p, Offset(eid, s.procs[p].At().iid))
  {
    var proc := s.procs[p];
    var i := proc.At().iid;
    ScanInOrder(proc.states[eid], proc.pc.replies, |proc.pc.replies|);
    assert Kept(s, eid, i);
    var c: Fd, d: Fd :| Stuck(s, c, d, eid, i);
    if c == p { assert (d, Offset(eid, i)) in s.readers; }
  }

  /** so that none of its calls is granted anything; and the others stay stuck. */
  lemma StarvingStep(s: System, a: Action, s': System, p: Fd, eid: nat)
    requires Inv(s) && Step(s, a, s') && AllValid(s') && eid < MCTP_EID_MAX && Starving(s, p, eid) && !a.Close?
    ensures Starving(s', p, eid) && s'.procs[p].states[eid].prev == s.procs[p].states[eid].prev
    ensures CountTaken(s'.procs[p].history[eid]) == CountTaken(s.procs[p].history[eid])
  {
    StarvingStays(s, a, s', p, eid);
    forall i: nat | i < INST_ID_MAX && i != s.procs[p].states[eid].prev ensures Kept(s', eid, i) {
      assert Kept(s, eid, i);
      var c: Fd, d: Fd :| Stuck(s, c, d, eid, i);
      StuckStep(s, a, s', c, d, eid, i);
    }
  }

  lemma StarvingStays(s: System, a: Action, s': System, p: Fd, eid: nat)
    requires Inv(s) && Step(s, a, s') && AllValid(s') && eid < MCTP_EID_MAX && Starving(s, p, eid) && !a.Close?
    ensures p in s'.procs && s'.procs[p].states[eid].prev == s.procs[p].states[eid].prev
    ensures CountTaken(s'.procs[p].history[eid]) == CountTaken(s.procs[p].history[eid])
  {
    var proc := s.procs[p];
    if a == CallAlloc(p, eid) {
      ArriveInRange(proc.states[eid], Next(proc.states[eid].prev));
      QuietCall(proc, eid, []);
    } else if a.Answer? && a.p == p && proc.pc.InAlloc? && proc.pc.eid == eid {
      AnswerFeeds(proc, a.reply);
      ArriveInRange(proc.states[eid], Next(proc.At().iid));
      if proc.At().AtProbe? { StarvingProbe(s, p, eid); }
      QuietCall(proc, eid, proc.pc.replies + [a.reply]);
    } else if a == ClearBit(p) && proc.pc.eid == eid {
      var h := proc.history[eid];
      assert (h + [Freed(proc.pc.iid)])[..|h|] == h;
    }
  }

  /** A call that is not granted anything */
  lemma QuietCall(proc: Proc, eid: nat, rs: seq<Reply>)
    requires proc.Valid() && eid < MCTP_EID_MAX && !Run(proc.states[eid], rs, |rs|).Granted?
    ensures Proceed(proc, eid, rs).states == proc.states
    ensures CountTaken(Proceed(proc, eid, rs).history[eid]) == CountTaken(proc.history[eid])
  {
    var st := proc.states[eid];
    QuietLog(st, rs);
    CountQuiet(proc.history[eid], Log(st, rs, |rs|));
    assert proc.states[eid := st] == proc.states;
  }

  lemma QuietLog(st: EidState, rs: seq<Reply>)
    requires st.Valid() && !Run(st, rs, |rs|).Granted?
    ensures forall k | 0 <= k < |Log(st, rs, |rs|)| :: !Log(st, rs, |rs|)[k].Taken? && !Log(st, rs, |rs|)[k].Freed?
  {
    ScanInOrder(st, rs, |rs|);
    var log := Log(st, rs, |rs|);
    forall k | 0 <= k < |log| ensures !log[k].Taken? && !log[k].Freed? { assert Truthful(st, log[k]); }
  }

  /** From a starving context on, while no context is destroyed: whatever all the
      processes do, its cursor stays and none of its calls is granted anything.
      Its -EAGAIN does not mean that a later call may succeed. */
  lemma {:induction false} StarvesUntilClose(trace: seq<System>, acts: seq<Action>, m: nat, n: nat, p: Fd, eid: nat)
    requires IsRun(trace, acts) && m <= n < |trace| && eid < MCTP_EID_MAX
    requires AllValid(trace[m]) && Starving(trace[m], p, eid)
    requires forall k | m <= k < n :: !acts[k].Close?
    ensures AllValid(trace[n]) && Starving(trace[n], p, eid)
    ensures trace[n].procs[p].states[eid].prev == trace[m].procs[p].states[eid].prev
    ensures CountTaken(trace[n].procs[p].history[eid]) == CountTaken(trace[m].procs[p].history[eid])
  {
    RunKeepsInv(trace, acts, n);
    if m < n {
      StarvesUntilClose(trace, acts, m, n - 1, p, eid);
      RunKeepsInv(trace, acts, n - 1);
      StarvingStep(trace[n - 1], acts[n - 1], trace[n], p, eid);
    }
  }

  // ------------------------------------------------------------ how it happens

  const RESERVED := Ok(Unlck)
  const CONTENDED := Ok(RdLck)

  /** What the kernel answers a call that finds i instance IDs contended */
  function Replies(i: nat): (rs: seq<Reply>)
    ensures |rs| == 2 * i
  {
    if i == 0 then [] else Replies(i - 1) + [RESERVED, CONTENDED]
  }

  lemma FirstArrival(i: nat)
    requires i <= 31
    ensures Arrive(INITIAL, i) == if i < 31 then AtReserve(i) else Failed(ErrAgain)
  {
    ZeroBit(i);
  }

  lemma OneCandidate(rs: seq<Reply>, i: nat)
    requires i < 31 && Run(INITIAL, rs, |rs|) == AtReserve(i)
    ensures Run(INITIAL, rs + [RESERVED], |rs| + 1) == AtProbe(i)
    ensures Run(INITIAL, rs + [RESERVED, CONTENDED], |rs| + 2) == if i < 30 then AtReserve(i + 1) else Failed(ErrAgain)
  {
    RunFeeds(INITIAL, rs, RESERVED);
    RunFeeds(INITIAL, rs + [RESERVED], CONTENDED);
    assert rs + [RESERVED] + [CONTENDED] == rs + [RESERVED, CONTENDED];
    FirstArrival(i + 1);
  }

  lemma {:induction false} FirstCall(i: nat)
    requires i <= 31
    ensures Run(INITIAL, Replies(i), 2 * i) == if i < 31 then AtReserve(i) else Failed(ErrAgain)
  {
    if i == 0 {
      FirstArrival(0);
    } else {
      FirstCall(i - 1);
      OneCandidate(Replies(i - 1), i - 1);
    }
  }

  /** A fresh context in its first call, after these answers */
  function Caller(eid: nat, rs: seq<Reply>): Proc
    requires eid < MCTP_EID_MAX
  {
    Proceed(NewProc(), eid, rs)
  }

  /** Two of them, and the shared locks they hold */
  function Two(eid: nat, rs: seq<Reply>, rs': seq<Reply>, readers: set<(Fd, nat)>): System
    requires eid < MCTP_EID_MAX
  {
    System(map[0 := Caller(eid, rs), 1 := Caller(eid, rs')], readers, {})
  }

  /** Both hold the bytes of the instance IDs below i */
  function BothHold(eid: nat, i: nat): set<(Fd, nat)> {
    if i == 0 then {} else BothHold(eid, i - 1) + {(0, Offset(eid, i - 1)), (1, Offset(eid, i - 1))}
  }

  lemma CallerAt(eid: nat, rs: seq<Reply>)
    requires eid < MCTP_EID_MAX && Run(INITIAL, rs, |rs|).Waiting()
    ensures Caller(eid, rs) == NewProc().(pc := InAlloc(eid, rs)) && Caller(eid, rs).Valid()
    ensures Caller(eid, rs).At() == Run(INITIAL, rs, |rs|)
    ensures forall r :: Proceed(Caller(eid, rs), eid, rs + [r]) == Caller(eid, rs + [r])
  {
  }

  /** One answer to a caller, in a system without exclusive locks */
  lemma AnswerOne(s: System, p: Fd, eid: nat, rs: seq<Reply>, r: Reply, s': System)
    requires AllValid(s) && s.writers == {} && eid < MCTP_EID_MAX && p in s.procs && s.procs[p] == Caller(eid, rs)
    requires s'.procs == s.procs[p := Caller(eid, rs + [r])] && s'.writers == {}
    requires var pt := Run(INITIAL, rs, |rs|);
      || (pt.AtReserve? && r == RESERVED && s'.readers == s.readers + {(p, Offset(eid, pt.iid))})
      || (pt.AtProbe? && r == CONTENDED && s'.readers == s.readers && OtherReader(s, p, Offset(eid, pt.iid)))
    ensures Step(s, Answer(p, r), s')
  {
    CallerAt(eid, rs);
  }

  lemma CallerIsValid(eid: nat, rs: seq<Reply>)
    requires eid < MCTP_EID_MAX && !Run(INITIAL, rs, |rs|).Granted?
    ensures Caller(eid, rs).Valid() && Caller(eid, rs).states == NewProc().states
  {
    QuietCall(NewProc(), eid, rs);
  }

  /** Both contexts reserve the same byte, */
  lemma ReserveFirst(eid: nat, rs: seq<Reply>, i: nat, held: set<(Fd, nat)>, more: set<(Fd, nat)>)
    requires eid < MCTP_EID_MAX && Run(INITIAL, rs, |rs|) == AtReserve(i) && more == held + {(0, Offset(eid, i))}
    ensures Step(Two(eid, rs, rs, held), Answer(0, RESERVED), Two(eid, rs + [RESERVED], rs, more))
  {
    var s, s' := Two(eid, rs, rs, held), Two(eid, rs + [RESERVED], rs, more);
    CallerIsValid(eid, rs);
    assert s'.procs == s.procs[0 := Caller(eid, rs + [RESERVED])];
    AnswerOne(s, 0, eid, rs, RESERVED, s');
  }

  lemma ReserveSecond(eid: nat, rs: seq<Reply>, i: nat, held: set<(Fd, nat)>, more: set<(Fd, nat)>)
    requires eid < MCTP_EID_MAX && Run(INITIAL, rs, |rs|) == AtReserve(i) && more == held + {(1, Offset(eid, i))}
    ensures Step(Two(eid, rs + [RESERVED], rs, held), Answer(1, RESERVED),
                 Two(eid, rs + [RESERVED], rs + [RESERVED], more))
  {
    var s, s' := Two(eid, rs + [RESERVED], rs, held), Two(eid, rs + [RESERVED], rs + [RESERVED], more);
    RunFeeds(INITIAL, rs, RESERVED);
    CallerIsValid(eid, rs);
    CallerIsValid(eid, rs + [RESERVED]);
    assert s'.procs == s.procs[1 := Caller(eid, rs + [RESERVED])];
    AnswerOne(s, 1, eid, rs, RESERVED, s');
  }

  /** and both find it contended. */
  lemma ContendFirst(eid: nat, rs: seq<Reply>, i: nat, held: set<(Fd, nat)>)
    requires eid < MCTP_EID_MAX && Run(INITIAL, rs, |rs|) == AtProbe(i) && (1, Offset(eid, i)) in held
    ensures Step(Two(eid, rs, rs, held), Answer(0, CONTENDED), Two(eid, rs + [CONTENDED], rs, held))
  {
    var s, s' := Two(eid, rs, rs, held), Two(eid, rs + [CONTENDED], rs, held);
    CallerIsValid(eid, rs);
    assert OtherReader(s, 0, Offset(eid, i));
    assert s'.procs == s.procs[0 := Caller(eid, rs + [CONTENDED])];
    AnswerOne(s, 0, eid, rs, CONTENDED, s');
  }

  lemma ContendSecond(eid: nat, rs: seq<Reply>, i: nat, held: set<(Fd, nat)>)
    requires eid < MCTP_EID_MAX && Run(INITIAL, rs, |rs|) == AtProbe(i) && (0, Offset(eid, i)) in held
    ensures Step(Two(eid, rs + [CONTENDED], rs, held), Answer(1, CONTENDED),
                 Two(eid, rs + [CONTENDED], rs + [CONTENDED], held))
  {
    var s, s' := Two(eid, rs + [CONTENDED], rs, held), Two(eid, rs + [CONTENDED], rs + [CONTENDED], held);
    RunFeeds(INITIAL, rs, CONTENDED);
    ArriveInRange(INITIAL, Next(i));
    CallerIsValid(eid, rs);
    CallerIsValid(eid, rs + [CONTENDED]);
    assert OtherReader(s, 1, Offset(eid, i));
    assert s'.procs == s.procs[1 := Caller(eid, rs + [CONTENDED])];
    AnswerOne(s, 1, eid, rs, CONTENDED, s');
  }

  lemma Extend(trace: seq<System>, acts: seq<Action>, a: Action, s: System)
    requires IsRun(trace, acts) && Step(trace[|acts|], a, s)
    ensures IsRun(trace + [s], acts + [a])
  {
  }

  lemma ExtendTwice(trace: seq<System>, acts: seq<Action>, a: Action, s: System, b: Action, t: System)
    requires IsRun(trace, acts) && Step(trace[|acts|], a, s) && Step(s, b, t)
    ensures IsRun(trace + [s, t], acts + [a, b])
  {
    Extend(trace, acts, a, s);
    Extend(trace + [s], acts + [a], b, t);
    assert trace + [s] + [t] == trace + [s, t] && acts + [a] + [b] == acts + [a, b];
  }

  /** No fcntl call fails, and nobody else is there */
  predicate Untroubled(a: Action) {
    a.Open? || a.CallAlloc? || (a.Answer? && a.reply.Ok?)
  }

  /** Two fresh contexts before their first fcntl calls */
  lemma BothCall(eid: nat) returns (trace: seq<System>, acts: seq<Action>)
    requires eid < MCTP_EID_MAX
    ensures IsRun(trace, acts) && |acts| == 4 && (forall k | 0 <= k < 4 :: Untroubled(acts[k]))
    ensures trace[4] == Two(eid, [], [], {})
  {
    FirstArrival(0);
    var s1 := Apply(EMPTY, Open(0));
    var s2 := Apply(s1, Open(1));
    var s3 := Apply(s2, CallAlloc(0, eid));
    var s4 := Apply(s3, CallAlloc(1, eid));
    trace, acts := [EMPTY, s1, s2, s3, s4], [Open(0), Open(1), CallAlloc(0, eid), CallAlloc(1, eid)];
    assert s4.procs == Two(eid, [], [], {}).procs;
  }

  function Twice(r: Reply): seq<Action> {
    [Answer(0, r), Answer(1, r)]
  }

  lemma BothReserve(trace: seq<System>, acts: seq<Action>, eid: nat, rs: seq<Reply>, i: nat, held: set<(Fd, nat)>,
                    more: set<(Fd, nat)>)
    returns (trace': seq<System>)
    requires IsRun(trace, acts) && eid < MCTP_EID_MAX && Run(INITIAL, rs, |rs|) == AtReserve(i)
    requires trace[|acts|] == Two(eid, rs, rs, held) && more == held + {(0, Offset(eid, i)), (1, Offset(eid, i))}
    ensures IsRun(trace', acts + Twice(RESERVED))
    ensures trace'[|acts| + 2] == Two(eid, rs + [RESERVED], rs + [RESERVED], more)
  {
    var once, b := rs + [RESERVED], Offset(eid, i);
    ReserveFirst(eid, rs, i, held, held + {(0, b)});
    ReserveSecond(eid, rs, i, held + {(0, b)}, more);
    var s, t := Two(eid, once, rs, held + {(0, b)}), Two(eid, once, once, more);
    ExtendTwice(trace, acts, Answer(0, RESERVED), s, Answer(1, RESERVED), t);
    trace' := trace + [s, t];
  }

  lemma BothContend(trace: seq<System>, acts: seq<Action>, eid: nat, rs: seq<Reply>, i: nat, held: set<(Fd, nat)>)
    returns (trace': seq<System>)
    requires IsRun(trace, acts) && eid < MCTP_EID_MAX && Run(INITIAL, rs, |rs|) == AtProbe(i)
    requires trace[|acts|] == Two(eid, rs, rs, held) && (0, Offset(eid, i)) in held && (1, Offset(eid, i)) in held
    ensures IsRun(trace', acts + Twice(CONTENDED))
    ensures trace'[|acts|] == trace[|acts|] && trace'[|acts| + 1] == Two(eid, rs + [CONTENDED], rs, held)
    ensures trace'[|acts| + 2] == Two(eid, rs + [CONTENDED], rs + [CONTENDED], held)
  {
    var once := rs + [CONTENDED];
    ContendFirst(eid, rs, i, held);
    ContendSecond(eid, rs, i, held);
    var s, t := Two(eid, once, rs, held), Two(eid, once, once, held);
    ExtendTwice(trace, acts, Answer(0, CONTENDED), s, Answer(1, CONTENDED), t);
    trace' := trace + [s, t];
  }

  /** Two contexts that start at the same time are stuck in six steps */
  lemma StuckIsReachable(eid: nat) returns (trace: seq<System>, acts: seq<Action>)
    requires eid < MCTP_EID_MAX
    ensures IsRun(trace, acts) && |acts| == 6
    ensures AllValid(trace[6]) && Stuck(trace[6], 0, 1, eid, 0)
  {
    trace, acts := BothCall(eid);
    FirstCall(0);
    RunFeeds(INITIAL, [], RESERVED);
    var held := {(0, Offset(eid, 0)), (1, Offset(eid, 0))};
    assert {} + held == held;
    trace := BothReserve(trace, acts, eid, [], 0, {}, held);
    acts := acts + Twice(RESERVED);
    CallerIsValid(eid, [] + [RESERVED]);
    ZeroBit(0);
  }

  lemma CandidateReplies(i: nat)
    requires i < 31
    ensures var rs, once := Replies(i), Replies(i) + [RESERVED];
      && Run(INITIAL, rs, |rs|) == AtReserve(i) && Run(INITIAL, once, |once|) == AtProbe(i)
      && once + [CONTENDED] == Replies(i + 1)
  {
    FirstCall(i);
    OneCandidate(Replies(i), i);
  }

  /** A round: both reserve the next byte, and both find it contended */
  lemma Round(trace: seq<System>, acts: seq<Action>, eid: nat, i: nat) returns (trace': seq<System>)
    requires IsRun(trace, acts) && eid < MCTP_EID_MAX && i < 31
    requires trace[|acts|] == Two(eid, Replies(i), Replies(i), BothHold(eid, i))
    ensures IsRun(trace', acts + Twice(RESERVED) + Twice(CONTENDED))
    ensures var n, once, held := |acts| + 2, Replies(i) + [RESERVED], BothHold(eid, i + 1);
      && trace'[n] == Two(eid, once, once, held) && trace'[n + 1] == Two(eid, Replies(i + 1), once, held)
      && trace'[n + 2] == Two(eid, Replies(i + 1), Replies(i + 1), held)
  {
    CandidateReplies(i);
    BothHoldAll(eid, i + 1, i);
    trace' := BothReserve(trace, acts, eid, Replies(i), i, BothHold(eid, i), BothHold(eid, i + 1));
    trace' := BothContend(trace', acts + Twice(RESERVED), eid, Replies(i) + [RESERVED], i, BothHold(eid, i + 1));
  }

  lemma {:induction false} Lockstep(eid: nat, i: nat) returns (trace: seq<System>, acts: seq<Action>)
    requires eid < MCTP_EID_MAX && i < 31
    ensures IsRun(trace, acts) && |acts| == 4 + 4 * i && (forall k | 0 <= k < |acts| :: Untroubled(acts[k]))
    ensures trace[|acts|] == Two(eid, Replies(i), Replies(i), BothHold(eid, i))
  {
    if i == 0 {
      trace, acts := BothCall(eid);
    } else {
      trace, acts := Lockstep(eid, i - 1);
      trace := Round(trace, acts, eid, i - 1);
      acts := acts + Twice(RESERVED) + Twice(CONTENDED);
    }
  }

  lemma {:induction false} BothHoldAll(eid: nat, i: nat, j: nat)
    requires j < i
    ensures (0, Offset(eid, j)) in BothHold(eid, i) && (1, Offset(eid, j)) in BothHold(eid, i)
  {
    if j < i - 1 { BothHoldAll(eid, i - 1, j); }
  }

  /** The call of this step's context returns -EAGAIN */
  ghost predicate ReturnsAgain(s: System, a: Action, p: Fd, eid: nat) {
    && AllValid(s) && a.Answer? && a.p == p && p in s.procs && s.procs[p].pc.InAlloc? && s.procs[p].pc.eid == eid
    && Run(s.procs[p].states[eid], s.procs[p].pc.replies + [a.reply], |s.procs[p].pc.replies| + 1) == Failed(ErrAgain)
  }

  /** It happens, with no fcntl error and nobody else there: two fresh contexts
      that call instance_id_alloc for an endpoint in lockstep both get -EAGAIN,
      and both starve. */
  lemma StarvationIsReachable(eid: nat) returns (trace: seq<System>, acts: seq<Action>)
    requires eid < MCTP_EID_MAX
    ensures IsRun(trace, acts) && |acts| == 128 && (forall k | 0 <= k < 128 :: Untroubled(acts[k]))
    ensures ReturnsAgain(trace[126], acts[126], 0, eid) && ReturnsAgain(trace[127], acts[127], 1, eid)
    ensures AllValid(trace[128]) && Starving(trace[128], 0, eid) && Starving(trace[128], 1, eid)
    ensures trace[128].procs[0].pc.Idle? && trace[128].procs[1].pc.Idle?
  {
    trace, acts := Lockstep(eid, 30);
    trace := Round(trace, acts, eid, 30);
    acts := acts + Twice(RESERVED) + Twice(CONTENDED);
    var once := Replies(30) + [RESERVED];
    CandidateReplies(30);
    FirstCall(31);
    CallerAt(eid, once);
    CallerIsValid(eid, once);
    CallerIsValid(eid, Replies(31));
    EverythingKept(eid, trace[128]);
  }

  lemma EverythingKept(eid: nat, s: System)
    requires eid < MCTP_EID_MAX && AllValid(s) && s.readers == BothHold(eid, 31) && 0 in s.procs && 1 in s.procs
    requires s.procs[0].states == NewProc().states && s.procs[1].states == NewProc().states
    ensures Starving(s, 0, eid) && Starving(s, 1, eid)
  {
    forall i: nat | i < INST_ID_MAX && i != 31 ensures Kept(s, eid, i) {
      BothHoldAll(eid, 31, i);
      ZeroBit(i);
      assert Stuck(s, 0, 1, eid, i);
    }
  }
}
