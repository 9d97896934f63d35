/** When a call of instance_id_alloc succeeds: the exact condition, in terms of
  the locks that others hold.
 */
module InstanceIdProgress {
  import opened Bits
  import opened InstanceId
  import opened InstanceIdProtocol

  /** An instance ID that p does not have and nobody else has a lock on */
  ghost predicate Available(s: System, p: Fd, eid: nat, i: nat)
    requires AllValid(s) && p in s.procs && eid < MCTP_EID_MAX && i < INST_ID_MAX
  {
    && i != s.procs[p].states[eid].prev && !HasBit(s.procs[p].states[eid].allocations, i)
    && Unlocked(s, p, Offset(eid, i))
  }

  /** and the first one after the previous */
  ghost predicate FirstAvailable(s: System, p: Fd, eid: nat, i: nat)
    requires AllValid(s) && p in s.procs && eid < MCTP_EID_MAX && i < INST_ID_MAX
  {
    var prev := s.procs[p].states[eid].prev;
    && Available(s, p, eid, i)
    && forall j: nat | j < INST_ID_MAX && Available(s, p, eid, j) :: Distance(prev, i) <= Distance(prev, j)
  }

  ghost predicate Unlocked(s: System, p: Fd, b: nat) {
    !OtherReader(s, p, b) && !OtherWriter(s, p, b)
  }

  /** The first steps of a call of p, without a failing fcntl call and without
      steps of others in between */
  ghost predicate IsStart(trace: seq<System>, acts: seq<Action>, p: Fd, eid: nat) {
    && |trace| == |acts| + 1 && acts != [] && acts[0] == CallAlloc(p, eid)
    && AllValid(trace[0]) && p in trace[0].procs && trace[0].procs[p].pc.Idle? && eid < MCTP_EID_MAX
    && (forall k | 0 < k < |acts| :: acts[k].Answer? && acts[k].p == p && acts[k].reply.Ok?)
    && (forall k | 0 <= k < |acts| :: Step(trace[k], acts[k], trace[k + 1]))
  }

  /** The whole call */
  ghost predicate IsCall(trace: seq<System>, acts: seq<Action>, p: Fd, eid: nat) {
    && IsStart(trace, acts, p, eid)
    && p in trace[|acts|].procs && trace[|acts|].procs[p].pc.Idle?
  }

  /** What the log says of the locks of others is true */
  ghost predicate Sound(s: System, p: Fd, eid: nat, log: seq<Event>) {
    forall e <- log ::
      && (e.Contended? ==> OtherReader(s, p, Offset(eid, e.iid)))
      && (e.Taken? ==> Unlocked(s, p, Offset(eid, e.iid)))
  }

  /** Other contexts and the locks of others are as they were */
  ghost predicate SameOthers(s: System, s': System, p: Fd) {
    && s'.procs - {p} == s.procs - {p} && s'.writers == s.writers
    && forall q, b: nat | q != p :: (q, b) in s'.readers <==> (q, b) in s.readers
  }

  /** An answer to a call at this point that is no error, and true */
  ghost predicate TrueAnswer(s: System, p: Fd, eid: nat, pt: Point, r: Reply) {
    r.Ok? && (pt.AtProbe? ==> r.ltype == ProbeResult(s, p, Offset(eid, pt.iid)) != WrLck)
  }

  ghost predicate TrueAt(s: System, p: Fd, eid: nat, st: EidState, rs: seq<Reply>, k: nat)
    requires st.Valid() && k < |rs|
  {
    TrueAnswer(s, p, eid, Run(st, rs, k), rs[k])
  }

  /** All answers so far are such */
  ghost predicate TrueAnswers(s: System, p: Fd, eid: nat, st: EidState, rs: seq<Reply>)
    requires st.Valid()
  {
    forall k | 0 <= k < |rs| :: TrueAt(s, p, eid, st, rs, k)
  }

  /** The call that started in s has got these answers */
  ghost predicate Midway(s: System, s': System, p: Fd, eid: nat, rs: seq<Reply>)
    requires AllValid(s) && p in s.procs && eid < MCTP_EID_MAX
  {
    && p in s'.procs && s'.procs[p] == Proceed(s.procs[p], eid, rs)
    && SameOthers(s, s', p) && TrueAnswers(s, p, eid, s.procs[p].states[eid], rs)
  }

  lemma SkipsAreSound(s: System, p: Fd, eid: nat, st: EidState, n: nat)
    requires st.Valid() && n < INST_ID_MAX
    ensures Sound(s, p, eid, ArriveLog(st, n))
  {
    ArriveOrder(st, n);
  }

  lemma CallStarts(s: System, s': System, p: Fd, eid: nat)
    requires Step(s, CallAlloc(p, eid), s')
    ensures Midway(s, s', p, eid, [])
  {
  }

  lemma OneMoreAnswer(s: System, p: Fd, eid: nat, st: EidState, rs: seq<Reply>, r: Reply)
    requires st.Valid() && TrueAnswers(s, p, eid, st, rs) && TrueAnswer(s, p, eid, Run(st, rs, |rs|), r)
    ensures TrueAnswers(s, p, eid, st, rs + [r])
  {
    forall k | 0 <= k < |rs| + 1 ensures TrueAt(s, p, eid, st, rs + [r], k) {
      RunPrefix(st, rs, [r], k);
      if k < |rs| { assert TrueAt(s, p, eid, st, rs, k); }
    }
  }

  /** The findings of the log are true as well */
  lemma TrueFindings(s: System, p: Fd, eid: nat, st: EidState, pt: Point, r: Reply)
    requires st.Valid() && (pt.Waiting() ==> pt.iid < INST_ID_MAX) && TrueAnswer(s, p, eid, pt, r)
    ensures Sound(s, p, eid, FeedLog(st, pt, r))
  {
    if pt.AtProbe? { SkipsAreSound(s, p, eid, st, Next(pt.iid)); }
  }

  lemma BothSound(s: System, p: Fd, eid: nat, log: seq<Event>, more: seq<Event>)
    requires Sound(s, p, eid, log) && Sound(s, p, eid, more)
    ensures Sound(s, p, eid, log + more)
  {
  }

  lemma {:induction false} SoundLog(s: System, p: Fd, eid: nat, st: EidState, rs: seq<Reply>, n: nat)
    requires st.Valid() && n <= |rs| && TrueAnswers(s, p, eid, st, rs)
    ensures Sound(s, p, eid, Log(st, rs, n))
  {
    if n == 0 {
      SkipsAreSound(s, p, eid, st, Next(st.prev));
    } else {
      SoundLog(s, p, eid, st, rs, n - 1);
      assert TrueAt(s, p, eid, st, rs, n - 1);
      TrueFindings(s, p, eid, st, Run(st, rs, n - 1), rs[n - 1]);
      BothSound(s, p, eid, Log(st, rs, n - 1), FeedLog(st, Run(st, rs, n - 1), rs[n - 1]));
    }
  }

  lemma TrueMeansNoErrors(s: System, p: Fd, eid: nat, st: EidState, rs: seq<Reply>)
    requires st.Valid() && TrueAnswers(s, p, eid, st, rs)
    ensures NoErrors(st, rs, |rs|)
  {
    forall k | 0 <= k < |rs| ensures NoErrorAt(st, rs, k) { assert TrueAt(s, p, eid, st, rs, k); }
  }

  lemma SameProbe(s: System, s': System, p: Fd, b: nat)
    requires SameOthers(s, s', p)
    ensures ProbeResult(s', p, b) == ProbeResult(s, p, b)
  {
    assert OtherReader(s, p, b) <==> OtherReader(s', p, b);
  }

  /** Where the call stands */
  lemma MidwayAt(s: System, s': System, p: Fd, eid: nat, rs: seq<Reply>)
    requires AllValid(s) && AllValid(s') && p in s.procs && eid < MCTP_EID_MAX && Midway(s, s', p, eid, rs)
    requires s.procs[p].pc.Idle?
    ensures var st, proc := s.procs[p].states[eid], s'.procs[p];
      if Run(st, rs, |rs|).Waiting() then proc == s.procs[p].(pc := InAlloc(eid, rs)) && proc.At() == Run(st, rs, |rs|)
      else proc.pc.Idle? && proc.states == s.procs[p].states[eid := Commit(st, Run(st, rs, |rs|))]
  {
  }

  /** An answer changes locks of p only, and a probe is answered with the locks of
      others, which are not exclusive. */
  lemma AnswerStep(s: System, s': System, p: Fd, r: Reply)
    requires Inv(s) && Step(s, Answer(p, r), s') && s.procs[p].pc.InAlloc? && r.Ok?
    ensures SameOthers(s, s', p) && s'.procs[p] == Proceed(s.procs[p], s.procs[p].pc.eid, s.procs[p].pc.replies + [r])
    ensures var pt := s.procs[p].At();
      pt.Waiting() && (pt.AtProbe? ==> r.ltype == ProbeResult(s, p, Offset(s.procs[p].pc.eid, pt.iid)) != WrLck)
  {
    assert Backed(p, s.procs[p], s.readers);
  }

  lemma CallGoesOn(s: System, s': System, s'': System, p: Fd, eid: nat, rs: seq<Reply>, r: Reply)
    requires AllValid(s) && p in s.procs && eid < MCTP_EID_MAX && s.procs[p].pc.Idle? && Midway(s, s', p, eid, rs)
    requires Inv(s') && r.Ok? && Step(s', Answer(p, r), s'')
    ensures Run(s.procs[p].states[eid], rs, |rs|).Waiting() && Midway(s, s'', p, eid, rs + [r])
  {
    var st := s.procs[p].states[eid];
    MidwayAt(s, s', p, eid, rs);
    AnswerStep(s', s'', p, r);
    SameProbe(s, s', p, Offset(eid, Run(st, rs, |rs|).iid));
    OneMoreAnswer(s, p, eid, st, rs, r);
  }

  /** The answers a call has got after n steps */
  function Answers(acts: seq<Action>, n: nat): seq<Reply>
    requires 0 < n <= |acts| && forall k | 0 < k < |acts| :: acts[k].Answer?
  {
    if n == 1 then [] else Answers(acts, n - 1) + [acts[n - 1].reply]
  }

  lemma {:induction false} CallSoFar(trace: seq<System>, acts: seq<Action>, p: Fd, eid: nat, n: nat)
    requires IsCall(trace, acts, p, eid) && Inv(trace[0]) && 0 < n <= |acts|
    ensures Inv(trace[n]) && Midway(trace[0], trace[n], p, eid, Answers(acts, n))
  {
    if n == 1 {
      CallStarts(trace[0], trace[1], p, eid);
      StepKeepsInv(trace[0], acts[0], trace[1]);
    } else {
      CallSoFar(trace, acts, p, eid, n - 1);
      NextAnswer(trace[0], trace[n - 1], acts[n - 1], trace[n], p, eid, Answers(acts, n - 1));
    }
  }

  lemma NextAnswer(s: System, s': System, a: Action, s'': System, p: Fd, eid: nat, rs: seq<Reply>)
    requires AllValid(s) && p in s.procs && eid < MCTP_EID_MAX && s.procs[p].pc.Idle? && Midway(s, s', p, eid, rs)
    requires Inv(s') && a.Answer? && a.p == p && a.reply.Ok? && Step(s', a, s'')
    ensures Inv(s'') && Midway(s, s'', p, eid, rs + [a.reply])
  {
    StepKeepsInv(s', a, s'');
    CallGoesOn(s, s', s'', p, eid, rs, a.reply);
  }

  /** A grant takes the first instance ID available */
  lemma GrantIsAvailable(s: System, p: Fd, eid: nat, st: EidState, rs: seq<Reply>)
    requires AllValid(s) && p in s.procs && eid < MCTP_EID_MAX && st == s.procs[p].states[eid]
    requires TrueAnswers(s, p, eid, st, rs) && Run(st, rs, |rs|).Granted?
    ensures Available(s, p, eid, Run(st, rs, |rs|).iid)
  {
    SoundLog(s, p, eid, st, rs, |rs|);
    var log := Log(st, rs, |rs|);
    ScanInOrder(st, rs, |rs|);
    BeforeTheGrant(st, Run(st, rs, |rs|).iid, log, 0);
    assert log[|log| - 1] in log;
  }

  lemma NoneCloser(s: System, p: Fd, eid: nat, st: EidState, rs: seq<Reply>, j: nat)
    requires AllValid(s) && p in s.procs && eid < MCTP_EID_MAX && st == s.procs[p].states[eid]
    requires TrueAnswers(s, p, eid, st, rs) && Run(st, rs, |rs|).Granted? && j < INST_ID_MAX
    requires Distance(st.prev, j) < Distance(st.prev, Run(st, rs, |rs|).iid)
    ensures !Available(s, p, eid, j)
  {
    SoundLog(s, p, eid, st, rs, |rs|);
    if j != st.prev { GrantIsFirstAvailable(st, rs, |rs|, j); }
  }

  /** and a call without errors that is not granted anything has found none. */
  lemma NoneAvailable(s: System, p: Fd, eid: nat, st: EidState, rs: seq<Reply>, j: nat)
    requires AllValid(s) && p in s.procs && eid < MCTP_EID_MAX && st == s.procs[p].states[eid]
    requires TrueAnswers(s, p, eid, st, rs) && Run(st, rs, |rs|).Failed? && j < INST_ID_MAX
    ensures Run(st, rs, |rs|) == Failed(ErrAgain) && !Available(s, p, eid, j)
  {
    TrueMeansNoErrors(s, p, eid, st, rs);
    SoundLog(s, p, eid, st, rs, |rs|);
    GivingUpMeansNoneAvailable(st, rs, |rs|, if j == st.prev then Next(j) else j);
  }

  /** How a whole call ended */
  function Outcome(trace: seq<System>, acts: seq<Action>, p: Fd, eid: nat): Point
    requires |trace| > 0 && p in trace[0].procs && trace[0].procs[p].Valid() && eid < MCTP_EID_MAX
    requires acts != [] && forall k | 0 < k < |acts| :: acts[k].Answer?
  {
    Run(trace[0].procs[p].states[eid], Answers(acts, |acts|), |Answers(acts, |acts|)|)
  }

  lemma CallEnds(trace: seq<System>, acts: seq<Action>, p: Fd, eid: nat)
    requires IsCall(trace, acts, p, eid) && Inv(trace[0])
    ensures var s, st, pt := trace[0], trace[0].procs[p].states[eid], Outcome(trace, acts, p, eid);
      && TrueAnswers(s, p, eid, st, Answers(acts, |acts|)) && !pt.Waiting()
      && trace[|acts|].procs[p].states == s.procs[p].states[eid := Commit(st, pt)]
  {
    CallSoFar(trace, acts, p, eid, |acts|);
    MidwayAt(trace[0], trace[|acts|], p, eid, Answers(acts, |acts|));
  }

  /** A call that nobody interrupts and no fcntl error ends is granted an instance
      ID if and only if one is available: not the previous one, not allocated by
      this context, and without a lock of any other descriptor.  It takes the
      first of these in circular order; else it returns -EAGAIN. */
  lemma GrantedIffAvailable(trace: seq<System>, acts: seq<Action>, p: Fd, eid: nat)
    requires IsCall(trace, acts, p, eid) && Inv(trace[0])
    ensures var s, st, pt := trace[0], trace[0].procs[p].states[eid], Outcome(trace, acts, p, eid);
      && (pt.Granted? <==> exists i: nat :: i < INST_ID_MAX && Available(s, p, eid, i))
      && (if pt.Granted? then FirstAvailable(s, p, eid, pt.iid) else pt == Failed(ErrAgain))
      && trace[|acts|].procs[p].states == s.procs[p].states[eid := Commit(st, pt)]
  {
    var s, st, rs := trace[0], trace[0].procs[p].states[eid], Answers(acts, |acts|);
    CallEnds(trace, acts, p, eid);
    if Run(st, rs, |rs|).Granted? {
      GrantIsAvailable(s, p, eid, st, rs);
      forall j: nat | j < INST_ID_MAX && Available(s, p, eid, j)
        ensures Distance(st.prev, Run(st, rs, |rs|).iid) <= Distance(st.prev, j)
      {
        if Distance(st.prev, Run(st, rs, |rs|).iid) > Distance(st.prev, j) { NoneCloser(s, p, eid, st, rs, j); }
      }
    } else {
      NoneAvailable(s, p, eid, st, rs, 0);
      forall i: nat | i < INST_ID_MAX ensures !Available(s, p, eid, i) { NoneAvailable(s, p, eid, st, rs, i); }
    }
  }

  /** Nobody else has a lock on a byte of this endpoint */
  ghost predicate Alone(s: System, p: Fd, eid: nat) {
    forall i: nat | i < INST_ID_MAX :: Unlocked(s, p, Offset(eid, i))
  }

  /** Then a call has the outcome that two answers decide, as if it met no lock. */
  lemma AloneOutcome(trace: seq<System>, acts: seq<Action>, p: Fd, eid: nat)
    requires IsCall(trace, acts, p, eid) && Inv(trace[0]) && Alone(trace[0], p, eid)
    ensures Outcome(trace, acts, p, eid) == Run(trace[0].procs[p].states[eid], [Ok(Unlck), Ok(Unlck)], 2)
  {
    var s, st, pt := trace[0], trace[0].procs[p].states[eid], Outcome(trace, acts, p, eid);
    GrantedIffAvailable(trace, acts, p, eid);
    AloneGrantsFirstFree(st);
    var alone := Run(st, [Ok(Unlck), Ok(Unlck)], 2);
    forall i: nat | i < INST_ID_MAX ensures Available(s, p, eid, i) <==> i != st.prev && i !in st.Allocated() {
      assert Unlocked(s, p, Offset(eid, i));
    }
    if alone.Granted? {
      assert Available(s, p, eid, alone.iid);
      assert pt.iid !in st.Allocated();
    }
  }

  /** Such a call there is whenever no other descriptor has an exclusive lock on a
      byte of the endpoint, which no context ever has. */
  lemma CallExists(s: System, p: Fd, eid: nat) returns (trace: seq<System>, acts: seq<Action>)
    requires Inv(s) && p in s.procs && s.procs[p].pc.Idle? && eid < MCTP_EID_MAX
    requires forall i: nat | i < INST_ID_MAX :: !OtherWriter(s, p, Offset(eid, i))
    ensures IsCall(trace, acts, p, eid) && trace[0] == s
  {
    assert Backed(p, s.procs[p], s.readers);
    AllProcsValid(s);
    var s' := Apply(s, CallAlloc(p, eid));
    StepKeepsInv(s, CallAlloc(p, eid), s');
    CallStarts(s, s', p, eid);
    trace, acts := Continue(s, [s, s'], [CallAlloc(p, eid)], p, eid, []);
  }

  lemma Continue(s: System, start: seq<System>, before: seq<Action>, p: Fd, eid: nat, rs: seq<Reply>)
    returns (trace: seq<System>, acts: seq<Action>)
    requires AllValid(s) && p in s.procs && s.procs[p].pc.Idle? && eid < MCTP_EID_MAX
    requires forall i: nat | i < INST_ID_MAX :: !OtherWriter(s, p, Offset(eid, i))
    requires IsStart(start, before, p, eid) && start[0] == s && Inv(start[|before|])
    requires Midway(s, start[|before|], p, eid, rs)
    ensures IsCall(trace, acts, p, eid) && trace[0] == s
    decreases 62 - |rs|
  {
    var s', st := start[|before|], s.procs[p].states[eid];
    trace, acts := start, before;
    MidwayAt(s, s', p, eid, rs);
    if Run(st, rs, |rs|).Waiting() {
      AllocTerminates(st, rs, |rs|);
      var r := NextReply(s, s', p, eid, rs);
      var s'' := Apply(s', Answer(p, r));
      NextAnswer(s, s', Answer(p, r), s'', p, eid, rs);
      trace, acts := Continue(s, start + [s''], before + [Answer(p, r)], p, eid, rs + [r]);
    }
  }

  /** The kernel has an answer that is not an error */
  lemma NextReply(s: System, s': System, p: Fd, eid: nat, rs: seq<Reply>) returns (r: Reply)
    requires AllValid(s) && p in s.procs && s.procs[p].pc.Idle? && eid < MCTP_EID_MAX && Inv(s')
    requires Midway(s, s', p, eid, rs)
    requires forall i: nat | i < INST_ID_MAX :: !OtherWriter(s, p, Offset(eid, i))
    requires Run(s.procs[p].states[eid], rs, |rs|).Waiting()
    ensures r.Ok? && AllValid(s') && Enabled(s', Answer(p, r))
  {
    AllProcsValid(s');
    MidwayAt(s, s', p, eid, rs);
    var pt := Run(s.procs[p].states[eid], rs, |rs|);
    r := if pt.AtReserve? then Ok(Unlck) else Ok(ProbeResult(s', p, Offset(eid, pt.iid)));
    assert OtherWriter(s', p, Offset(eid, pt.iid)) <==> OtherWriter(s, p, Offset(eid, pt.iid));
  }
}
