/** What can be done about a context that is granted nothing: exactly if it does
  not starve, the contexts can go on so that it is granted an instance ID, and
  none of them has to be destroyed.
 */
module InstanceIdRecovery {
  import opened Bits
  import opened InstanceId
  import opened InstanceIdProtocol
  import opened InstanceIdProgress
  import opened InstanceIdStarvation

  // -------------------------------------------------------------- left locks

  /** A lock of a context on an ID it does not have was left by a scan, and so
      the ID is not the previous one; and a context that has unlocked an ID but not
      cleared its bit has no lock on it. */
  ghost predicate TidyAt(proc: Proc, e: nat, i: nat)
    requires proc.Valid() && e < MCTP_EID_MAX && i < INST_ID_MAX
  {
    proc.pc != InClear(e, i) && (HasBit(proc.states[e].allocations, i) || i != proc.states[e].prev)
  }

  ghost predicate TidyProc(q: Fd, proc: Proc, readers: set<(Fd, nat)>)
    requires proc.Valid()
  {
    forall e: nat, i: nat | e < MCTP_EID_MAX && i < INST_ID_MAX && (q, Offset(e, i)) in readers :: TidyAt(proc, e, i)
  }

  ghost predicate Good(s: System) {
    Inv(s) && AllValid(s) && forall q <- s.procs :: TidyProc(q, s.procs[q], s.readers)
  }

  lemma ScanIsTidy(proc: Proc, reply: Reply, eid: nat, i: nat)
    requires proc.Valid() && proc.pc.InAlloc? && proc.pc.eid == eid && i < INST_ID_MAX && proc.At().Waiting()
    requires i == proc.At().iid || TidyAt(proc, eid, i)
    requires Proceed(proc, eid, proc.pc.replies + [reply]).Valid()
    ensures TidyAt(Proceed(proc, eid, proc.pc.replies + [reply]), eid, i)
  {
    var st, pt := proc.states[eid], proc.At();
    ScanInOrder(st, proc.pc.replies, |proc.pc.replies|);
    RunFeeds(st, proc.pc.replies, reply);
    ArriveInRange(st, Next(pt.iid));
    CommitBit(st, Feed(st, pt, reply), i);
  }

  lemma AnswerIsTidy(s: System, p: Fd, reply: Reply)
    requires Good(s) && Enabled(s, Answer(p, reply)) && s.procs[p].pc.InAlloc? && AllValid(Answered(s, p, reply))
    ensures TidyProc(p, Answered(s, p, reply).procs[p], Answered(s, p, reply).readers)
  {
    var s', proc := Answered(s, p, reply), s.procs[p];
    var eid := proc.pc.eid;
    assert Backed(p, proc, s.readers) && TidyProc(p, proc, s.readers);
    assert s'.procs[p] == Proceed(proc, eid, proc.pc.replies + [reply]) && s'.procs[p].Valid();
    forall e: nat, i: nat | e < MCTP_EID_MAX && i < INST_ID_MAX && (p, Offset(e, i)) in s'.readers
      ensures TidyAt(s'.procs[p], e, i)
    {
      if (p, Offset(e, i)) !in s.readers {
        OffsetInjective(e, i, eid, proc.At().iid);
      } else {
        assert TidyAt(proc, e, i);
      }
      if e == eid { ScanIsTidy(proc, reply, eid, i); }
    }
  }

  lemma UnlockIsTidy(s: System, p: Fd, reply: Reply)
    requires Good(s) && Enabled(s, Answer(p, reply)) && s.procs[p].pc.InUnlock? && AllValid(Answered(s, p, reply))
    ensures TidyProc(p, Answered(s, p, reply).procs[p], Answered(s, p, reply).readers)
  {
    var s', proc := Answered(s, p, reply), s.procs[p];
    assert TidyProc(p, proc, s.readers);
    forall e: nat, i: nat | e < MCTP_EID_MAX && i < INST_ID_MAX && (p, Offset(e, i)) in s'.readers
      ensures TidyAt(s'.procs[p], e, i)
    {
      assert TidyAt(proc, e, i);
    }
  }

  lemma ClearIsTidy(s: System, p: Fd)
    requires Good(s) && Enabled(s, ClearBit(p)) && Cleared(s.procs[p]).Valid()
    ensures TidyProc(p, Cleared(s.procs[p]), s.readers)
  {
    var proc, proc' := s.procs[p], Cleared(s.procs[p]);
    assert TidyProc(p, proc, s.readers);
    forall e: nat, i: nat | e < MCTP_EID_MAX && i < INST_ID_MAX && (p, Offset(e, i)) in s.readers
      ensures TidyAt(proc', e, i)
    {
      assert TidyAt(proc, e, i);
      WithBit(proc.states[proc.pc.eid].allocations, proc.pc.iid, i);
    }
  }

  /** The context that takes the step, */
  lemma OwnStepIsTidy(s: System, a: Action, s': System)
    requires Good(s) && Step(s, a, s') && AllValid(s') && !a.ForeignLock? && !a.ForeignUnlock? && !a.Close?
    ensures TidyProc(a.p, s'.procs[a.p], s'.readers)
  {
    match a {
      case Open(p) =>
      case CallAlloc(p, eid) =>
        ArriveInRange(s.procs[p].states[eid], Next(s.procs[p].states[eid].prev));
        assert TidyProc(p, s.procs[p], s.readers);
      case CallFree(p, eid, iid) => assert TidyProc(p, s.procs[p], s.readers);
      case Answer(p, reply) =>
        if s.procs[p].pc.InAlloc? { AnswerIsTidy(s, p, reply); } else { UnlockIsTidy(s, p, reply); }
      case ClearBit(p) =>
        assert p in s'.procs && s'.procs[p] == Cleared(s.procs[p]);
        ClearIsTidy(s, p);
    }
  }

  /** and all others */
  lemma StepKeepsGood(s: System, a: Action, s': System)
    requires Good(s) && Step(s, a, s')
    ensures Good(s')
  {
    StepKeepsInv(s, a, s');
    AllProcsValid(s');
    var own := !a.ForeignLock? && !a.ForeignUnlock? && !a.Close?;
    if own { OwnStepIsTidy(s, a, s'); }
    forall q <- s'.procs ensures TidyProc(q, s'.procs[q], s'.readers) {
      if !(own && q == a.p) { assert TidyProc(q, s.procs[q], s.readers); }
    }
  }

  // --------------------------------------------------------------- going on

  /** Steps from s to t, none of which destroys a context */
  ghost predicate IsPath(trace: seq<System>, acts: seq<Action>) {
    && |trace| == |acts| + 1
    && forall k | 0 <= k < |acts| :: !acts[k].Close? && Step(trace[k], acts[k], trace[k + 1])
  }

  ghost predicate Leads(s: System, t: System) {
    exists trace, acts :: IsPath(trace, acts) && trace[0] == s && trace[|acts|] == t
  }

  lemma LeadsNowhere(s: System)
    ensures Leads(s, s)
  {
    var acts: seq<Action> := [];
    assert IsPath([s], acts);
  }

  lemma LeadsOn(s: System, t: System, a: Action, u: System)
    requires Leads(s, t) && Step(t, a, u) && !a.Close?
    ensures Leads(s, u)
  {
    var trace, acts :| IsPath(trace, acts) && trace[0] == s && trace[|acts|] == t;
    assert IsPath(trace + [u], acts + [a]);
  }

  lemma {:induction false} LeadsAlong(s: System, trace: seq<System>, acts: seq<Action>, n: nat)
    requires IsPath(trace, acts) && n <= |acts| && Leads(s, trace[0])
    ensures Leads(s, trace[n])
  {
    if n > 0 {
      LeadsAlong(s, trace, acts, n - 1);
      LeadsOn(s, trace[n - 1], acts[n - 1], trace[n]);
    }
  }

  lemma {:induction false} PathKeepsGood(trace: seq<System>, acts: seq<Action>, n: nat)
    requires IsPath(trace, acts) && n <= |acts| && Good(trace[0])
    ensures Good(trace[n])
  {
    if n > 0 {
      PathKeepsGood(trace, acts, n - 1);
      StepKeepsGood(trace[n - 1], acts[n - 1], trace[n]);
    }
  }

  /** A starting point, kept through the lemmas below */
  ghost predicate From(s: System, t: System) {
    Leads(s, t) && Good(t)
  }

  lemma GoOn(s: System, t: System, a: Action) returns (u: System)
    requires From(s, t) && Enabled(t, a) && !a.Close?
    ensures From(s, u) && u == Apply(t, a)
  {
    u := Apply(t, a);
    LeadsOn(s, t, a, u);
    StepKeepsGood(t, a, u);
  }

  // -------------------------------------------------------- nobody else's locks

  /** Programs that are no contexts give up their exclusive locks, */
  lemma {:induction false} NoWriters(s: System, t: System) returns (u: System)
    requires From(s, t)
    ensures From(s, u) && u.writers == {} && u.procs == t.procs && u.readers <= t.readers
    ensures forall q, b: nat | q in t.procs :: (q, b) in u.readers <==> (q, b) in t.readers
    decreases |t.writers|
  {
    if t.writers == {} {
      u := t;
    } else {
      var l :| l in t.writers;
      assert l == (l.0, l.1);
      u := GoOn(s, t, ForeignUnlock(l.0, l.1));
      assert u.writers == t.writers - {l};
      u := NoWriters(s, u);
    }
  }

  /** and their locks on one byte. */
  lemma {:induction false} NoForeignReaders(s: System, t: System, b: nat) returns (u: System)
    requires From(s, t) && t.writers == {}
    ensures From(s, u) && u.writers == {} && u.procs == t.procs
    ensures forall q | (q, b) in u.readers :: q in u.procs
    ensures forall q, c: nat | q in t.procs :: (q, c) in u.readers <==> (q, c) in t.readers
    decreases |t.readers|
  {
    if f :| (f, b) in t.readers && f !in t.procs {
      u := GoOn(s, t, ForeignUnlock(f, b));
      assert u.readers == t.readers - {(f, b)};
      u := NoForeignReaders(s, u, b);
    } else {
      u := t;
    }
  }

  // ------------------------------------------------------------- one context

  /** q is between two calls; no lock has changed, no cursor, and no bit but one
      that was to be cleared, whose lock was gone already. */
  ghost predicate Idled(t: System, u: System, q: Fd)
    requires AllValid(t) && AllValid(u) && q in t.procs
  {
    && q in u.procs && u == t.(procs := t.procs[q := u.procs[q]]) && u.procs[q].pc.Idle?
    && (forall e | 0 <= e < MCTP_EID_MAX :: u.procs[q].states[e].prev == t.procs[q].states[e].prev)
    && forall e: nat, i: nat | e < MCTP_EID_MAX && i < INST_ID_MAX && (q, Offset(e, i)) in t.readers ::
         HasBit(u.procs[q].states[e].allocations, i) == HasBit(t.procs[q].states[e].allocations, i)
  }

  /** The kernel may fail the fcntl call that q waits for */
  lemma MakeIdle(s: System, t: System, q: Fd) returns (u: System)
    requires From(s, t) && q in t.procs
    ensures From(s, u) && Idled(t, u, q)
  {
    var proc := t.procs[q];
    assert Backed(q, proc, t.readers) && TidyProc(q, proc, t.readers);
    u := t;
    if proc.pc.InAlloc? {
      u := GoOn(s, t, Answer(q, Error(true)));
      AbortedCall(proc);
    } else if proc.pc.InUnlock? {
      u := GoOn(s, t, Answer(q, Error(true)));
    } else if proc.pc.InClear? {
      u := GoOn(s, t, ClearBit(q));
      ClearedBits(q, proc, t.readers);
    }
    assert u.procs == t.procs[q := u.procs[q]];
  }

  lemma AbortedCall(proc: Proc)
    requires proc.Valid() && proc.pc.InAlloc? && proc.At().Waiting()
    ensures var proc' := Proceed(proc, proc.pc.eid, proc.pc.replies + [Error(true)]);
      proc'.pc.Idle? && proc'.states == proc.states
  {
    RunFeeds(proc.states[proc.pc.eid], proc.pc.replies, Error(true));
  }

  lemma ClearedBits(q: Fd, proc: Proc, readers: set<(Fd, nat)>)
    requires proc.Valid() && proc.pc.InClear? && TidyProc(q, proc, readers)
    ensures forall e: nat, i: nat | e < MCTP_EID_MAX && i < INST_ID_MAX && (q, Offset(e, i)) in readers ::
      HasBit(Cleared(proc).states[e].allocations, i) == HasBit(proc.states[e].allocations, i)
  {
    forall e: nat, i: nat | e < MCTP_EID_MAX && i < INST_ID_MAX && (q, Offset(e, i)) in readers
      ensures HasBit(Cleared(proc).states[e].allocations, i) == HasBit(proc.states[e].allocations, i)
    {
      assert TidyAt(proc, e, i);
      WithBit(proc.states[proc.pc.eid].allocations, proc.pc.iid, i);
    }
  }

  /** q has given an instance ID back: bit and lock are gone, and nothing else */
  ghost predicate GivenBack(t: System, u: System, q: Fd, eid: nat, i: nat)
    requires AllValid(t) && AllValid(u) && q in t.procs && eid < MCTP_EID_MAX && i < INST_ID_MAX
  {
    && q in u.procs && u.procs == t.procs[q := u.procs[q]] && u.procs[q].pc.Idle? && u.writers == t.writers
    && u.readers == t.readers - {(q, Offset(eid, i))}
    && u.procs[q].states == t.procs[q].states[eid := Release(t.procs[q].states[eid], i)]
  }

  lemma Unlocks(s: System, t: System, q: Fd, eid: nat, i: nat) returns (u: System)
    requires From(s, t) && q in t.procs && t.procs[q].pc.Idle? && eid < MCTP_EID_MAX && i < INST_ID_MAX
    requires HasBit(t.procs[q].states[eid].allocations, i)
    ensures From(s, u) && q in u.procs && u.procs[q] == t.procs[q].(pc := InClear(eid, i))
    ensures u.procs - {q} == t.procs - {q} && u.writers == t.writers && u.readers == t.readers - {(q, Offset(eid, i))}
  {
    u := GoOn(s, t, CallFree(q, eid, i));
    u := GoOn(s, u, Answer(q, Ok(Unlck)));
  }

  lemma GiveBack(s: System, t: System, q: Fd, eid: nat, i: nat) returns (u: System)
    requires From(s, t) && q in t.procs && t.procs[q].pc.Idle? && eid < MCTP_EID_MAX && i < INST_ID_MAX
    requires HasBit(t.procs[q].states[eid].allocations, i)
    ensures From(s, u) && GivenBack(t, u, q, eid, i)
  {
    u := Unlocks(s, t, q, eid, i);
    u := GoOn(s, u, ClearBit(q));
    OneReplaced(t.procs, u.procs, q);
  }

  lemma OneReplaced<V>(m: map<Fd, V>, n: map<Fd, V>, q: Fd)
    requires q in m && q in n && n - {q} == m - {q}
    ensures n == m[q := n[q]]
  {
    forall r: Fd | r != q ensures (r in m <==> r in n) && (r in m ==> n[r] == m[r]) {
      assert r in m <==> r in m - {q};
      assert r in n <==> r in n - {q};
      if r in m { assert (m - {q})[r] == (n - {q})[r]; }
    }
  }

  /** A whole call of q, which takes the first instance ID available */
  lemma OneCall(s: System, t: System, q: Fd, eid: nat, i: nat) returns (u: System, j: nat)
    requires From(s, t) && q in t.procs && t.procs[q].pc.Idle? && t.writers == {}
    requires eid < MCTP_EID_MAX && i < INST_ID_MAX && Available(t, q, eid, i)
    ensures From(s, u) && SameOthers(t, u, q) && q in u.procs && u.procs[q].pc.Idle?
    ensures j < INST_ID_MAX && FirstAvailable(t, q, eid, j)
    ensures u.procs[q].states == t.procs[q].states[eid := Commit(t.procs[q].states[eid], Granted(j))]
  {
    var trace, acts := CallExists(t, q, eid);
    GrantedIffAvailable(trace, acts, q, eid);
    j := Outcome(trace, acts, q, eid).iid;
    CallSoFar(trace, acts, q, eid, |acts|);
    u := trace[|acts|];
    assert IsPath(trace, acts);
    LeadsAlong(s, trace, acts, |acts|);
    PathKeepsGood(trace, acts, |acts|);
  }

  /** q calls until it is granted i: each call takes it closer */
  lemma {:induction false} WorkTo(s: System, t: System, q: Fd, eid: nat, i: nat) returns (u: System)
    requires From(s, t) && q in t.procs && t.procs[q].pc.Idle? && t.writers == {}
    requires eid < MCTP_EID_MAX && i < INST_ID_MAX && Available(t, q, eid, i)
    ensures From(s, u) && SameOthers(t, u, q) && q in u.procs && u.procs[q].pc.Idle?
    ensures HasBit(u.procs[q].states[eid].allocations, i)
    decreases Distance(t.procs[q].states[eid].prev, i)
  {
    var st, j := t.procs[q].states[eid], 0;
    u, j := OneCall(s, t, q, eid, i);
    CommitBit(st, Granted(j), i);
    if j != i {
      Closer(st.prev, j, i);
      StillUnlocked(t, u, q, Offset(eid, i));
      u := WorkTo(s, u, q, eid, i);
    }
  }

  lemma Closer(prev: nat, j: nat, i: nat)
    requires prev < INST_ID_MAX && j < INST_ID_MAX && i < INST_ID_MAX && j != prev && j != i
    requires Distance(prev, j) <= Distance(prev, i)
    ensures Distance(j, i) < Distance(prev, i)
  {
  }

  lemma StillUnlocked(t: System, u: System, q: Fd, b: nat)
    requires SameOthers(t, u, q) && Unlocked(t, q, b)
    ensures Unlocked(u, q, b)
  {
  }

  // -------------------------------------------------------------- getting there

  /** p has its cursor yet, nobody has an exclusive lock, and only contexts have a
      lock on i */
  ghost predicate Ready(t: System, p: Fd, eid: nat, i: nat, prev: nat)
    requires AllValid(t) && eid < MCTP_EID_MAX && i < INST_ID_MAX
  {
    && p in t.procs && t.procs[p].states[eid].prev == prev && t.writers == {}
    && forall q | (q, Offset(eid, i)) in t.readers :: q in t.procs
  }

  ghost predicate Locks(t: System, q: Fd, eid: nat, i: nat) {
    (q, Offset(eid, i)) in t.readers
  }

  /** and none but q, which was not granted it */
  ghost predicate OnlyLeftBy(t: System, eid: nat, i: nat)
    requires AllValid(t) && eid < MCTP_EID_MAX && i < INST_ID_MAX
  {
    && (forall q | q in t.procs && Locks(t, q, eid, i) :: !HasBit(t.procs[q].states[eid].allocations, i))
    && forall q, r | Locks(t, q, eid, i) && Locks(t, r, eid, i) :: q == r
  }

  /** Only one context that has a lock can be the one that was granted i */
  lemma OneOwner(t: System, q: Fd, r: Fd, eid: nat, i: nat)
    requires Good(t) && q in t.procs && r in t.procs && eid < MCTP_EID_MAX && i < INST_ID_MAX
    requires Locks(t, q, eid, i) && Locks(t, r, eid, i)
    requires HasBit(t.procs[q].states[eid].allocations, i) && HasBit(t.procs[r].states[eid].allocations, i)
    ensures q == r
  {
    assert TidyProc(q, t.procs[q], t.readers) && TidyProc(r, t.procs[r], t.readers);
    assert TidyAt(t.procs[q], eid, i) && TidyAt(t.procs[r], eid, i);
    assert t.procs[q].Holds(eid, i) && t.procs[r].Holds(eid, i);
  }

  lemma BothLeft(t: System, q: Fd, r: Fd, eid: nat, i: nat)
    requires AllValid(t) && q != r && q in t.procs && r in t.procs && eid < MCTP_EID_MAX && i < INST_ID_MAX
    requires Locks(t, q, eid, i) && Locks(t, r, eid, i)
    requires !HasBit(t.procs[q].states[eid].allocations, i) && !HasBit(t.procs[r].states[eid].allocations, i)
    ensures Kept(t, eid, i)
  {
    assert Stuck(t, q, r, eid, i);
  }

  /** The owner of i gives it back; then at most one context has a lock on it */
  lemma OwnerGivesBack(s: System, t: System, p: Fd, eid: nat, i: nat, prev: nat) returns (u: System)
    requires From(s, t) && eid < MCTP_EID_MAX && i < INST_ID_MAX && Ready(t, p, eid, i, prev) && !Kept(t, eid, i)
    ensures From(s, u) && Ready(u, p, eid, i, prev) && OnlyLeftBy(u, eid, i)
  {
    if h :| h in t.procs && Locks(t, h, eid, i) && HasBit(t.procs[h].states[eid].allocations, i) {
      var v := MakeIdle(s, t, h);
      u := GiveBack(s, v, h, eid, i);
      forall q | q in u.procs && Locks(u, q, eid, i)
        ensures q != h && Locks(t, q, eid, i) && u.procs[q] == t.procs[q]
        ensures !HasBit(t.procs[q].states[eid].allocations, i)
      {
        if HasBit(t.procs[q].states[eid].allocations, i) { OneOwner(t, q, h, eid, i); }
      }
    } else {
      u := t;
    }
    forall q, r | Locks(u, q, eid, i) && Locks(u, r, eid, i) ensures q == r {
      if q != r { BothLeft(t, q, r, eid, i); }
    }
  }

  ghost predicate OnlyLocker(t: System, q: Fd, eid: nat, i: nat) {
    forall r | Locks(t, r, eid, i) :: r == q
  }

  lemma OnlyLockerIsFree(t: System, q: Fd, eid: nat, i: nat)
    requires OnlyLocker(t, q, eid, i) && t.writers == {}
    ensures Unlocked(t, q, Offset(eid, i))
  {
    forall r | r != q ensures (r, Offset(eid, i)) !in t.readers { assert !Locks(t, r, eid, i); }
  }

  lemma OnlyLockerStays(t: System, u: System, q: Fd, eid: nat, i: nat)
    requires OnlyLocker(t, q, eid, i)
    requires forall r, b: nat | r != q :: (r, b) in u.readers <==> (r, b) in t.readers
    ensures OnlyLocker(u, q, eid, i)
  {
    forall r | r != q ensures !Locks(u, r, eid, i) { assert !Locks(t, r, eid, i); }
  }

  /** A context that left its lock on i, as the only one, gets i and gives it back */
  lemma LeftLockGoes(s: System, t: System, q: Fd, eid: nat, i: nat) returns (u: System)
    requires From(s, t) && eid < MCTP_EID_MAX && i < INST_ID_MAX && q in t.procs && t.writers == {}
    requires Locks(t, q, eid, i) && !HasBit(t.procs[q].states[eid].allocations, i) && OnlyLocker(t, q, eid, i)
    ensures From(s, u) && u.procs - {q} == t.procs - {q} && u.writers == {} && forall r :: !Locks(u, r, eid, i)
  {
    var v := MakeIdle(s, t, q);
    assert v.procs - {q} == t.procs - {q};
    OnlyLockerStays(t, v, q, eid, i);
    LeftIsAvailable(v, q, eid, i);
    var w := WorkTo(s, v, q, eid, i);
    OnlyLockerStays(v, w, q, eid, i);
    u := GiveBack(s, w, q, eid, i);
    NoLockerLeft(w, u, q, eid, i);
  }

  lemma NoLockerLeft(w: System, u: System, q: Fd, eid: nat, i: nat)
    requires AllValid(w) && AllValid(u) && q in w.procs && eid < MCTP_EID_MAX && i < INST_ID_MAX
    requires OnlyLocker(w, q, eid, i) && GivenBack(w, u, q, eid, i)
    ensures u.procs - {q} == w.procs - {q} && forall r :: !Locks(u, r, eid, i)
  {
    forall r ensures !Locks(u, r, eid, i) { assert Locks(u, r, eid, i) ==> Locks(w, r, eid, i); }
  }

  lemma LeftIsAvailable(t: System, q: Fd, eid: nat, i: nat)
    requires Good(t) && q in t.procs && eid < MCTP_EID_MAX && i < INST_ID_MAX && Locks(t, q, eid, i) && t.writers == {}
    requires !HasBit(t.procs[q].states[eid].allocations, i) && OnlyLocker(t, q, eid, i)
    ensures Available(t, q, eid, i)
  {
    assert TidyProc(q, t.procs[q], t.readers);
    assert TidyAt(t.procs[q], eid, i);
    OnlyLockerIsFree(t, q, eid, i);
  }

  /** If that was not p, nobody has a lock on i now */
  lemma OnlyPLocks(s: System, t: System, p: Fd, eid: nat, i: nat, prev: nat) returns (u: System)
    requires From(s, t) && eid < MCTP_EID_MAX && i < INST_ID_MAX && Ready(t, p, eid, i, prev) && OnlyLeftBy(t, eid, i)
    ensures From(s, u) && Ready(u, p, eid, i, prev) && OnlyLocker(u, p, eid, i)
    ensures Locks(u, p, eid, i) ==> !HasBit(u.procs[p].states[eid].allocations, i)
  {
    if q: Fd :| Locks(t, q, eid, i) && q != p {
      forall r | Locks(t, r, eid, i) ensures r == q {}
      u := LeftLockGoes(s, t, q, eid, i);
      NobodyLocks(t, u, p, q, eid, i);
    } else {
      u := t;
    }
  }

  lemma NobodyLocks(t: System, u: System, p: Fd, q: Fd, eid: nat, i: nat)
    requires p != q && p in t.procs && u.procs - {q} == t.procs - {q} && forall r :: !Locks(u, r, eid, i)
    ensures p in u.procs && u.procs[p] == t.procs[p] && forall r: Fd :: (r, Offset(eid, i)) !in u.readers
  {
    assert p in t.procs - {q} && (u.procs - {q})[p] == (t.procs - {q})[p];
    forall r: Fd ensures (r, Offset(eid, i)) !in u.readers { assert !Locks(u, r, eid, i); }
  }

  /** Then i is available to p, once it is idle */
  lemma NowAvailable(t: System, p: Fd, eid: nat, i: nat, prev: nat)
    requires Good(t) && eid < MCTP_EID_MAX && i < INST_ID_MAX && Ready(t, p, eid, i, prev) && OnlyLocker(t, p, eid, i)
    requires Locks(t, p, eid, i) ==> !HasBit(t.procs[p].states[eid].allocations, i)
    requires t.procs[p].pc.Idle? && i != prev
    ensures Available(t, p, eid, i)
  {
    assert Backed(p, t.procs[p], t.readers);
    OnlyLockerIsFree(t, p, eid, i);
    if HasBit(t.procs[p].states[eid].allocations, i) { assert t.procs[p].Holds(eid, i); }
  }

  /** From s, without a destroyed context, p can be granted an instance ID: its
      cursor moves */
  ghost predicate CanBeGranted(s: System, p: Fd, eid: nat)
    requires AllValid(s) && p in s.procs && eid < MCTP_EID_MAX
  {
    exists trace, acts :: IsPath(trace, acts) && trace[0] == s && Moved(s, trace[|acts|], p, eid)
  }

  ghost predicate Moved(s: System, t: System, p: Fd, eid: nat)
    requires AllValid(s) && p in s.procs && eid < MCTP_EID_MAX
  {
    p in t.procs && t.procs[p].Valid() && t.procs[p].states[eid].prev != s.procs[p].states[eid].prev
  }

  /** It moves by a grant only */
  lemma MovedByGrant(s: System, a: Action, t: System, p: Fd, eid: nat)
    requires Good(s) && Step(s, a, t) && p in s.procs && eid < MCTP_EID_MAX && Moved(s, t, p, eid)
    ensures a == Answer(p, Ok(Unlck)) && s.procs[p].pc.InAlloc? && s.procs[p].pc.eid == eid
    ensures s.procs[p].At() == AtProbe(t.procs[p].states[eid].prev)
  {
    var proc := s.procs[p];
    assert Backed(p, proc, s.readers);
    if a.Answer? && a.p == p && proc.pc.InAlloc? {
      AnswerMoves(proc, a.reply, eid);
    } else if a.CallAlloc? && a.p == p {
      ArriveInRange(proc.states[a.eid], Next(proc.states[a.eid].prev));
    }
  }

  lemma AnswerMoves(proc: Proc, reply: Reply, eid: nat)
    requires proc.Valid() && proc.pc.InAlloc? && proc.At().Waiting() && eid < MCTP_EID_MAX
    ensures var proc' := Proceed(proc, proc.pc.eid, proc.pc.replies + [reply]);
      proc'.states[eid].prev != proc.states[eid].prev ==>
        proc.pc.eid == eid && reply == Ok(Unlck) && proc.At() == AtProbe(proc'.states[eid].prev)
  {
    AnswerFeeds(proc, reply);
    ArriveInRange(proc.states[proc.pc.eid], Next(proc.At().iid));
  }

  lemma Recover(s: System, p: Fd, eid: nat, i: nat) returns (t: System)
    requires Good(s) && p in s.procs && eid < MCTP_EID_MAX && i < INST_ID_MAX
    requires i != s.procs[p].states[eid].prev && !Kept(s, eid, i)
    ensures From(s, t) && Moved(s, t, p, eid)
  {
    var prev, j := s.procs[p].states[eid].prev, 0;
    LeadsNowhere(s);
    t := NoWriters(s, s);
    t := NoForeignReaders(s, t, Offset(eid, i));
    NotKeptYet(s, t, eid, i);
    t := OwnerGivesBack(s, t, p, eid, i, prev);
    t := OnlyPLocks(s, t, p, eid, i, prev);
    t := IdleStaysReady(s, t, p, eid, i, prev);
    NowAvailable(t, p, eid, i, prev);
    t, j := OneCall(s, t, p, eid, i);
  }

  lemma NotKeptYet(s: System, t: System, eid: nat, i: nat)
    requires AllValid(s) && AllValid(t) && eid < MCTP_EID_MAX && i < INST_ID_MAX
    requires t.procs == s.procs && !Kept(s, eid, i)
    requires forall q, b: nat | q in s.procs :: (q, b) in t.readers <==> (q, b) in s.readers
    ensures !Kept(t, eid, i)
  {
    forall q: Fd, r: Fd ensures !Stuck(t, q, r, eid, i) { assert !Stuck(s, q, r, eid, i); }
  }

  lemma IdleStaysReady(s: System, t: System, p: Fd, eid: nat, i: nat, prev: nat) returns (u: System)
    requires From(s, t) && eid < MCTP_EID_MAX && i < INST_ID_MAX
    requires Ready(t, p, eid, i, prev) && OnlyLocker(t, p, eid, i)
    requires Locks(t, p, eid, i) ==> !HasBit(t.procs[p].states[eid].allocations, i)
    ensures From(s, u) && Ready(u, p, eid, i, prev) && OnlyLocker(u, p, eid, i) && u.procs[p].pc.Idle?
    ensures Locks(u, p, eid, i) ==> !HasBit(u.procs[p].states[eid].allocations, i)
  {
    u := MakeIdle(s, t, p);
    OnlyLockerStays(t, u, p, eid, i);
  }

  // ----------------------------------------------------------- exact condition

  lemma {:induction false} ReachableIsGood(trace: seq<System>, acts: seq<Action>, n: nat)
    requires IsRun(trace, acts) && n < |trace|
    ensures Good(trace[n])
  {
    if n > 0 {
      ReachableIsGood(trace, acts, n - 1);
      StepKeepsGood(trace[n - 1], acts[n - 1], trace[n]);
    }
  }

  lemma {:induction false} StarvingPath(trace: seq<System>, acts: seq<Action>, n: nat, p: Fd, eid: nat)
    requires IsPath(trace, acts) && n <= |acts| && Good(trace[0]) && eid < MCTP_EID_MAX && Starving(trace[0], p, eid)
    ensures Good(trace[n]) && Starving(trace[n], p, eid)
    ensures trace[n].procs[p].states[eid].prev == trace[0].procs[p].states[eid].prev
  {
    if n > 0 {
      StarvingPath(trace, acts, n - 1, p, eid);
      StepKeepsGood(trace[n - 1], acts[n - 1], trace[n]);
      StarvingStep(trace[n - 1], acts[n - 1], trace[n], p, eid);
    }
  }

  /** In every reachable state: the processes can go on so that a context is granted
      an instance ID of an endpoint, none of them being destroyed, if and only if
      the context does not starve for it. */
  lemma GrantableIffNotStarving(run: seq<System>, acts: seq<Action>, n: nat, p: Fd, eid: nat)
    requires IsRun(run, acts) && n < |run| && AllValid(run[n]) && p in run[n].procs && eid < MCTP_EID_MAX
    ensures CanBeGranted(run[n], p, eid) <==> !Starving(run[n], p, eid)
  {
    var s := run[n];
    ReachableIsGood(run, acts, n);
    if Starving(s, p, eid) {
      forall trace, steps | IsPath(trace, steps) && trace[0] == s ensures !Moved(s, trace[|steps|], p, eid) {
        StarvingPath(trace, steps, |steps|, p, eid);
      }
    } else {
      var i: nat :| i < INST_ID_MAX && i != s.procs[p].states[eid].prev && !Kept(s, eid, i);
      var t := Recover(s, p, eid, i);
      var trace, steps :| IsPath(trace, steps) && trace[0] == s && trace[|steps|] == t;
    }
  }
}
