/** The hand-off semaphore for coroutines (common/coroutineSemaphore.hpp) */
module CoroutineSemaphore {

  import opened Wrappers

  datatype Awaiter = Awaiter(awaiterId: nat, eid: int)

  /** The state of a semaphore: its token, who waits, and the last ID given */
  datatype Sem = Sem(token: nat, queue: seq<Awaiter>, lastId: nat)

  function Await(sem: Sem, a: Awaiter): Sem {
    if sem.token > 0 then sem.(token := sem.token - 1) else sem.(queue := sem.queue + [a])
  }

  /** The waiter at the front gets what is released, else the token does */
  function Release(sem: Sem): Sem {
    if sem.queue != [] then sem.(queue := sem.queue[1..]) else sem.(token := sem.token + 1)
  }

  class CoroutineSemaphore {
    var binarySem: nat
    var suspendedQueue: seq<Awaiter>
    var awaiterIdGenerator: nat

    function State(): Sem
      reads this
    {
      Sem(binarySem, suspendedQueue, awaiterIdGenerator)
    }

    constructor ()
      ensures State() == Sem(1, [], 0)
    {
      binarySem, suspendedQueue, awaiterIdGenerator := 1, [], 0;
    }

    method Acquire(eid: int) returns (a: Awaiter)
      modifies this
      ensures a == Awaiter(old(State()).lastId + 1, eid) && State() == old(State()).(lastId := a.awaiterId)
    {
      awaiterIdGenerator := awaiterIdGenerator + 1;
      a := Awaiter(awaiterIdGenerator, eid);
    }

    method AwaitReady() returns (ready: bool)
      modifies this
      ensures ready <==> old(State()).token > 0
      ensures State() == if ready then old(State()).(token := old(State()).token - 1) else old(State())
    {
      ready := binarySem > 0;
      if ready { binarySem := binarySem - 1; }
    }

    method AwaitSuspend(a: Awaiter)
      modifies this
      ensures State() == old(State()).(queue := old(State()).queue + [a])
    {
      suspendedQueue := suspendedQueue + [a];
    }

    /** co_await: the coroutine goes on if it is ready, and waits if it is not */
    method CoAwait(a: Awaiter) returns (ready: bool)
      modifies this
      ensures State() == Await(old(State()), a) && (ready <==> old(State()).token > 0)
    {
      ready := AwaitReady();
      if !ready { AwaitSuspend(a); }
    }

    /** The waiter whose resumption is to be deferred, if there is one */
    method ReleaseOne() returns (next: Option<Awaiter>)
      modifies this
      ensures State() == Release(old(State()))
      ensures next == if old(State()).queue == [] then None else Some(old(State()).queue[0])
    {
      next := None;
      if suspendedQueue != [] {
        next := Some(suspendedQueue[0]);
        suspendedQueue := suspendedQueue[1..];
      }
      if next == None { binarySem := binarySem + 1; }
    }
  }

  // --------------------------------------------- a semaphore and its clients

  /** The semaphore, the event loop and the coroutines.  `made` are awaiters not
      awaited yet, `deferred` the callbacks the event loop holds, `holders` the
      coroutines between their grant and their release, `lost` those whose
      callback could not be added.  `arrivals` and `grants` are histories. */
  datatype System = System(
    sem: Sem,
    made: set<Awaiter>,
    deferred: seq<Awaiter>,
    holders: set<Awaiter>,
    lost: seq<Awaiter>,
    arrivals: seq<Awaiter>,
    grants: seq<Awaiter>)

  function Init(): System {
    System(Sem(1, [], 0), {}, [], {}, [], [], [])
  }

  datatype Action =
    | Acquires(eid: int)
    | Awaits(a: Awaiter)
    | Releases(a: Awaiter, scheduled: bool)  // whether sd_event_add_defer succeeds
    | Resumes(i: nat)                        // a deferred callback, whichever comes next

  predicate Enabled(s: System, act: Action) {
    match act
    case Acquires(_) => true
    case Awaits(a) => a in s.made
    case Releases(a, _) => a in s.holders
    case Resumes(i) => i < |s.deferred|
  }

  function Apply(s: System, act: Action): System
    requires Enabled(s, act)
  {
    match act
    case Acquires(eid) =>
      var a := Awaiter(s.sem.lastId + 1, eid);
      s.(sem := s.sem.(lastId := a.awaiterId), made := s.made + {a})
    case Awaits(a) =>
      var s1 := s.(sem := Await(s.sem, a), made := s.made - {a}, arrivals := s.arrivals + [a]);
      if s.sem.token > 0 then Grant(s1, a) else s1
    case Releases(a, scheduled) =>
      var s1 := s.(sem := Release(s.sem), holders := s.holders - {a});
      if s.sem.queue == [] then s1
      else if scheduled then s1.(deferred := s.deferred + [s.sem.queue[0]])
      else s1.(lost := s.lost + [s.sem.queue[0]])
    case Resumes(i) =>
      Grant(s.(deferred := s.deferred[..i] + s.deferred[i + 1..]), s.deferred[i])
  }

  function Grant(s: System, a: Awaiter): System {
    s.(holders := s.holders + {a}, grants := s.grants + [a])
  }

  /** The states of a run */
  predicate IsRun(run: seq<System>, acts: seq<Action>) {
    |run| == |acts| + 1 && run[0] == Init()
    && forall i | 0 <= i < |acts| :: Enabled(run[i], acts[i]) && run[i + 1] == Apply(run[i], acts[i])
  }

  // --------------------------------------------------------------- invariant

  /** The token is in one place */
  predicate Conserved(s: System) {
    s.sem.token + |s.holders| + |s.deferred| + |s.lost| == 1
  }

  predicate NoLostWakeup(s: System) {
    s.sem.queue != [] ==> s.sem.token == 0
  }

  /** Grants follow the order of arrival */
  predicate Fifo(s: System) {
    s.grants + s.deferred + s.lost + s.sem.queue == s.arrivals
  }

  /** Each awaiter arrives once */
  predicate Once(s: System) {
    && (forall a <- s.made :: a.awaiterId <= s.sem.lastId && a !in s.arrivals)
    && (forall a <- s.arrivals :: a.awaiterId <= s.sem.lastId)
    && (forall i, j | 0 <= i < j < |s.arrivals| :: s.arrivals[i] != s.arrivals[j])
  }

  predicate Inv(s: System) {
    Conserved(s) && NoLostWakeup(s) && Fifo(s) && Once(s) && (forall a <- s.holders :: a in s.grants)
  }

  lemma StepKeepsConserved(s: System, act: Action)
    requires Conserved(s) && NoLostWakeup(s) && Enabled(s, act)
    ensures Conserved(Apply(s, act)) && NoLostWakeup(Apply(s, act))
  {
    if act.Releases? { assert s.holders == s.holders - {act.a} + {act.a}; }
    if act.Awaits? && s.sem.token > 0 { assert s.holders == {}; }
    if act.Resumes? { assert s.holders == {} && act.i == 0; }
  }

  lemma StepKeepsFifo(s: System, act: Action)
    requires Inv(s) && Enabled(s, act)
    ensures Fifo(Apply(s, act))
  {
    if act.Awaits? && s.sem.token > 0 {
      assert s.deferred == [] && s.lost == [] && s.sem.queue == [];
      assert s.grants == s.arrivals;
    } else if act.Releases? {
      HandOffKeepsFifo(s, act);
    } else if act.Resumes? {
      assert |s.deferred| == 1 && s.lost == [];
      assert s.deferred == [s.deferred[act.i]];
      assert s.grants + s.deferred + s.sem.queue == s.arrivals;
    }
  }

  lemma HandOffKeepsFifo(s: System, act: Action)
    requires Inv(s) && Enabled(s, act) && act.Releases?
    ensures Fifo(Apply(s, act))
  {
    assert s.holders == s.holders - {act.a} + {act.a};
    assert s.deferred == [] && s.lost == [];
    assert s.grants + s.sem.queue == s.arrivals;
    if s.sem.queue != [] { assert s.sem.queue == [s.sem.queue[0]] + s.sem.queue[1..]; }
  }

  lemma StepKeepsInv(s: System, act: Action)
    requires Inv(s) && Enabled(s, act)
    ensures Inv(Apply(s, act))
  {
    StepKeepsConserved(s, act);
    StepKeepsFifo(s, act);
    StepKeepsOnce(s, act);
  }

  lemma StepKeepsOnce(s: System, act: Action)
    requires Once(s) && (forall a <- s.holders :: a in s.grants) && Enabled(s, act)
    ensures var t := Apply(s, act); Once(t) && forall a <- t.holders :: a in t.grants
  {
  }

  lemma {:induction false} RunKeepsInv(run: seq<System>, acts: seq<Action>, n: nat)
    requires IsRun(run, acts) && n < |run|
    ensures Inv(run[n])
  {
    if n > 0 {
      RunKeepsInv(run, acts, n - 1);
      StepKeepsInv(run[n - 1], acts[n - 1]);
    }
  }

  // ------------------------------------------------------------ main results

  /** In every reachable state, the free token, running holders and scheduled
      resumptions are one in all, unless a callback was lost; then they are none,
      and stay none. */
  lemma OneTokenUnlessLost(run: seq<System>, acts: seq<Action>, n: nat)
    requires IsRun(run, acts) && n < |run|
    ensures var s := run[n];
      s.sem.token + |s.holders| + |s.deferred| == if s.lost == [] then 1 else 0
    ensures run[n].sem.queue != [] ==> run[n].sem.token == 0
  {
    RunKeepsInv(run, acts, n);
  }

  lemma {:induction false} NothingAfterALoss(run: seq<System>, acts: seq<Action>, m: nat, n: nat)
    requires IsRun(run, acts) && m <= n < |run| && run[m].lost != []
    ensures run[n].grants == run[m].grants && run[n].lost == run[m].lost && run[n].holders == {}
    decreases n
  {
    RunKeepsInv(run, acts, n);
    RunKeepsInv(run, acts, m);
    if m < n {
      NothingAfterALoss(run, acts, m, n - 1);
      OneTokenUnlessLost(run, acts, n - 1);
      assert run[n] == Apply(run[n - 1], acts[n - 1]);
    }
  }

  /** Grants are made in the order of arrival, so no newcomer overtakes a
      coroutine that is queued or scheduled, and nobody is granted twice. */
  lemma GrantsInOrder(run: seq<System>, acts: seq<Action>, n: nat)
    requires IsRun(run, acts) && n < |run|
    ensures var s := run[n]; s.grants <= s.arrivals
    ensures var s := run[n]; forall i, j | 0 <= i < j < |s.grants| :: s.grants[i] != s.grants[j]
  {
    RunKeepsInv(run, acts, n);
    var s := run[n];
    assert forall i | 0 <= i < |s.grants| :: s.grants[i] == s.arrivals[i];
  }

  /** Awaiters are awaited before the next one is made, as
      `co_await semaphore.acquire(eid)` does */
  predicate AwaitedAtOnce(run: seq<System>, acts: seq<Action>)
    requires IsRun(run, acts)
  {
    forall i | 0 <= i < |acts| && acts[i].Acquires? :: run[i].made == {}
  }

  lemma {:induction false} ArrivalsAreNumbered(run: seq<System>, acts: seq<Action>, n: nat)
    requires IsRun(run, acts) && n < |run| && AwaitedAtOnce(run, acts)
    ensures forall i | 0 <= i < |run[n].arrivals| :: run[n].arrivals[i].awaiterId == i + 1
    ensures if run[n].made == {} then run[n].sem.lastId == |run[n].arrivals|
      else exists a :: run[n].made == {a} && a.awaiterId == run[n].sem.lastId == |run[n].arrivals| + 1
  {
    if n > 0 {
      ArrivalsAreNumbered(run, acts, n - 1);
      var s, act := run[n - 1], acts[n - 1];
      if act.Acquires? {
        assert run[n].made == {Awaiter(s.sem.lastId + 1, act.eid)};
      } else if act.Awaits? {
        assert run[n].made == {};
      }
    }
  }

  /** The n-th grant goes to the awaiter with ID n */
  lemma NthGrantToAwaiterN(run: seq<System>, acts: seq<Action>, n: nat, k: nat)
    requires IsRun(run, acts) && n < |run| && AwaitedAtOnce(run, acts) && k < |run[n].grants|
    ensures run[n].grants[k].awaiterId == k + 1
  {
    ArrivalsAreNumbered(run, acts, n);
    GrantsInOrder(run, acts, n);
  }

  /** A release that finds somebody waiting */
  predicate IsHandOff(s: System, act: Action) {
    act.Releases? && s.sem.queue != []
  }

  /** Those from step m to step n */
  function HandOffs(run: seq<System>, acts: seq<Action>, m: nat, n: nat): nat
    requires |run| == |acts| + 1 && m <= n <= |acts|
  {
    if m == n then 0 else HandOffs(run, acts, m, n - 1) + if IsHandOff(run[n - 1], acts[n - 1]) then 1 else 0
  }

  /** `a` is at index i of the queue; or was handed the semaphore last, when i is
      -1; or has been granted it, when i is less */
  predicate Stands(s: System, a: Awaiter, i: int) {
    if i >= 0 then i < |s.sem.queue| && s.sem.queue[i] == a
    else a !in s.sem.queue && a in if i == -1 then s.grants + s.deferred + s.lost else s.grants
  }

  /** A waiter at index k of the queue leaves it with exactly the k+1st hand-off
      from then on, and has been granted the semaphore before the next. */
  lemma {:induction false} WaitsForItsTurn(run: seq<System>, acts: seq<Action>, m: nat, n: nat, k: nat)
    requires IsRun(run, acts) && m <= n <= |acts| && k < |run[m].sem.queue|
    ensures Stands(run[n], run[m].sem.queue[k], k - HandOffs(run, acts, m, n))
    decreases n
  {
    if m < n {
      var h, h' := HandOffs(run, acts, m, n - 1), HandOffs(run, acts, m, n);
      WaitsForItsTurn(run, acts, m, n - 1, k);
      MovesUp(run, acts, n - 1, run[m].sem.queue[k], k - h, k - h');
    }
  }

  lemma MovesUp(run: seq<System>, acts: seq<Action>, n: nat, a: Awaiter, i: int, i': int)
    requires IsRun(run, acts) && n < |acts| && Stands(run[n], a, i)
    requires i' == if IsHandOff(run[n], acts[n]) then i - 1 else i
    ensures Stands(run[n + 1], a, i')
  {
    RunKeepsInv(run, acts, n);
    RunKeepsInv(run, acts, n + 1);
    if IsHandOff(run[n], acts[n]) {
      HandOffMovesUp(run[n], acts[n], run[n + 1], a, i);
    } else {
      OthersStay(run[n], acts[n], run[n + 1], a, i);
    }
  }

  lemma HandOffMovesUp(s: System, act: Action, t: System, a: Awaiter, i: int)
    requires Inv(s) && Enabled(s, act) && t == Apply(s, act) && Inv(t) && IsHandOff(s, act) && Stands(s, a, i)
    ensures Stands(t, a, i - 1)
  {
    NobodyInBetween(s, act.a);
    if i <= 0 { TurnCame(t, a); }
  }

  lemma OthersStay(s: System, act: Action, t: System, a: Awaiter, i: int)
    requires Inv(s) && Enabled(s, act) && t == Apply(s, act) && Inv(t) && !IsHandOff(s, act) && Stands(s, a, i)
    ensures Stands(t, a, i)
  {
    if i < 0 { TurnCame(t, a); }
  }

  /** While somebody holds the semaphore, nobody is scheduled or lost */
  lemma NobodyInBetween(s: System, a: Awaiter)
    requires Inv(s) && a in s.holders
    ensures s.deferred == [] && s.lost == []
  {
    assert s.holders == s.holders - {a} + {a};
  }

  lemma TurnCame(t: System, a: Awaiter)
    requires Inv(t) && a in t.grants + t.deferred + t.lost
    ensures a !in t.sem.queue
  {
    var served := t.grants + t.deferred + t.lost;
    var i :| 0 <= i < |served| && served[i] == a;
    assert t.arrivals == served + t.sem.queue;
    assert t.arrivals[i] == a;
    forall j | 0 <= j < |t.sem.queue| ensures t.sem.queue[j] != a {
      assert t.sem.queue[j] == t.arrivals[|served| + j];
    }
  }

  /** A waiter at index k of the queue runs, when its callback does, after exactly
      k + 1 further hand-offs. */
  lemma RunsInItsTurn(run: seq<System>, acts: seq<Action>, m: nat, n: nat, k: nat)
    requires IsRun(run, acts) && m <= n < |acts| && k < |run[m].sem.queue|
    requires acts[n].Resumes? && run[n].deferred[acts[n].i] == run[m].sem.queue[k]
    ensures HandOffs(run, acts, m, n) == k + 1
  {
    WaitsForItsTurn(run, acts, m, n, k);
    RunKeepsInv(run, acts, n);
    ScheduledIsNowhereElse(run[n], acts[n].i);
  }

  lemma ScheduledIsNowhereElse(s: System, i: nat)
    requires Inv(s) && i < |s.deferred|
    ensures s.deferred[i] !in s.grants && s.deferred[i] !in s.sem.queue
  {
    var a, d, q := s.deferred[i], |s.grants|, |s.grants| + |s.deferred| + |s.lost|;
    assert s.arrivals[d + i] == a;
    forall j | 0 <= j < |s.grants| ensures s.grants[j] != a { assert s.arrivals[j] == s.grants[j]; }
    forall j | 0 <= j < |s.sem.queue| ensures s.sem.queue[j] != a { assert s.arrivals[q + j] == s.sem.queue[j]; }
  }

  // ---------------------------------------------------------------- progress

  /** What is left to do for those who have arrived */
  function Pending(s: System): nat {
    2 * |s.sem.queue| + 2 * |s.holders| + 3 * |s.deferred|
  }

  /** While somebody waits and no callback was lost, a holder can release or a
      callback can run, */
  lemma NotStuck(run: seq<System>, acts: seq<Action>, n: nat)
    requires IsRun(run, acts) && n < |run| && run[n].sem.queue != [] && run[n].lost == []
    ensures |run[n].deferred| > 0 || exists a :: a in run[n].holders
  {
    RunKeepsInv(run, acts, n);
    if run[n].deferred == [] { assert |run[n].holders| == 1; }
  }

  /** and every such step brings the queue closer to its end. */
  lemma EveryStepHelps(run: seq<System>, acts: seq<Action>, n: nat)
    requires IsRun(run, acts) && n < |acts| && (acts[n].Releases? || acts[n].Resumes?)
    ensures Pending(run[n + 1]) < Pending(run[n])
  {
    RunKeepsInv(run, acts, n);
    var s := run[n];
    if acts[n].Releases? {
      assert s.holders == s.holders - {acts[n].a} + {acts[n].a};
    } else {
      assert s.holders == {};
    }
  }

  /** Steps from a state */
  predicate IsPath(path: seq<System>, acts: seq<Action>, s: System) {
    |path| == |acts| + 1 && path[0] == s
    && forall i | 0 <= i < |acts| :: Enabled(path[i], acts[i]) && path[i + 1] == Apply(path[i], acts[i])
  }

  lemma PathFrom(s: System, act: Action, path: seq<System>, acts: seq<Action>)
    requires Enabled(s, act) && IsPath(path, acts, Apply(s, act))
    ensures IsPath([s] + path, [act] + acts, s)
  {
  }

  /** Nobody waits, holds or is scheduled, and everybody who arrived was granted */
  predicate Served(s: System) {
    s.sem == Sem(1, [], s.sem.lastId) && s.holders == {} && s.deferred == [] && s.grants == s.arrivals
  }

  lemma {:induction false} Drain(s: System) returns (path: seq<System>, acts: seq<Action>)
    requires Inv(s) && s.lost == []
    ensures IsPath(path, acts, s) && Served(path[|acts|]) && path[|acts|].arrivals == s.arrivals
    ensures forall act <- acts :: act.Resumes? || act.Releases?
    decreases Pending(s)
  {
    path, acts := [s], [];
    if s.deferred != [] || s.holders != {} {
      var act := Resumes(0);
      if s.deferred == [] {
        var a :| a in s.holders;
        act := Releases(a, true);
      }
      DrainStep(s, act);
      path, acts := Drain(Apply(s, act));
      PathFrom(s, act, path, acts);
      path, acts := [s] + path, [act] + acts;
    } else {
      AllServed(s);
    }
  }

  lemma DrainStep(s: System, act: Action)
    requires Inv(s) && Enabled(s, act) && (act.Resumes? || (act.Releases? && act.scheduled)) && s.lost == []
    ensures var t := Apply(s, act);
      Inv(t) && t.lost == [] && t.arrivals == s.arrivals && Pending(t) < Pending(s)
  {
    StepKeepsInv(s, act);
    if act.Releases? {
      assert s.holders == s.holders - {act.a} + {act.a};
    } else {
      assert s.holders == {};
    }
  }

  lemma AllServed(s: System)
    requires Inv(s) && s.lost == [] && s.deferred == [] && s.holders == {}
    ensures Served(s)
  {
    assert s.sem.token == 1;
    assert s.sem.queue == [];
    assert s.grants + s.deferred + s.lost + s.sem.queue == s.grants;
  }

  /** In every reachable state in which no callback was lost, holders and the event
      loop can go on so that everybody who has arrived is granted the semaphore,
      and it is free in the end. */
  lemma EverybodyCanBeServed(run: seq<System>, acts: seq<Action>, n: nat)
    returns (path: seq<System>, more: seq<Action>)
    requires IsRun(run, acts) && n < |run| && run[n].lost == []
    ensures IsPath(path, more, run[n]) && Served(path[|more|]) && path[|more|].arrivals == run[n].arrivals
    ensures forall act <- more :: act.Resumes? || act.Releases?
  {
    RunKeepsInv(run, acts, n);
    path, more := Drain(run[n]);
  }

  /** And whoever makes an awaiter can await it, once, and arrives. */
  lemma ArrivesOnce(run: seq<System>, acts: seq<Action>, n: nat, eid: int)
    requires IsRun(run, acts) && n < |run|
    ensures Enabled(run[n], Acquires(eid))
    ensures var s := Apply(run[n], Acquires(eid)); var a := Awaiter(s.sem.lastId, eid);
      && Enabled(s, Awaits(a)) && a !in s.arrivals
      && var t := Apply(s, Awaits(a)); t.arrivals == s.arrivals + [a] && !Enabled(t, Awaits(a))
  {
    RunKeepsInv(run, acts, n);
  }
}
