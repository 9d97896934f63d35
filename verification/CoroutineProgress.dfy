/** Coroutines can always come to an end (common/coroutine.hpp) */
module CoroutineProgress {
  import opened Coroutine
  import opened Wrappers

  /** Steps from a state */
  predicate IsPath(path: seq<System>, acts: seq<Action>, s: System) {
    |path| == |acts| + 1 && path[0] == s
    && forall i | 0 <= i < |acts| ::
         StackOk(path[i]) && Enabled(path[i], acts[i]) && path[i + 1] == Apply(path[i], acts[i])
  }

  lemma PathFrom(s: System, act: Action, path: seq<System>, acts: seq<Action>)
    requires StackOk(s) && Enabled(s, act) && IsPath(path, acts, Apply(s, act))
    ensures IsPath([s] + path, [act] + acts, s)
  {
  }

  /** What a coroutine has to do still, and its object */
  function Left(cell: Cell): nat {
    (match cell.place
     case Over => 0
     case Active => 1
     case Reading(_) => 2
     case Waiting => 2
     case Awaiting(_) => 3)
    + if cell.holder == Nobody then 0 else 1
  }

  function AllLeft(cells: seq<Cell>): nat {
    if cells == [] then 0 else Left(cells[0]) + AllLeft(cells[1..])
  }

  lemma {:induction false} LeftAfter(cells: seq<Cell>, i: nat, cell: Cell)
    requires i < |cells|
    ensures AllLeft(cells[i := cell]) == AllLeft(cells) - Left(cells[i]) + Left(cell)
  {
    if i > 0 {
      assert cells[i := cell][1..] == cells[1..][i - 1 := cell];
      LeftAfter(cells[1..], i - 1, cell);
    } else {
      assert cells[0 := cell][1..] == cells[1..];
    }
  }

  /** All coroutines have ended, and no object is left */
  predicate AllOver(s: System) {
    forall f | 0 <= f < |s.cells| :: s.cells[f].place == Over && s.cells[f].holder == Nobody
  }

  lemma PickUpLess(s: System)
    requires Inv(s) && Enabled(s, PickUp)
    ensures AllLeft(Apply(s, PickUp).cells) < AllLeft(s.cells)
  {
    var p, c := Top(s), s.cells[Top(s)].place.child;
    assert CellOk(s, p);
    var mid := Move(s, p, Active);
    LeftAfter(s.cells, p, mid.cells[p]);
    LeftAfter(mid.cells, c, Apply(s, PickUp).cells[c]);
  }

  lemma FinishLess(s: System)
    requires Inv(s) && Enabled(s, Finish)
    ensures AllLeft(Apply(s, Finish).cells) < AllLeft(s.cells)
  {
    var f, t := Top(s), Apply(s, Finish);
    assert CellOk(s, f);
    var mid := With(s, f, s.cells[f].(frame := Finished(s.cells[f].frame), place := Over));
    LeftAfter(s.cells, f, mid.cells[f]);
    if s.cells[f].frame.parent.Some? {
      var p := s.cells[f].frame.parent.value;
      LeftAfter(mid.cells, p, t.cells[p]);
    }
  }

  /** With nothing on the stack and no object outside, somebody waits to be resumed */
  lemma Sleeper(s: System) returns (f: nat)
    requires Inv(s) && !AllOver(s) && s.stack == [] && forall c | 0 <= c < |s.cells| :: s.cells[c].holder != Outside
    ensures f < |s.cells| && s.cells[f].place == Waiting
  {
    var g: nat :| g < |s.cells| && !(s.cells[g].place == Over && s.cells[g].holder == Nobody);
    assert CellOk(s, g);
    if s.cells[g].place == Over { g := s.cells[g].holder.p; }
    var fs := ChainFrom(s, g);
    f := fs[|fs| - 1];
  }

  /** What to do next: the code that runs picks up a result, gives its objects away
      and ends; and when none runs, somebody who waits is resumed. */
  lemma NextStep(s: System) returns (act: Action)
    requires Inv(s) && !AllOver(s)
    ensures Enabled(s, act) && !act.Call? && !act.Drop? && AllLeft(Apply(s, act).cells) < AllLeft(s.cells)
  {
    if s.stack != [] && s.cells[Top(s)].place.Reading? {
      act := PickUp;
      assert CellOk(s, Top(s));
      PickUpLess(s);
    } else if c: nat :| c < |s.cells| && s.cells[c].holder == Code(s) {
      act := Detach(c);
      LeftAfter(s.cells, c, Apply(s, act).cells[c]);
    } else if s.stack != [] {
      act := Finish;
      FinishLess(s);
    } else {
      var f := Sleeper(s);
      act := Resume(f);
      LeftAfter(s.cells, f, Apply(s, act).cells[f]);
    }
  }

  /** The same frames are orphaned */
  predicate SameOrphans(s: System, t: System) {
    |t.cells| == |s.cells| && forall f | 0 <= f < |s.cells| :: t.cells[f].orphan == s.cells[f].orphan
  }

  lemma NoOrphan(s: System, act: Action)
    requires Inv(s) && Enabled(s, act) && !act.Call? && !act.Drop?
    ensures SameOrphans(s, Apply(s, act))
  {
    forall f | 0 <= f < |s.cells| ensures Apply(s, act).cells[f].orphan == s.cells[f].orphan {
      OrphanStep(s, act, f);
    }
  }

  lemma {:induction false} WindDown(s: System) returns (path: seq<System>, acts: seq<Action>)
    requires Inv(s)
    ensures IsPath(path, acts, s) && AllOver(path[|acts|]) && forall act <- acts :: !act.Call? && !act.Drop?
    ensures Inv(path[|acts|]) && SameOrphans(s, path[|acts|])
    decreases AllLeft(s.cells)
  {
    path, acts := [s], [];
    if !AllOver(s) {
      var act := NextStep(s);
      StepKeepsInv(s, act);
      NoOrphan(s, act);
      path, acts := WindDown(Apply(s, act));
      PathFrom(s, act, path, acts);
      path, acts := [s] + path, [act] + acts;
    }
  }

  /** Nothing deadlocks: from every reachable state the coroutines there are can all
      come to their end, without a call of another and without dropping an object;
      and then each frame has been destroyed once but those that were orphaned. */
  lemma CanAllEnd(run: seq<System>, acts: seq<Action>, n: nat) returns (path: seq<System>, more: seq<Action>)
    requires IsRun(run, acts) && n < |run|
    ensures IsPath(path, more, run[n]) && AllOver(path[|more|]) && forall act <- more :: !act.Call? && !act.Drop?
    ensures var s, t := run[n], path[|more|];
      |t.cells| == |s.cells| && forall f | 0 <= f < |s.cells| ::
        t.cells[f].frame.destroys == if s.cells[f].orphan then 0 else 1
  {
    RunKeepsInv(run, acts, n);
    path, more := WindDown(run[n]);
    var t := path[|more|];
    forall f | 0 <= f < |t.cells| ensures t.cells[f].frame.destroys == if t.cells[f].orphan then 0 else 1 {
      assert CellOk(t, f);
    }
  }

  // ------------------------------------------------------- chains of any depth

  /** The object of coroutine i, if each calls the next */
  function CallerOf(i: nat): Holder {
    if i == 0 then Outside else By(i - 1)
  }

  /** n coroutines, each called by the one before */
  function Nested(n: nat): System {
    System(seq(n, i requires i >= 0 => Cell(NewFrame(), Active, CallerOf(i), false, 0, 0)), seq(n, i => i))
  }

  /** The last of them waits, and all from k on await the next */
  function Suspended(n: nat, k: nat): System
    requires k < n
  {
    System(seq(n, i requires 0 <= i < n => SuspendedCell(n, k, i)), seq(k, i => i))
  }

  function SuspendedCell(n: nat, k: nat, i: nat): Cell
    requires k < n && i < n
  {
    Cell(if i <= k then NewFrame() else NewFrame().(parent := Some(i - 1)),
         if i < k then Active else if i == n - 1 then Waiting else Awaiting(i + 1),
         CallerOf(i), false, if k <= i < n - 1 then 1 else 0, 0)
  }

  lemma CallNested(n: nat)
    ensures StackOk(Nested(n)) && Enabled(Nested(n), Call) && Apply(Nested(n), Call) == Nested(n + 1)
  {
  }

  lemma SuspendLast(n: nat)
    requires n > 0
    ensures StackOk(Nested(n)) && Enabled(Nested(n), Suspend)
    ensures Apply(Nested(n), Suspend) == Suspended(n, n - 1)
  {
  }

  lemma AwaitNext(n: nat, k: nat)
    requires 0 < k < n
    ensures StackOk(Suspended(n, k)) && Enabled(Suspended(n, k), Await(k))
    ensures Apply(Suspended(n, k), Await(k)) == Suspended(n, k - 1)
  {
  }

  /** The states and steps of such a run */
  function StateAt(n: nat, i: nat): System
    requires n > 0
  {
    if i <= n then Nested(i) else Suspended(n, if i <= 2 * n then 2 * n - i else 0)
  }

  function ActionAt(n: nat, i: nat): Action {
    if i < n then Call else if i == n then Suspend else Await(if i <= 2 * n then 2 * n - i else 0)
  }

  lemma StepAt(n: nat, i: nat)
    requires i < 2 * n
    ensures StackOk(StateAt(n, i)) && Enabled(StateAt(n, i), ActionAt(n, i))
    ensures StateAt(n, i + 1) == Apply(StateAt(n, i), ActionAt(n, i))
  {
    if i < n { CallNested(i); } else if i == n { SuspendLast(n); } else { AwaitNext(n, 2 * n - i); }
  }

  lemma SuspendedChain(n: nat, fs: seq<nat>)
    requires n > 0 && |fs| == n && forall i | 0 <= i < n :: fs[i] == i
    ensures Chain(Suspended(n, 0), fs) && Suspended(n, 0).stack == [] && Suspended(n, 0).cells[n - 1].place == Waiting
  {
  }

  /** Await chains of every depth are reachable */
  lemma DeepChain(n: nat) returns (run: seq<System>, acts: seq<Action>, fs: seq<nat>)
    requires n > 0
    ensures IsRun(run, acts) && |fs| == n && Chain(run[|acts|], fs) && run[|acts|].stack == []
    ensures fs[n - 1] < |run[|acts|].cells| && run[|acts|].cells[fs[n - 1]].place == Waiting
  {
    run := seq(2 * n + 1, i requires i >= 0 => StateAt(n, i));
    acts := seq(2 * n, i requires i >= 0 => ActionAt(n, i));
    fs := seq(n, i requires i >= 0 => i);
    forall i: nat | i < 2 * n
      ensures StackOk(run[i]) && Enabled(run[i], acts[i]) && run[i + 1] == Apply(run[i], acts[i])
    {
      StepAt(n, i);
    }
    assert run[0] == Init();
    assert run[2 * n] == Suspended(n, 0);
    SuspendedChain(n, fs);
  }

  /** An object that is dropped before its coroutine has ended leaks the frame */
  lemma DropOrphans(run: seq<System>, acts: seq<Action>, n: nat, f: nat)
    requires IsRun(run, acts) && n < |run| && f < |run[n].cells| && StackOk(run[n]) && CodeRuns(run[n])
    requires run[n].cells[f].holder == Code(run[n]) && run[n].cells[f].place != Over
    ensures Enabled(run[n], Drop(f)) && Apply(run[n], Drop(f)).cells[f].orphan
  {
    RunKeepsInv(run, acts, n);
    assert CellOk(run[n], f);
  }
}
