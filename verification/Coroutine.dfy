/** The coroutine type: who resumes whom, and who destroys a frame
  (common/coroutine.hpp).
 */
module Coroutine {

  import opened Wrappers

  /** A frame with its promise.  `destroys` counts the calls of destroy(). */
  datatype Frame<P> = Frame(done: bool, parent: Option<P>, detached: bool, destroys: nat)

  function NewFrame<P>(): Frame<P> {
    Frame(false, None, false, 0)
  }

  function Destroyed<P>(f: Frame<P>): Frame<P> {
    f.(destroys := f.destroys + 1)
  }

  /** ~Coroutine: only a coroutine that is done is destroyed */
  function Destructed<P>(f: Frame<P>): Frame<P> {
    if f.done then Destroyed(f) else f
  }

  function Detached<P>(f: Frame<P>): Frame<P> {
    if f.done then Destroyed(f) else f.(detached := true)
  }

  /** Reaching the end: a detached frame destroys itself */
  function Finished<P>(f: Frame<P>): Frame<P> {
    var g := f.(done := true);
    if g.detached then Destroyed(g) else g
  }

  class CoroutineFrame {
    var done: bool
    var parentHandle: CoroutineFrame?
    var detached: bool
    ghost var destroys: nat

    ghost function State(): Frame<CoroutineFrame>
      reads this
    {
      var parent := if parentHandle == null then None else var p: CoroutineFrame := parentHandle; Some(p);
      Frame(done, parent, detached, destroys)
    }

    constructor ()
      ensures State() == NewFrame()
    {
      done, parentHandle, detached, destroys := false, null, false, 0;
    }

    ghost method Destroy()
      requires destroys == 0
      modifies this
      ensures State() == Destroyed(old(State()))
    {
      destroys := destroys + 1;
    }

    /** The body has ended; the frame to go on with, if any */
    method FinalSuspend() returns (next: CoroutineFrame?)
      requires destroys == 0
      modifies this
      ensures State() == Finished(old(State()))
      ensures next == old(parentHandle)
    {
      done := true;
      next := parentHandle;
      if detached { Destroy(); }
    }
  }

  class CoroutineObject {
    var handle: CoroutineFrame?

    constructor (handle: CoroutineFrame)
      ensures this.handle == handle
    {
      this.handle := handle;
    }

    method AwaitReady() returns (ready: bool)
      requires handle != null && handle.destroys == 0
      ensures ready <==> handle.done
    {
      ready := handle.done;
    }

    method AwaitSuspend(coroutine: CoroutineFrame) returns (suspend: bool)
      requires handle != null && handle.destroys == 0
      modifies handle
      ensures suspend && handle.State() == old(handle.State()).(parent := Some(coroutine))
    {
      handle.parentHandle := coroutine;
      suspend := true;
    }

    /** ~Coroutine */
    method Destruct()
      requires handle != null ==> handle.destroys == 0
      modifies handle
      ensures handle != null ==> handle.State() == Destructed(old(handle.State()))
    {
      if handle != null && handle.done { handle.Destroy(); }
    }

    method Detach()
      requires handle != null ==> handle.destroys == 0
      modifies this, handle
      ensures handle == null
      ensures var h := old(handle); h != null ==> h.State() == Detached(old(handle.State()))
    {
      if handle == null { return; }
      if handle.done { handle.Destroy(); } else { handle.detached := true; }
      handle := null;
    }
  }

  // ------------------------------------------------------- all the coroutines

  /** Where a coroutine stands: on the stack; on the stack with the result of a
      coroutine it awaited to pick up; waiting for somebody outside; awaiting
      a coroutine; or past its end */
  datatype Place = Active | Reading(child: nat) | Waiting | Awaiting(child: nat) | Over

  /** Who has the Coroutine object: code outside coroutines, or a coroutine */
  datatype Holder = Outside | By(p: nat) | Nobody

  /** `orphan`: the object was dropped while the coroutine was not done.
      `waits` and `resumes`: how often it suspended in co_await of a coroutine,
      and how often a final suspend resumed it. */
  datatype Cell = Cell(frame: Frame<nat>, place: Place, holder: Holder, orphan: bool, waits: nat, resumes: nat)

  /** The frames by number, and those on the stack, the last one executing */
  datatype System = System(cells: seq<Cell>, stack: seq<nat>)

  function Init(): System {
    System([], [])
  }

  datatype Action =
    | Call           // a coroutine function is called
    | Suspend        // on something that is not a coroutine: an event, a semaphore
    | Resume(f: nat) // and its resumption
    | Await(c: nat)
    | PickUp         // await_resume, and the end of the Coroutine object
    | Detach(c: nat)
    | Drop(c: nat)   // the end of an object neither awaited nor detached
    | Finish

  predicate StackOk(s: System) {
    forall i | 0 <= i < |s.stack| :: s.stack[i] < |s.cells|
  }

  function Top(s: System): nat
    requires s.stack != []
  {
    s.stack[|s.stack| - 1]
  }

  function Code(s: System): Holder {
    if s.stack == [] then Outside else By(Top(s))
  }

  predicate CodeRuns(s: System)
    requires StackOk(s)
  {
    s.stack == [] || s.cells[Top(s)].place == Active
  }

  /** Code may do what it likes with the objects it has, but a coroutine does not
      end before its objects; and whoever resumes a coroutine resumes one that
      waits. */
  predicate Enabled(s: System, act: Action)
    requires StackOk(s)
  {
    match act
    case Call => CodeRuns(s)
    case Suspend => s.stack != [] && CodeRuns(s)
    case Resume(f) => CodeRuns(s) && f < |s.cells| && s.cells[f].place == Waiting
    case Await(c) => s.stack != [] && CodeRuns(s) && c < |s.cells| && s.cells[c].holder == Code(s)
    case PickUp => s.stack != [] && s.cells[Top(s)].place.Reading? && s.cells[Top(s)].place.child < |s.cells|
    case Detach(c) => CodeRuns(s) && c < |s.cells| && s.cells[c].holder == Code(s)
    case Drop(c) => CodeRuns(s) && c < |s.cells| && s.cells[c].holder == Code(s)
    case Finish => s.stack != [] && CodeRuns(s) && forall c | 0 <= c < |s.cells| :: s.cells[c].holder != Code(s)
  }

  function Pop(s: System): System
    requires s.stack != []
  {
    s.(stack := s.stack[..|s.stack| - 1])
  }

  function Push(s: System, f: nat): System {
    s.(stack := s.stack + [f])
  }

  function With(s: System, f: nat, cell: Cell): System
    requires f < |s.cells|
  {
    s.(cells := s.cells[f := cell])
  }

  function Move(s: System, f: nat, place: Place): System
    requires f < |s.cells|
  {
    With(s, f, s.cells[f].(place := place))
  }

  /** The object is gone, and this is what it did to the frame */
  function Let(s: System, c: nat, frame: Frame<nat>): System
    requires c < |s.cells|
  {
    With(s, c, s.cells[c].(frame := frame, holder := Nobody))
  }

  function Apply(s: System, act: Action): System
    requires StackOk(s) && Enabled(s, act)
  {
    match act
    case Call =>
      Push(s.(cells := s.cells + [Cell(NewFrame(), Active, Code(s), false, 0, 0)]), |s.cells|)
    case Suspend => Pop(Move(s, Top(s), Waiting))
    case Resume(f) => Push(Move(s, f, Active), f)
    case Await(c) =>
      var p, cell := Top(s), s.cells[c];
      if cell.frame.done then Move(s, p, Reading(c))
      else
        var s1 := With(s, c, cell.(frame := cell.frame.(parent := Some(p))));
        Pop(With(s1, p, s1.cells[p].(place := Awaiting(c), waits := s1.cells[p].waits + 1)))
    case PickUp =>
      var c := s.cells[Top(s)].place.child;
      Let(Move(s, Top(s), Active), c, Destructed(s.cells[c].frame))
    case Detach(c) => Let(s, c, Detached(s.cells[c].frame))
    case Drop(c) =>
      var s1 := Let(s, c, Destructed(s.cells[c].frame));
      With(s1, c, s1.cells[c].(orphan := !s.cells[c].frame.done))
    case Finish =>
      var f := Top(s);
      var s1 := Pop(With(s, f, s.cells[f].(frame := Finished(s.cells[f].frame), place := Over)));
      match s.cells[f].frame.parent
      case None => s1
      case Some(p) =>
        if p < |s1.cells| then
          Push(With(s1, p, s1.cells[p].(place := Reading(f), resumes := s1.cells[p].resumes + 1)), p)
        else s1
  }

  // --------------------------------------------------------------- invariant

  /** The frame of c is there, its object belongs to p, and so it is not detached */
  predicate Held(s: System, c: nat, p: nat) {
    c < |s.cells| && s.cells[c].holder == By(p) && s.cells[c].frame.destroys == 0 && !s.cells[c].frame.detached
  }

  /** The stack holds each active coroutine once */
  predicate StackInv(s: System) {
    && StackOk(s)
    && (forall i, j | 0 <= i < j < |s.stack| :: s.stack[i] != s.stack[j])
    && (forall f | 0 <= f < |s.cells| :: f in s.stack <==> s.cells[f].place.Active? || s.cells[f].place.Reading?)
  }

  predicate LifeOk(cell: Cell) {
    && (cell.frame.done <==> cell.place == Over)
    && cell.frame.destroys == (if cell.frame.done && cell.holder == Nobody && !cell.orphan then 1 else 0)
    && (cell.orphan ==> cell.holder == Nobody && !cell.frame.detached)
    && (cell.frame.detached ==> cell.holder == Nobody && (cell.frame.parent == None || cell.frame.done))
    && (!cell.frame.done && cell.holder == Nobody && !cell.orphan ==> cell.frame.detached)
    && cell.waits == cell.resumes + if cell.place.Awaiting? then 1 else 0
  }

  /** A coroutine awaits one it holds, that is not done yet and will resume it */
  predicate AwaitOk(s: System, f: nat)
    requires f < |s.cells|
  {
    && (s.cells[f].place.Awaiting? ==> var c := s.cells[f].place.child;
      Held(s, c, f) && !s.cells[c].frame.done && s.cells[c].frame.parent == Some(f))
    && (s.cells[f].place.Reading? ==> var c := s.cells[f].place.child;
      Held(s, c, f) && s.cells[c].frame.done)
    && (s.cells[f].frame.parent.Some? && !s.cells[f].frame.done ==> var p := s.cells[f].frame.parent.value;
      p < |s.cells| && s.cells[p].place == Awaiting(f))
  }

  /** Objects belong to coroutines that are not over, and that were called before
      the one they refer to */
  predicate HolderOk(s: System, f: nat)
    requires f < |s.cells|
  {
    s.cells[f].holder.By? ==> s.cells[f].holder.p < f && s.cells[s.cells[f].holder.p].place != Over
  }

  predicate CellOk(s: System, f: nat)
    requires f < |s.cells|
  {
    LifeOk(s.cells[f]) && AwaitOk(s, f) && HolderOk(s, f)
  }

  predicate Inv(s: System) {
    StackInv(s) && forall f: nat | f < |s.cells| :: CellOk(s, f)
  }

  lemma StepKeepsInv(s: System, act: Action)
    requires Inv(s) && Enabled(s, act)
    ensures Inv(Apply(s, act))
  {
    KeepsStack(s, act);
    forall f: nat | f < |Apply(s, act).cells| ensures CellOk(Apply(s, act), f) { KeepsCells(s, act, f); }
  }

  lemma KeepsStack(s: System, act: Action)
    requires Inv(s) && Enabled(s, act)
    ensures StackInv(Apply(s, act))
  {
    var t := Apply(s, act);
    if act.Call? {
      Pushed(s, t, |s.cells|);
    } else if act.Resume? {
      Pushed(s, t, act.f);
    } else if act.Suspend? || (act.Await? && !s.cells[act.c].frame.done) {
      Popped(s, t);
    } else if act.PickUp? {
      assert CellOk(s, Top(s));
    } else if act.Finish? {
      FinishKeepsStack(s);
    }
  }

  lemma FinishKeepsStack(s: System)
    requires Inv(s) && Enabled(s, Finish)
    ensures StackInv(Apply(s, Finish))
  {
    var f := Top(s);
    assert CellOk(s, f);
    var mid := Pop(Move(s, f, Over));
    Popped(s, mid);
    if s.cells[f].frame.parent.Some? {
      Pushed(mid, Apply(s, Finish), s.cells[f].frame.parent.value);
    }
  }

  predicate OnStack(cell: Cell) {
    cell.place.Active? || cell.place.Reading?
  }

  lemma Popped(s: System, t: System)
    requires StackInv(s) && s.stack != [] && t.stack == s.stack[..|s.stack| - 1] && |t.cells| == |s.cells|
    requires !OnStack(t.cells[Top(s)])
    requires forall f | 0 <= f < |s.cells| && f != Top(s) :: OnStack(t.cells[f]) <==> OnStack(s.cells[f])
    ensures StackInv(t)
  {
    assert s.stack == t.stack + [Top(s)];
  }

  lemma Pushed(s: System, t: System, f: nat)
    requires StackInv(s) && t.stack == s.stack + [f] && f !in s.stack && |t.cells| - 1 <= |s.cells| <= |t.cells|
    requires f < |t.cells|
    requires OnStack(t.cells[f]) && (|t.cells| > |s.cells| ==> f == |s.cells|)
    requires forall g | 0 <= g < |s.cells| && g != f :: OnStack(t.cells[g]) <==> OnStack(s.cells[g])
    ensures StackInv(t)
  {
  }

  lemma KeepsCells(s: System, act: Action, f: nat)
    requires Inv(s) && Enabled(s, act) && f < |Apply(s, act).cells|
    ensures CellOk(Apply(s, act), f)
  {
    if f < |s.cells| { assert CellOk(s, f); }
    match act
    case Call => CallKeepsCells(s, f);
    case Suspend => SuspendKeepsCells(s, f);
    case Resume(g) => ResumeKeepsCells(s, g, f);
    case Await(c) => AwaitKeepsCells(s, c, f);
    case PickUp => PickUpKeepsCells(s, f);
    case Detach(c) => DetachKeepsCells(s, c, f);
    case Drop(c) => DropKeepsCells(s, c, f);
    case Finish => FinishKeepsCells(s, f);
  }

  lemma CallKeepsCells(s: System, f: nat)
    requires Inv(s) && Enabled(s, Call) && f < |Apply(s, Call).cells|
    ensures CellOk(Apply(s, Call), f)
  {
    if f < |s.cells| { assert CellOk(s, f); }
  }

  lemma SuspendKeepsCells(s: System, f: nat)
    requires Inv(s) && Enabled(s, Suspend) && f < |Apply(s, Suspend).cells|
    ensures CellOk(Apply(s, Suspend), f)
  {
    if f < |s.cells| { assert CellOk(s, f); }
  }

  lemma ResumeKeepsCells(s: System, g: nat, f: nat)
    requires Inv(s) && Enabled(s, Resume(g)) && f < |Apply(s, Resume(g)).cells|
    ensures CellOk(Apply(s, Resume(g)), f)
  {
    if f < |s.cells| { assert CellOk(s, f); }
  }

  lemma AwaitKeepsCells(s: System, c: nat, f: nat)
    requires Inv(s) && Enabled(s, Await(c)) && f < |Apply(s, Await(c)).cells|
    ensures CellOk(Apply(s, Await(c)), f)
  {
    if f < |s.cells| { assert CellOk(s, f); }
    assert CellOk(s, c) && CellOk(s, Top(s));
  }

  lemma PickUpKeepsCells(s: System, f: nat)
    requires Inv(s) && Enabled(s, PickUp) && f < |Apply(s, PickUp).cells|
    ensures CellOk(Apply(s, PickUp), f)
  {
    if f < |s.cells| { assert CellOk(s, f); }
    assert CellOk(s, Top(s)) && CellOk(s, s.cells[Top(s)].place.child);
  }

  lemma DetachKeepsCells(s: System, c: nat, f: nat)
    requires Inv(s) && Enabled(s, Detach(c)) && f < |Apply(s, Detach(c)).cells|
    ensures CellOk(Apply(s, Detach(c)), f)
  {
    if f < |s.cells| { assert CellOk(s, f); }
    assert CellOk(s, c);
    assert s.cells[c].frame.parent.Some? && !s.cells[c].frame.done ==> CellOk(s, s.cells[c].frame.parent.value);
  }

  lemma DropKeepsCells(s: System, c: nat, f: nat)
    requires Inv(s) && Enabled(s, Drop(c)) && f < |Apply(s, Drop(c)).cells|
    ensures CellOk(Apply(s, Drop(c)), f)
  {
    if f < |s.cells| { assert CellOk(s, f); }
  }

  lemma FinishKeepsCells(s: System, f: nat)
    requires Inv(s) && Enabled(s, Finish) && f < |Apply(s, Finish).cells|
    ensures CellOk(Apply(s, Finish), f)
  {
    if f < |s.cells| { assert CellOk(s, f); }
    assert CellOk(s, Top(s));
    if s.cells[Top(s)].frame.parent.Some? { assert CellOk(s, s.cells[Top(s)].frame.parent.value); }
  }

  // -------------------------------------------------------------------- runs

  predicate IsRun(run: seq<System>, acts: seq<Action>) {
    |run| == |acts| + 1 && run[0] == Init()
    && forall i | 0 <= i < |acts| :: StackOk(run[i]) && Enabled(run[i], acts[i]) && run[i + 1] == Apply(run[i], acts[i])
  }

  lemma {:induction false} RunKeepsInv(run: seq<System>, acts: seq<Action>, n: nat)
    requires IsRun(run, acts) && n < |run|
    ensures Inv(run[n])
  {
    if n > 0 {
      RunKeepsInv(run, acts, n - 1);
      StepKeepsInv(run[n - 1], acts[n - 1]);
    }
  }

  /** The frames whose memory a step reads, writes or resumes */
  function Touched(s: System, act: Action): set<nat>
    requires StackOk(s) && Enabled(s, act)
  {
    var top := if s.stack == [] then {} else {Top(s)};
    match act
    case Call => top
    case Suspend => top
    case Resume(f) => top + {f}
    case Await(c) => top + {c}
    case PickUp => top + {s.cells[Top(s)].place.child}
    case Detach(c) => top + {c}
    case Drop(c) => top + {c}
    case Finish => top + match s.cells[Top(s)].frame.parent { case None => {} case Some(p) => {p} }
  }

  /** A step leaves all others alone */
  lemma OthersUntouched(s: System, act: Action, f: nat)
    requires StackOk(s) && Enabled(s, act) && f < |s.cells| && f !in Touched(s, act)
    ensures f < |Apply(s, act).cells| && Apply(s, act).cells[f] == s.cells[f]
  {
  }

  /** No step of any run touches a destroyed frame, */
  lemma NoUseAfterDestroy(run: seq<System>, acts: seq<Action>, n: nat, f: nat)
    requires IsRun(run, acts) && n < |acts| && f in Touched(run[n], acts[n])
    ensures f < |run[n].cells| && run[n].cells[f].frame.destroys == 0
  {
    var s := run[n];
    RunKeepsInv(run, acts, n);
    if s.stack != [] { assert CellOk(s, Top(s)); }
    if f < |s.cells| { assert CellOk(s, f); }
  }

  /** no frame is destroyed twice, */
  lemma DestroyedAtMostOnce(run: seq<System>, acts: seq<Action>, n: nat, f: nat)
    requires IsRun(run, acts) && n < |run| && f < |run[n].cells|
    ensures run[n].cells[f].frame.destroys <= 1
    ensures run[n].cells[f].frame.destroys == 1 ==> run[n].cells[f].place == Over && run[n].cells[f].holder == Nobody
  {
    RunKeepsInv(run, acts, n);
    assert CellOk(run[n], f);
  }

  /** and when all coroutines have ended and no object is left outside, each
      frame has been destroyed exactly once, unless it was orphaned. */
  lemma NoLeak(run: seq<System>, acts: seq<Action>, n: nat, f: nat)
    requires IsRun(run, acts) && n < |run| && f < |run[n].cells|
    requires forall g | 0 <= g < |run[n].cells| :: run[n].cells[g].place == Over && run[n].cells[g].holder != Outside
    ensures run[n].cells[f].frame.destroys == 1 <==> !run[n].cells[f].orphan
  {
    RunKeepsInv(run, acts, n);
    assert CellOk(run[n], f);
  }

  predicate DroppedUnfinished(run: seq<System>, acts: seq<Action>, f: nat, k: nat)
    requires IsRun(run, acts)
  {
    k < |acts| && acts[k] == Drop(f) && !run[k].cells[f].frame.done
  }

  /** A frame is orphaned exactly by the end of an object that was neither
      awaited nor detached, before its coroutine was done. */
  lemma OrphanIffDropped(run: seq<System>, acts: seq<Action>, n: nat, f: nat)
    requires IsRun(run, acts) && n < |run| && f < |run[n].cells|
    ensures run[n].cells[f].orphan <==> exists k: nat :: k < n && DroppedUnfinished(run, acts, f, k)
  {
    forall i: nat | i < n
      ensures IsOrphan(run[i + 1], f) <==> IsOrphan(run[i], f) || DroppedUnfinished(run, acts, f, i)
    {
      OrphanOneStep(run, acts, i, f);
    }
    var happens := (i: nat) => DroppedUnfinished(run, acts, f, i);
    Ever((i: nat) => i < |run| && IsOrphan(run[i], f), happens, n);
    if k: nat :| k < n && DroppedUnfinished(run, acts, f, k) { assert happens(k); }
  }

  predicate IsOrphan(s: System, f: nat) {
    f < |s.cells| && s.cells[f].orphan
  }

  /** What stays once something has happened */
  lemma {:induction false} Ever(holds: nat -> bool, happens: nat -> bool, n: nat)
    requires !holds(0) && forall i: nat | i < n :: holds(i + 1) <==> holds(i) || happens(i)
    ensures holds(n) <==> exists k: nat :: k < n && happens(k)
  {
    if n > 0 { Ever(holds, happens, n - 1); }
  }

  lemma OrphanOneStep(run: seq<System>, acts: seq<Action>, n: nat, f: nat)
    requires IsRun(run, acts) && n < |acts|
    ensures IsOrphan(run[n + 1], f) <==> IsOrphan(run[n], f) || DroppedUnfinished(run, acts, f, n)
  {
    RunKeepsInv(run, acts, n);
    if f < |run[n].cells| { OrphanStep(run[n], acts[n], f); }
  }

  lemma OrphanStep(s: System, act: Action, f: nat)
    requires Inv(s) && Enabled(s, act) && f < |s.cells|
    ensures Apply(s, act).cells[f].orphan <==> s.cells[f].orphan || (act == Drop(f) && !s.cells[f].frame.done)
  {
    assert CellOk(s, f);
  }

  lemma {:induction false} CellsGrow(run: seq<System>, acts: seq<Action>, m: nat, n: nat)
    requires IsRun(run, acts) && m <= n < |run|
    ensures |run[m].cells| <= |run[n].cells|
    decreases n
  {
    if m < n { CellsGrow(run, acts, m, n - 1); }
  }

  /** A coroutine is resumed by a final suspend exactly once for each time it
      suspended in co_await, and only then. */
  lemma ResumedOncePerAwait(run: seq<System>, acts: seq<Action>, n: nat, f: nat)
    requires IsRun(run, acts) && n < |run| && f < |run[n].cells|
    ensures run[n].cells[f].waits == run[n].cells[f].resumes + if run[n].cells[f].place.Awaiting? then 1 else 0
  {
    RunKeepsInv(run, acts, n);
    assert CellOk(run[n], f);
  }

  /** Step k is the final suspend that resumes f */
  predicate ResumedAt(run: seq<System>, acts: seq<Action>, f: nat, k: nat)
    requires IsRun(run, acts)
  {
    k < |acts| && acts[k] == Finish && run[k].cells[Top(run[k])].frame.parent == Some(f)
  }

  lemma AwaitingStep(s: System, act: Action, f: nat)
    requires Inv(s) && Enabled(s, act) && f < |s.cells| && s.cells[f].place.Awaiting?
    ensures var t := Apply(s, act);
      t.cells[f].place == s.cells[f].place || (act == Finish && s.cells[Top(s)].frame.parent == Some(f))
  {
    assert CellOk(s, f);
  }

  /** The step that ends an await */
  lemma AwaitEnds(run: seq<System>, acts: seq<Action>, f: nat, k: nat)
    requires IsRun(run, acts) && k < |acts| && f < |run[k].cells| && run[k].cells[f].place.Awaiting?
    requires f < |run[k + 1].cells| && run[k + 1].cells[f].place != run[k].cells[f].place
    ensures ResumedAt(run, acts, f, k)
  {
    RunKeepsInv(run, acts, k);
    AwaitingStep(run[k], acts[k], f);
  }

  /** What holds until something happens */
  lemma {:induction false} Until(holds: nat -> bool, happens: nat -> bool, m: nat, n: nat) returns (k: nat)
    requires m <= n && holds(m) && forall i: nat | m <= i < n && holds(i) :: holds(i + 1) || happens(i)
    ensures holds(n) || (m <= k < n && happens(k))
    decreases n
  {
    k := m;
    if m < n {
      k := Until(holds, happens, m, n - 1);
      if holds(n - 1) && !holds(n) { k := n - 1; }
    }
  }

  /** f is where it was, at `place` */
  predicate IsAt(s: System, f: nat, place: Place) {
    f < |s.cells| && s.cells[f].place == place
  }

  /** A coroutine awaits until it is resumed */
  lemma AwaitsUntilResumed(run: seq<System>, acts: seq<Action>, f: nat, m: nat, n: nat) returns (k: nat)
    requires IsRun(run, acts) && m <= n < |run| && f < |run[m].cells| && run[m].cells[f].place.Awaiting?
    requires f < |run[n].cells| && run[n].cells[f].place != run[m].cells[f].place
    ensures m <= k < n && ResumedAt(run, acts, f, k) && f < |run[k].cells|
    ensures run[k].cells[f].place == run[m].cells[f].place
  {
    var place := run[m].cells[f].place;
    forall i: nat | m <= i < n && IsAt(run[i], f, place)
      ensures IsAt(run[i + 1], f, place) || (IsAt(run[i], f, place) && ResumedAt(run, acts, f, i))
    {
      CellsGrow(run, acts, i, i + 1);
      if !IsAt(run[i + 1], f, place) { AwaitEnds(run, acts, f, i); }
    }
    k := Until((i: nat) => i < |run| && IsAt(run[i], f, place),
               (i: nat) => i < |acts| && IsAt(run[i], f, place) && ResumedAt(run, acts, f, i), m, n);
  }

  /** What it awaits was at its end by then */
  lemma ChildWasActive(run: seq<System>, acts: seq<Action>, f: nat, k: nat)
    requires IsRun(run, acts) && ResumedAt(run, acts, f, k)
    ensures f < |run[k].cells| && run[k].cells[f].place == Awaiting(Top(run[k]))
    ensures run[k].cells[Top(run[k])].place == Active
  {
    RunKeepsInv(run, acts, k);
    assert CellOk(run[k], Top(run[k]));
  }

  /** Each coroutine of the chain awaits the next */
  predicate Chain(s: System, fs: seq<nat>) {
    && (forall i | 0 <= i < |fs| :: fs[i] < |s.cells|)
    && forall i | 0 <= i < |fs| - 1 :: s.cells[fs[i]].place == Awaiting(fs[i + 1])
  }

  lemma NextWasResumedBefore(run: seq<System>, acts: seq<Action>, m: nat, fs: seq<nat>, i: nat,
                             k: nat) returns (k': nat)
    requires IsRun(run, acts) && m <= k < |acts| && Chain(run[m], fs) && i + 2 < |fs| && ResumedAt(run, acts, fs[i], k)
    ensures m <= k' < k && ResumedAt(run, acts, fs[i + 1], k')
  {
    var f, c := fs[i], fs[i + 1];
    assert run[m].cells[f].place == Awaiting(c) && run[m].cells[c].place == Awaiting(fs[i + 2]);
    ChildWasActive(run, acts, f, k);
    CellsGrow(run, acts, m, k);
    var first := k;
    if run[k].cells[f].place != Awaiting(c) {
      first := AwaitsUntilResumed(run, acts, f, m, k);
      ChildWasActive(run, acts, f, first);
      CellsGrow(run, acts, m, first);
    }
    assert Top(run[first]) == c;
    k' := AwaitsUntilResumed(run, acts, c, m, first);
  }

  /** In an await chain of any depth, parents are resumed in reverse nesting
      order: when a coroutine is resumed, all those below it have been. */
  lemma {:induction false} ReverseNestingOrder(run: seq<System>, acts: seq<Action>, m: nat, fs: seq<nat>, i: nat,
                                               j: nat, k: nat)
    returns (k': nat)
    requires IsRun(run, acts) && m <= k < |acts| && Chain(run[m], fs) && i < j < |fs| - 1
    requires ResumedAt(run, acts, fs[i], k)
    ensures m <= k' < k && ResumedAt(run, acts, fs[j], k')
    decreases j - i
  {
    k' := NextWasResumedBefore(run, acts, m, fs, i, k);
    if i + 1 < j { k' := ReverseNestingOrder(run, acts, m, fs, i + 1, j, k'); }
  }

  lemma {:induction false} ChainFrom(s: System, f: nat) returns (fs: seq<nat>)
    requires Inv(s) && f < |s.cells| && s.cells[f].place != Over
    ensures fs != [] && fs[0] == f && Chain(s, fs) && forall i, j | 0 <= i < j < |fs| :: fs[i] < fs[j]
    ensures fs[|fs| - 1] in s.stack || s.cells[fs[|fs| - 1]].place == Waiting
    decreases |s.cells| - f
  {
    assert CellOk(s, f);
    if s.cells[f].place.Awaiting? {
      var c := s.cells[f].place.child;
      assert CellOk(s, c);
      var rest := ChainFrom(s, c);
      fs := [f] + rest;
      assert forall i | 0 < i < |fs| :: fs[i] == rest[i - 1];
    } else {
      fs := [f];
    }
  }

  /** In every reachable state, a coroutine that is not over awaits, through a
      chain without circles, one that is on the stack or waits for somebody
      outside: coroutines never wait for each other only. */
  lemma AwaitChainsEnd(run: seq<System>, acts: seq<Action>, n: nat, f: nat) returns (fs: seq<nat>)
    requires IsRun(run, acts) && n < |run| && f < |run[n].cells| && run[n].cells[f].place != Over
    ensures fs != [] && fs[0] == f && Chain(run[n], fs) && forall i, j | 0 <= i < j < |fs| :: fs[i] != fs[j]
    ensures fs[|fs| - 1] in run[n].stack || run[n].cells[fs[|fs| - 1]].place == Waiting
  {
    RunKeepsInv(run, acts, n);
    fs := ChainFrom(run[n], f);
  }

  // ------------------------------------------------------------- who runs next

  /** Step k takes f off the stack: it ends, or suspends on something that is not
      ready */
  predicate Leaves(run: seq<System>, acts: seq<Action>, f: nat, k: nat)
    requires IsRun(run, acts)
  {
    k < |acts| && run[k].stack != [] && Top(run[k]) == f && f !in run[k + 1].stack
  }

  /** A coroutine that is called or resumed runs at once, and who called it has its
      object. */
  lemma CalledRuns(run: seq<System>, acts: seq<Action>, m: nat)
    requires IsRun(run, acts) && m < |acts| && (acts[m].Call? || acts[m].Resume?)
    ensures var f, t := if acts[m].Call? then |run[m].cells| else acts[m].f, run[m + 1];
      && t.stack == run[m].stack + [f] && f !in run[m].stack && f < |t.cells| && t.cells[f].place == Active
      && (acts[m].Call? ==> t.cells[f].holder == Code(run[m]) && t.cells[f].frame == NewFrame())
  {
    RunKeepsInv(run, acts, m);
  }

  /** `f` lies on the stack right above that part of it */
  predicate IsAbove(s: System, f: nat, below: seq<nat>) {
    below + [f] <= s.stack
  }

  /** The code that runs is then not the top of that part */
  lemma CodeIsAbove(s: System, f: nat, below: seq<nat>)
    requires Inv(s) && IsAbove(s, f, below)
    ensures Code(s) != if below == [] then Outside else By(below[|below| - 1])
  {
    if below != [] { assert s.stack[|below| - 1] == below[|below| - 1]; }
  }

  /** It stays there until it leaves by a step of its own */
  lemma AboveStays(run: seq<System>, acts: seq<Action>, below: seq<nat>, f: nat, n: nat)
    requires IsRun(run, acts) && n < |acts| && IsAbove(run[n], f, below)
    ensures IsAbove(run[n + 1], f, below) || Leaves(run, acts, f, n)
  {
    RunKeepsInv(run, acts, n);
    RunKeepsInv(run, acts, n + 1);
  }

  lemma StaysUntilItLeaves(run: seq<System>, acts: seq<Action>, below: seq<nat>, f: nat, m: nat, n: nat)
    returns (k: nat)
    requires IsRun(run, acts) && m <= n < |run| && IsAbove(run[m], f, below)
    ensures IsAbove(run[n], f, below) || (m <= k < n && Leaves(run, acts, f, k))
  {
    forall i: nat | m <= i < n && IsAbove(run[i], f, below)
      ensures IsAbove(run[i + 1], f, below) || Leaves(run, acts, f, i)
    {
      AboveStays(run, acts, below, f, i);
    }
    k := Until((i: nat) => i < |run| && IsAbove(run[i], f, below), (i: nat) => Leaves(run, acts, f, i), m, n);
  }

  predicate IsOff(place: Place) {
    place.Waiting? || place.Awaiting? || place.Over?
  }

  /** So who calls or resumes a coroutine goes on only after that has run and has
      ended, or has suspended. */
  lemma CallerGoesOnAfter(run: seq<System>, acts: seq<Action>, m: nat, n: nat) returns (k: nat)
    requires IsRun(run, acts) && m < n < |run| && (acts[m].Call? || acts[m].Resume?) && Code(run[n]) == Code(run[m])
    ensures var f := if acts[m].Call? then |run[m].cells| else acts[m].f;
      && m < k < n && Leaves(run, acts, f, k) && (acts[k].Suspend? || acts[k].Await? || acts[k].Finish?)
      && f < |run[k + 1].cells| && IsOff(run[k + 1].cells[f].place)
  {
    var f, below := if acts[m].Call? then |run[m].cells| else acts[m].f, run[m].stack;
    CalledRuns(run, acts, m);
    k := StaysUntilItLeaves(run, acts, below, f, m + 1, n);
    RunKeepsInv(run, acts, n);
    if IsAbove(run[n], f, below) { CodeIsAbove(run[n], f, below); }
    RunKeepsInv(run, acts, k);
    RunKeepsInv(run, acts, k + 1);
    LeavesHow(run[k], acts[k], f);
  }

  lemma LeavesHow(s: System, act: Action, f: nat)
    requires Inv(s) && Enabled(s, act) && s.stack != [] && Top(s) == f && f !in Apply(s, act).stack
    ensures act.Suspend? || act.Await? || act.Finish?
    ensures var t := Apply(s, act);
      f < |t.cells| && IsOff(t.cells[f].place)
  {
    assert s.stack[|s.stack| - 1] == f;
  }

  // ------------------------------------------------- what becomes of an object

  /** p awaits c, or is about to pick up its result */
  predicate Awaits(s: System, p: nat, c: nat) {
    p < |s.cells| && (s.cells[p].place == Awaiting(c) || s.cells[p].place == Reading(c))
  }

  lemma AwaitsStep(s: System, act: Action, p: nat, c: nat)
    requires Inv(s) && Enabled(s, act) && Awaits(s, p, c)
    ensures Awaits(Apply(s, act), p, c) || PicksUp(s, act, p, c)
  {
    assert CellOk(s, p);
    if act.Finish? { assert CellOk(s, Top(s)); }
  }

  /** p goes on with the result of c, which has ended */
  predicate PicksUp(s: System, act: Action, p: nat, c: nat) {
    act == PickUp && s.stack != [] && Top(s) == p < |s.cells| && s.cells[p].place == Reading(c)
  }

  lemma AwaitsOneStep(run: seq<System>, acts: seq<Action>, p: nat, c: nat, n: nat)
    requires IsRun(run, acts) && n < |acts| && Awaits(run[n], p, c)
    ensures Awaits(run[n + 1], p, c) || PicksUp(run[n], acts[n], p, c)
  {
    RunKeepsInv(run, acts, n);
    AwaitsStep(run[n], acts[n], p, c);
  }

  lemma AwaitsUntil(run: seq<System>, acts: seq<Action>, p: nat, c: nat, m: nat, n: nat) returns (k: nat)
    requires IsRun(run, acts) && m <= n < |run| && Awaits(run[m], p, c)
    ensures Awaits(run[n], p, c) || (m <= k < n && PicksUp(run[k], acts[k], p, c))
  {
    forall i: nat | m <= i < n && Awaits(run[i], p, c)
      ensures Awaits(run[i + 1], p, c) || PicksUp(run[i], acts[i], p, c)
    {
      AwaitsOneStep(run, acts, p, c, i);
    }
    var awaits := (i: nat) => i < |run| && Awaits(run[i], p, c);
    k := Until(awaits, (i: nat) => i < |acts| && PicksUp(run[i], acts[i], p, c), m, n);
  }

  /** When a coroutine that awaited another executes again, in between the other has
      ended, its result was picked up, its object has gone and its frame has been
      destroyed. */
  lemma AwaitedIsPickedUp(run: seq<System>, acts: seq<Action>, m: nat, n: nat, p: nat, c: nat) returns (k: nat)
    requires IsRun(run, acts) && m < n < |run| && m < |acts| && acts[m] == Await(c) && p == Top(run[m])
    requires p < |run[n].cells| && run[n].cells[p].place == Active
    ensures m < k < n && PicksUp(run[k], acts[k], p, c) && c < |run[k].cells| && run[k].cells[c].frame.done
    ensures c < |run[k + 1].cells|
    ensures run[k + 1].cells[c].frame.destroys == 1 && run[k + 1].cells[c].holder == Nobody
  {
    RunKeepsInv(run, acts, m);
    assert CellOk(run[m], p) && CellOk(run[m], c);
    k := AwaitsUntil(run, acts, p, c, m + 1, n);
    RunKeepsInv(run, acts, k);
    RunKeepsInv(run, acts, k + 1);
    assert CellOk(run[k], p) && CellOk(run[k], c);
  }

  /** A frame nobody has a reference to, and that was not dropped */
  predicate LetGo(s: System, c: nat) {
    c < |s.cells| && s.cells[c].holder == Nobody && !s.cells[c].orphan
  }

  lemma {:induction false} StaysLetGo(run: seq<System>, acts: seq<Action>, m: nat, n: nat, c: nat)
    requires IsRun(run, acts) && m <= n < |run| && LetGo(run[m], c)
    ensures LetGo(run[n], c)
    decreases n
  {
    if m < n {
      StaysLetGo(run, acts, m, n - 1, c);
      RunKeepsInv(run, acts, n - 1);
      assert CellOk(run[n - 1], c);
      LetGoStep(run[n - 1], acts[n - 1], c);
    }
  }

  lemma LetGoStep(s: System, act: Action, c: nat)
    requires Inv(s) && Enabled(s, act) && LetGo(s, c)
    ensures LetGo(Apply(s, act), c)
  {
    if act.PickUp? { assert CellOk(s, Top(s)); }
  }

  /** After detach() the frame is destroyed as soon as the coroutine has ended */
  lemma DetachedIsDestroyed(run: seq<System>, acts: seq<Action>, m: nat, n: nat, c: nat)
    requires IsRun(run, acts) && m < n < |run| && m < |acts| && acts[m] == Detach(c)
    ensures c < |run[n].cells| && run[n].cells[c].holder == Nobody
    ensures run[n].cells[c].frame.destroys == if run[n].cells[c].place == Over then 1 else 0
  {
    RunKeepsInv(run, acts, m);
    assert CellOk(run[m], c);
    StaysLetGo(run, acts, m + 1, n, c);
    RunKeepsInv(run, acts, n);
    assert CellOk(run[n], c);
  }
}
