/**
  `initializeClass` (bytecode_interpreter.c:100-197, JVMS section 5.5) run by any number of
  threads, each recursively: a static initializer or an exception constructor may call it
  again for any class.

  Each read and write of `class->status` is a step of its own, and so is the unsynchronised
  owner test at line 105.  The class lock is the atomic re-entrant lock that the module
  JLock shows jlock.c to refine.
 */
module Initialization {
  import opened ReentrantLock

  type Class = nat

  /** `super` lacks a class without superclass; `born` are the classes that `loadClass0` returns already initialised. */
  datatype Program = Program(super: map<Class, Class>, clinit: set<Class>, born: set<Class>)

  datatype Status = Loaded | Initializing | Initialized

  /** A class as the threads share it; `completed` counts the runs of `<clinit>` that succeeded. */
  datatype Cell = Cell(status: Status, lock: Reentrant, completed: nat)

  /** Where an activation of `initializeClass` stands. */
  datatype Place =
    | CheckStatus            // line 105, left operand
    | CheckOwner             // line 105, right operand
    | Spin                   // line 109
    | CheckDone              // line 110
    | WantLock               // line 113
    | LockedCheck            // line 114
    | Mark                   // line 119
    | EnterSuper             // line 121, the call
    | AwaitSuper             // line 121, the result
    | SuperFailed            // line 122
    | Constants              // lines 127-156
    | Abandon                // line 145
    | Throwing               // line 146
    | FindClinit             // lines 158-166
    | Running                // line 186
    | ClinitFailed           // line 190
    | Complete               // lines 167 and 194
    | Leaving(result: bool)  // lines 115, 123, 147, 168, 191 and 195

  datatype Frame = Frame(cls: Class, at: Place)

  /** The activations of one thread. */
  datatype Stack = Empty | Push(top: Frame, below: Stack)

  datatype State = State(cells: map<Class, Cell>, stacks: map<Tid, Stack>) {
    function Of(c: Class): Cell { if c in cells then cells[c] else Cell(Loaded, Reentrant(NOBODY, 0), 0) }

    function Stack(t: Tid): Stack { if t in stacks then stacks[t] else Empty }
  }

  /** A thread calls `initializeClass`, or its top activation goes on; `good` says how what it ran ended. */
  datatype Step = Call(t: Tid, c: Class) | Advance(t: Tid, good: bool)

  function Init(p: Program): State {
    State(map c | c in p.born :: Cell(Initialized, Reentrant(NOBODY, 0), 0), map[])
  }

  /** Code that is being interpreted may need any class. */
  predicate MayCall(st: Stack) { st.Push? ==> st.top.at == Running || st.top.at == Throwing }

  predicate Enabled(s: State, step: Step) {
    && step.t != NOBODY
    && match step
       case Call(t, _) => MayCall(s.Stack(t))
       case Advance(t, _) =>
         && s.Stack(t).Push?
         && var f := s.Stack(t).top;
            && (f.at == Spin ==> s.Of(f.cls).status != Initializing)
            && (f.at == WantLock ==> Available(s.Of(f.cls).lock, t))
  }

  /** The caller gets the result: line 121 branches on it, interpreted code goes on. */
  function Deliver(st: Stack, result: bool): Stack {
    if st.Push? && st.top.at == AwaitSuper then
      Push(st.top.(at := if result then Constants else SuperFailed), st.below)
    else
      st
  }

  function Goto(st: Stack, at: Place): Stack
    requires st.Push?
  {
    Push(st.top.(at := at), st.below)
  }

  /** The activation returns at this step. */
  predicate Pops(x: Cell, t: Tid, st: Stack)
    requires st.Push?
  {
    match st.top.at
    case CheckOwner => x.lock.owner == t
    case CheckDone => x.status == Initialized
    case Leaving(_) => true
    case _ => false
  }

  /** What it returns. */
  predicate Answer(st: Stack)
    requires st.Push?
  {
    st.top.at.Leaving? ==> st.top.at.result
  }

  /** The effect of one step of the top activation on its class and on its thread's stack. */
  function Move(p: Program, x: Cell, st: Stack, t: Tid, good: bool): (Cell, Stack)
    requires st.Push?
  {
    match st.top.at
    case CheckStatus => (x, Goto(st, if x.status == Initializing then CheckOwner else Spin))
    case CheckOwner => (x, if x.lock.owner == t then Deliver(st.below, true) else Goto(st, Spin))
    case Spin => (x, Goto(st, CheckDone))
    case CheckDone => (x, if x.status == Initialized then Deliver(st.below, true) else Goto(st, WantLock))
    case WantLock => (x.(lock := Acquire(x.lock, t)), Goto(st, LockedCheck))
    case LockedCheck => (x, Goto(st, if x.status == Initialized then Leaving(true) else Mark))
    case Mark => (x.(status := Initializing), Goto(st, EnterSuper))
    case EnterSuper =>
      if st.top.cls in p.super then (x, Push(Frame(p.super[st.top.cls], CheckStatus), Goto(st, AwaitSuper)))
      else (x, Goto(st, Constants))
    case AwaitSuper => (x, st)
    case SuperFailed => (x.(status := Loaded), Goto(st, Leaving(false)))
    case Constants => (x, Goto(st, if good then FindClinit else Abandon))
    case Abandon => (x.(status := Loaded), Goto(st, Throwing))
    case Throwing => (x, Goto(st, Leaving(false)))
    case FindClinit => (x, Goto(st, if st.top.cls in p.clinit then Running else Complete))
    case Running => if good then (x.(completed := x.completed + 1), Goto(st, Complete)) else (x, Goto(st, ClinitFailed))
    case ClinitFailed => (x.(status := Loaded), Goto(st, Leaving(false)))
    case Complete => (x.(status := Initialized), Goto(st, Leaving(true)))
    case Leaving(result) => (x.(lock := Release(x.lock, t)), Deliver(st.below, result))
  }

  function Next(p: Program, s: State, step: Step): State
    requires Enabled(s, step)
  {
    match step
    case Call(t, c) => s.(stacks := s.stacks[t := Push(Frame(c, CheckStatus), s.Stack(t))])
    case Advance(t, good) =>
      var c := s.Stack(t).top.cls;
      var (x, st) := Move(p, s.Of(c), s.Stack(t), t, good);
      State(s.cells[c := x], s.stacks[t := st])
  }

  ghost predicate IsRun(p: Program, states: seq<State>, steps: seq<Step>) {
    && |states| == |steps| + 1 && states[0] == Init(p)
    && forall i :: 0 <= i < |steps| ==> Enabled(states[i], steps[i]) && states[i + 1] == Next(p, states[i], steps[i])
  }

  // ---------------------------------------------------------------- the invariant

  /** The activation has set the status to INITIALIZING and not yet set it to anything else. */
  predicate InProgress(at: Place) {
    match at
    case EnterSuper => true
    case AwaitSuper => true
    case SuperFailed => true
    case Constants => true
    case Abandon => true
    case FindClinit => true
    case Running => true
    case ClinitFailed => true
    case Complete => true
    case _ => false
  }

  /** The activation has locked the class and not yet unlocked it. */
  predicate Locked(at: Place) {
    InProgress(at) || at == LockedCheck || at == Mark || at == Throwing || at.Leaving?
  }

  /** Line 121 has returned true. */
  predicate PastSuper(at: Place) {
    at == Constants || at == Abandon || at == FindClinit || at == Running || at == ClinitFailed || at == Complete
  }

  /** An activation that waits for another one. */
  predicate Waits(at: Place) { at == AwaitSuper || at == Running || at == Throwing }

  function CountInProgress(st: Stack, c: Class): nat {
    if st.Empty? then 0
    else CountInProgress(st.below, c) + if st.top.cls == c && InProgress(st.top.at) then 1 else 0
  }

  function CountLocked(st: Stack, c: Class): nat {
    if st.Empty? then 0
    else CountLocked(st.below, c) + if st.top.cls == c && Locked(st.top.at) then 1 else 0
  }

  /** The superclass is initialised, or this thread is initialising it. */
  predicate SuperReady(p: Program, s: State, st: Stack, c: Class) {
    c in p.super ==> s.Of(p.super[c]).status == Initialized || CountInProgress(st, p.super[c]) > 0
  }

  /** What is known of a class and an activation for it, above `beneath` activations in progress for it. */
  predicate PlaceFits(x: Cell, t: Tid, at: Place, beneath: nat) {
    && (Locked(at) ==> x.lock.owner == t)
    && (at != CheckStatus && at != CheckOwner ==> beneath == 0)
    && (at == CheckOwner && x.lock.owner == t ==> x.status == Initializing)
    && (at == Mark ==> x.status == Loaded)
    && (at == Leaving(true) ==> x.status == Initialized)
    && (InProgress(at) && at != Complete ==> x.completed == 0)
  }

  predicate FrameFits(p: Program, s: State, t: Tid, st: Stack)
    requires st.Push?
  {
    && PlaceFits(s.Of(st.top.cls), t, st.top.at, CountInProgress(st.below, st.top.cls))
    && (PastSuper(st.top.at) ==> SuperReady(p, s, st, st.top.cls))
  }

  predicate StackFits(p: Program, s: State, t: Tid, st: Stack) {
    st.Push? ==>
      && FrameFits(p, s, t, st)
      && (st.below.Push? ==>
            && Waits(st.below.top.at)
            && (st.below.top.at == AwaitSuper ==>
                  st.below.top.cls in p.super && st.top.cls == p.super[st.below.top.cls]))
      && StackFits(p, s, t, st.below)
  }

  /** A class, and the activations for it on one stack. */
  predicate Tally(x: Cell, t: Tid, st: Stack, c: Class) {
    && CountLocked(st, c) == (if x.lock.owner == t then x.lock.depth else 0)
    && CountInProgress(st, c) == (if x.status == Initializing && x.lock.owner == t then 1 else 0)
  }

  predicate CellFits(x: Cell) {
    && (x.lock.owner == NOBODY <==> x.lock.depth == 0)
    && (x.status == Initializing ==> x.lock.owner != NOBODY)
    && x.completed <= 1
    && (x.status == Loaded ==> x.completed == 0)
  }

  /** All the invariant says about the thread `t`. */
  ghost predicate ThreadFits(p: Program, s: State, t: Tid) {
    && StackFits(p, s, t, s.Stack(t))
    && (forall c: Class {:trigger s.Of(c)} :: CellFits(s.Of(c)) && Tally(s.Of(c), t, s.Stack(t), c))
  }

  ghost predicate Inv(p: Program, s: State) {
    forall t: Tid {:trigger ThreadFits(p, s, t)} :: t != NOBODY ==> ThreadFits(p, s, t)
  }

  // ---------------------------------------------------------------- every step keeps it

  predicate Frozen(st: Stack) { st.Push? ==> Waits(st.top.at) }

  /** The changes in `s'` leave what thread `t` knows about the classes on its stack `st` true. */
  ghost predicate Unaffected(s: State, s': State, t: Tid, st: Stack) {
    && (forall c: Class {:trigger s'.Of(c)} :: s.Of(c).status == Initialized ==> s'.Of(c).status == Initialized)
    && (forall c: Class {:trigger s'.Of(c)} :: CountLocked(st, c) > 0 ==> s'.Of(c).lock.owner == t)
    && (forall c: Class {:trigger s'.Of(c)} ::
          CountInProgress(st, c) > 0 || (!Frozen(st) && s.Of(c).lock.owner == t) ==>
          s'.Of(c).status == s.Of(c).status && s'.Of(c).completed == s.Of(c).completed)
    && (!Frozen(st) ==> forall c: Class {:trigger s'.Of(c)} :: s.Of(c).lock.owner == t <==> s'.Of(c).lock.owner == t)
  }

  lemma {:induction false} StackKeepsFitting(p: Program, s: State, s': State, t: Tid, st: Stack)
    requires StackFits(p, s, t, st) && Unaffected(s, s', t, st)
    ensures StackFits(p, s', t, st)
  {
    if st.Push? {
      assert Unaffected(s, s', t, st.below);
      StackKeepsFitting(p, s, s', t, st.below);
      assert s'.Of(st.top.cls) == s'.Of(st.top.cls);
      FrameKeepsFitting(p, s, s', t, st);
    }
  }

  lemma FrameKeepsFitting(p: Program, s: State, s': State, t: Tid, st: Stack)
    requires st.Push? && FrameFits(p, s, t, st) && Unaffected(s, s', t, st)
    ensures FrameFits(p, s', t, st)
  {
    var c := st.top.cls;
    var x, x' := s.Of(c), s'.Of(c);
    if c in p.super {
      assert s'.Of(p.super[c]) == s'.Of(p.super[c]);
    }
  }

  /** What the top activation and its class satisfy. */
  predicate TopFits(x: Cell, t: Tid, st: Stack)
    requires st.Push?
  {
    && CellFits(x) && Tally(x, t, st, st.top.cls)
    && PlaceFits(x, t, st.top.at, CountInProgress(st.below, st.top.cls))
  }

  /** The step can be taken. */
  predicate Ready(x: Cell, t: Tid, st: Stack)
    requires st.Push?
  {
    (st.top.at == Spin ==> x.status != Initializing) && (st.top.at == WantLock ==> Available(x.lock, t))
  }

  /** What a step may do to the class it works on. */
  lemma CellMoves(p: Program, x: Cell, st: Stack, t: Tid, good: bool)
    requires t != NOBODY && st.Push? && TopFits(x, t, st) && Ready(x, t, st)
    ensures var x' := Move(p, x, st, t, good).0;
      && CellFits(x')
      && (x.status == Initialized ==> x'.status == Initialized)
      && (x'.status != x.status || x'.completed != x.completed ==>
            x.lock.owner == t && CountInProgress(st.below, st.top.cls) == 0)
      && (CountLocked(st.below, st.top.cls) > 0 ==> x'.lock.owner == t)
  {
  }

  lemma OwnersElsewhere(p: Program, x: Cell, st: Stack, t: Tid, good: bool, u: Tid)
    requires t != NOBODY && st.Push? && TopFits(x, t, st) && Ready(x, t, st) && u != t && u != NOBODY
    ensures Move(p, x, st, t, good).0.lock.owner == u <==> x.lock.owner == u
  {
  }

  lemma DeliverKeepsCounts(st: Stack, result: bool, c: Class)
    ensures CountLocked(Deliver(st, result), c) == CountLocked(st, c)
    ensures CountInProgress(Deliver(st, result), c) == CountInProgress(st, c)
  {
  }

  /** The mover's tally for the class it works on. */
  lemma TallyMoves(p: Program, x: Cell, st: Stack, t: Tid, good: bool)
    requires t != NOBODY && st.Push? && TopFits(x, t, st) && Ready(x, t, st)
    ensures var (x', st') := Move(p, x, st, t, good); Tally(x', t, st', st.top.cls)
  {
    if Pops(x, t, st) {
      DeliverKeepsCounts(st.below, Answer(st), st.top.cls);
    }
  }

  /** The mover's counts for any other class. */
  lemma CountsElsewhere(p: Program, x: Cell, st: Stack, t: Tid, good: bool, d: Class)
    requires st.Push? && d != st.top.cls
    ensures var st' := Move(p, x, st, t, good).1;
      CountLocked(st', d) == CountLocked(st, d) && CountInProgress(st', d) == CountInProgress(st, d)
  {
    if Pops(x, t, st) {
      DeliverKeepsCounts(st.below, Answer(st), d);
    }
  }

  lemma MoverIsReady(p: Program, s: State, t: Tid, good: bool)
    requires Enabled(s, Advance(t, good)) && ThreadFits(p, s, t)
    ensures var st := s.Stack(t); TopFits(s.Of(st.top.cls), t, st) && Ready(s.Of(st.top.cls), t, st)
  {
    var x := s.Of(s.Stack(t).top.cls);
  }

  /** The waiting activations below the one that moves. */
  lemma BelowFits(p: Program, s: State, t: Tid, good: bool)
    requires Enabled(s, Advance(t, good)) && ThreadFits(p, s, t)
    ensures StackFits(p, Next(p, s, Advance(t, good)), t, s.Stack(t).below)
  {
    var st, s' := s.Stack(t), Next(p, s, Advance(t, good));
    var c := st.top.cls;
    MoverIsReady(p, s, t, good);
    CellMoves(p, s.Of(c), st, t, good);
    forall d: Class | d != c ensures s'.Of(d) == s.Of(d) && (CountLocked(st.below, d) > 0 ==> s.Of(d).lock.owner == t) {
      assert Tally(s.Of(d), t, st, d);
    }
    assert Unaffected(s, s', t, st.below);
    StackKeepsFitting(p, s, s', t, st.below);
  }

  /** An activation that neither returns nor calls keeps its class and what is below it. */
  lemma GotoMoves(p: Program, x: Cell, st: Stack, t: Tid, good: bool)
    requires st.Push? && t != NOBODY && TopFits(x, t, st) && Ready(x, t, st) && !Pops(x, t, st)
    requires st.top.at == EnterSuper ==> st.top.cls !in p.super
    ensures var (x', st') := Move(p, x, st, t, good);
      && st'.Push? && st'.below == st.below && st'.top.cls == st.top.cls
      && PlaceFits(x', t, st'.top.at, CountInProgress(st.below, st.top.cls))
      && (PastSuper(st'.top.at) ==> PastSuper(st.top.at) || st.top.cls !in p.super)
      && (Waits(st'.top.at) ==> st'.top.at != AwaitSuper || st.top.at == AwaitSuper)
  {
  }

  lemma SuperStaysReady(p: Program, s: State, s': State, st: Stack, st': Stack, c: Class)
    requires SuperReady(p, s, st, c)
    requires forall d: Class {:trigger s'.Of(d)} :: s.Of(d).status == Initialized ==> s'.Of(d).status == Initialized
    requires c in p.super ==> CountInProgress(st', p.super[c]) >= CountInProgress(st, p.super[c])
    ensures SuperReady(p, s', st', c)
  {
    if c in p.super {
      assert s'.Of(p.super[c]) == s'.Of(p.super[c]);
    }
  }

  lemma InitializedStays(p: Program, s: State, t: Tid, good: bool, d: Class)
    requires t != NOBODY && Enabled(s, Advance(t, good)) && ThreadFits(p, s, t)
    ensures s.Of(d).status == Initialized ==> Next(p, s, Advance(t, good)).Of(d).status == Initialized
  {
    MoverIsReady(p, s, t, good);
    CellMoves(p, s.Of(s.Stack(t).top.cls), s.Stack(t), t, good);
  }

  lemma GotoFits(p: Program, s: State, t: Tid, good: bool)
    requires t != NOBODY && Enabled(s, Advance(t, good)) && ThreadFits(p, s, t)
    requires var st := s.Stack(t);
      !Pops(s.Of(st.top.cls), t, st) && (st.top.at == EnterSuper ==> st.top.cls !in p.super)
    ensures var s' := Next(p, s, Advance(t, good)); StackFits(p, s', t, s'.Stack(t))
  {
    var st, s' := s.Stack(t), Next(p, s, Advance(t, good));
    var c := st.top.cls;
    MoverIsReady(p, s, t, good);
    GotoMoves(p, s.Of(c), st, t, good);
    BelowFits(p, s, t, good);
    if PastSuper(s'.Stack(t).top.at) && c in p.super {
      forall d: Class ensures s.Of(d).status == Initialized ==> s'.Of(d).status == Initialized {
        InitializedStays(p, s, t, good, d);
      }
      SuperStaysReady(p, s, s', st, s'.Stack(t), c);
    }
  }

  /** The call at line 121. */
  lemma EnterSuperFits(p: Program, s: State, t: Tid, good: bool)
    requires t != NOBODY && Enabled(s, Advance(t, good)) && ThreadFits(p, s, t)
    requires s.Stack(t).top.at == EnterSuper && s.Stack(t).top.cls in p.super
    ensures var s' := Next(p, s, Advance(t, good)); StackFits(p, s', t, s'.Stack(t))
  {
    var st, s' := s.Stack(t), Next(p, s, Advance(t, good));
    BelowFits(p, s, t, good);
    var caller := Goto(st, AwaitSuper);
    assert s'.Of(st.top.cls) == s.Of(st.top.cls);
    assert StackFits(p, s', t, caller);
  }

  /** A result true means that the class is initialised, or that an activation below is initialising it. */
  lemma TrueMeansReady(p: Program, s: State, t: Tid)
    requires t != NOBODY && s.Stack(t).Push? && ThreadFits(p, s, t)
    requires var st := s.Stack(t); Pops(s.Of(st.top.cls), t, st) && Answer(st)
    ensures var x := s.Of(s.Stack(t).top.cls);
      x.status == Initialized || (x.status == Initializing && x.lock.owner == t)
    ensures var st := s.Stack(t);
      s.Of(st.top.cls).status == Initialized || CountInProgress(st.below, st.top.cls) > 0
  {
    var st := s.Stack(t);
    assert Tally(s.Of(st.top.cls), t, st, st.top.cls);
  }

  /** The activation below one that returned. */
  lemma PopFits(p: Program, s: State, t: Tid, good: bool)
    requires t != NOBODY && Enabled(s, Advance(t, good)) && ThreadFits(p, s, t)
    requires var st := s.Stack(t); Pops(s.Of(st.top.cls), t, st)
    ensures var s' := Next(p, s, Advance(t, good)); StackFits(p, s', t, s'.Stack(t))
  {
    var st, s' := s.Stack(t), Next(p, s, Advance(t, good));
    var below := st.below;
    BelowFits(p, s, t, good);
    if below.Push? && below.top.at == AwaitSuper {
      var c := below.top.cls;
      var st' := s'.Stack(t);
      assert st' == Deliver(below, Answer(st)) && p.super[c] == st.top.cls;
      if Answer(st) {
        TrueMeansReady(p, s, t);
        InitializedStays(p, s, t, good, st.top.cls);
        DeliverKeepsCounts(below, true, st.top.cls);
        assert SuperReady(p, s', st', c);
      }
      assert FrameFits(p, s', t, st');
    }
  }

  lemma MoverFits(p: Program, s: State, step: Step)
    requires Enabled(s, step) && ThreadFits(p, s, step.t)
    ensures var s' := Next(p, s, step); StackFits(p, s', step.t, s'.Stack(step.t))
  {
    match step
    case Call(t, c) =>
      var s' := Next(p, s, step);
      assert Unaffected(s, s', t, s.Stack(t)) by {
        forall d: Class ensures CountLocked(s.Stack(t), d) > 0 ==> s.Of(d).lock.owner == t {
          assert Tally(s.Of(d), t, s.Stack(t), d);
        }
      }
      StackKeepsFitting(p, s, s', t, s.Stack(t));
    case Advance(t, good) =>
      var st := s.Stack(t);
      if Pops(s.Of(st.top.cls), t, st) {
        PopFits(p, s, t, good);
      } else if st.top.at == EnterSuper && st.top.cls in p.super {
        EnterSuperFits(p, s, t, good);
      } else {
        GotoFits(p, s, t, good);
      }
  }

  lemma MoverTallies(p: Program, s: State, step: Step, d: Class)
    requires Enabled(s, step) && ThreadFits(p, s, step.t)
    ensures var s' := Next(p, s, step); CellFits(s'.Of(d)) && Tally(s'.Of(d), step.t, s'.Stack(step.t), d)
  {
    assert CellFits(s.Of(d)) && Tally(s.Of(d), step.t, s.Stack(step.t), d);
    if step.Advance? {
      var st := s.Stack(step.t);
      MoverIsReady(p, s, step.t, step.good);
      if d == st.top.cls {
        TallyMoves(p, s.Of(d), st, step.t, step.good);
        CellMoves(p, s.Of(d), st, step.t, step.good);
      } else {
        CountsElsewhere(p, s.Of(st.top.cls), st, step.t, step.good, d);
      }
    }
  }

  /** What any other thread knows stays true, because the class is changed only under its lock. */
  lemma OtherFits(p: Program, s: State, step: Step, u: Tid)
    requires Enabled(s, step) && ThreadFits(p, s, step.t) && ThreadFits(p, s, u) && u != step.t && u != NOBODY
    ensures ThreadFits(p, Next(p, s, step), u)
  {
    var s', st := Next(p, s, step), s.Stack(u);
    forall d: Class ensures OtherCell(s.Of(d), s'.Of(d), u) && Tally(s.Of(d), u, st, d) && CellFits(s'.Of(d)) {
      MoverTallies(p, s, step, d);
      OtherCellKept(p, s, step, u, d);
      assert Tally(s.Of(d), u, st, d);
    }
    assert Unaffected(s, s', u, st);
    StackKeepsFitting(p, s, s', u, st);
  }

  /** How a class may change for a thread that does not move. */
  predicate OtherCell(x: Cell, x': Cell, u: Tid) {
    && (x.lock.owner == u <==> x'.lock.owner == u)
    && (x.lock.owner == u ==> x' == x)
    && (x.status == Initialized ==> x'.status == Initialized)
  }

  lemma OtherCellKept(p: Program, s: State, step: Step, u: Tid, d: Class)
    requires Enabled(s, step) && ThreadFits(p, s, step.t) && u != step.t && u != NOBODY
    ensures OtherCell(s.Of(d), Next(p, s, step).Of(d), u)
  {
    if step.Advance? {
      var st := s.Stack(step.t);
      if d == st.top.cls {
        MoverIsReady(p, s, step.t, step.good);
        CellMoves(p, s.Of(d), st, step.t, step.good);
        OwnersElsewhere(p, s.Of(d), st, step.t, step.good, u);
      }
    }
  }

  lemma InvStep(p: Program, s: State, step: Step)
    requires Inv(p, s) && Enabled(s, step)
    ensures Inv(p, Next(p, s, step))
  {
    var s' := Next(p, s, step);
    assert ThreadFits(p, s, step.t);
    forall u: Tid | u != NOBODY ensures ThreadFits(p, s', u) {
      assert ThreadFits(p, s, u);
      if u == step.t {
        MoverFits(p, s, step);
        forall d: Class ensures CellFits(s'.Of(d)) && Tally(s'.Of(d), u, s'.Stack(u), d) {
          MoverTallies(p, s, step, d);
        }
      } else {
        OtherFits(p, s, step, u);
      }
    }
  }

  lemma {:induction false} InvAlways(p: Program, states: seq<State>, steps: seq<Step>, i: nat)
    requires IsRun(p, states, steps) && i < |states|
    ensures Inv(p, states[i])
  {
    if i > 0 {
      InvAlways(p, states, steps, i - 1);
      InvStep(p, states[i - 1], steps[i - 1]);
    }
  }

  // ---------------------------------------------------------------- what section 5.5 promises

  /** Thread `t` is in the middle of initialising the class. */
  predicate BeingInitializedBy(s: State, c: Class, t: Tid) {
    s.Of(c).status == Initializing && s.Of(c).lock.owner == t
  }

  /** The step makes an activation for `c` return true. */
  predicate ReturnsTrue(s: State, step: Step, c: Class)
    requires Enabled(s, step)
  {
    step.Advance? &&
    var st := s.Stack(step.t);
    st.top.cls == c && Pops(s.Of(c), step.t, st) && Answer(st)
  }

  /** True is returned only for a class that is initialised, or being initialised by the caller. */
  lemma TrueIsRight(p: Program, states: seq<State>, steps: seq<Step>, i: nat, c: Class)
    requires IsRun(p, states, steps) && i < |steps| && ReturnsTrue(states[i], steps[i], c)
    ensures states[i + 1].Of(c).status == Initialized || BeingInitializedBy(states[i + 1], c, steps[i].t)
  {
    var s, t := states[i], steps[i].t;
    InvAlways(p, states, steps, i);
    assert ThreadFits(p, s, t);
    TrueMeansReady(p, s, t);
    InitializedStays(p, s, t, steps[i].good, c);
  }

  /** Once initialised, always initialised. */
  lemma {:induction false} InitializedForever(p: Program, states: seq<State>, steps: seq<Step>, i: nat, j: nat,
                                              c: Class)
    requires IsRun(p, states, steps) && i <= j < |states| && states[i].Of(c).status == Initialized
    ensures states[j].Of(c).status == Initialized
  {
    if i < j {
      InitializedForever(p, states, steps, i, j - 1, c);
      var step := steps[j - 1];
      InvAlways(p, states, steps, j - 1);
      assert ThreadFits(p, states[j - 1], step.t);
      if step.Advance? {
        InitializedStays(p, states[j - 1], step.t, step.good, c);
      }
    }
  }

  /** The initializer of a class completes at most once, and never for a class still to be initialised. */
  lemma ClinitCompletesOnce(p: Program, states: seq<State>, steps: seq<Step>, i: nat, c: Class)
    requires IsRun(p, states, steps) && i < |states|
    ensures states[i].Of(c).completed <= 1
    ensures states[i].Of(c).status == Loaded ==> states[i].Of(c).completed == 0
  {
    InvAlways(p, states, steps, i);
    assert ThreadFits(p, states[i], 1);
    assert CellFits(states[i].Of(c));
  }

  /** A class that was born initialised is never initialised again. */
  lemma {:induction false} BornNeverRun(p: Program, states: seq<State>, steps: seq<Step>, i: nat, c: Class)
    requires IsRun(p, states, steps) && i < |states| && c in p.born
    ensures states[i].Of(c).status == Initialized && states[i].Of(c).completed == 0
  {
    if i > 0 {
      BornNeverRun(p, states, steps, i - 1, c);
      InitializedForever(p, states, steps, i - 1, i, c);
      var s, step := states[i - 1], steps[i - 1];
      InvAlways(p, states, steps, i - 1);
      assert ThreadFits(p, s, step.t);
      if step.Advance? { assert Tally(s.Of(c), step.t, s.Stack(step.t), c); }
    }
  }

  /** At most one activation, on one thread, is initialising a class. */
  lemma OneInitializer(p: Program, states: seq<State>, steps: seq<Step>, i: nat, c: Class, t: Tid, u: Tid)
    requires IsRun(p, states, steps) && i < |states| && t != NOBODY && u != NOBODY
    ensures CountInProgress(states[i].Stack(t), c) <= 1
    ensures CountInProgress(states[i].Stack(t), c) > 0 <==> BeingInitializedBy(states[i], c, t)
    ensures CountInProgress(states[i].Stack(t), c) > 0 && CountInProgress(states[i].Stack(u), c) > 0 ==> t == u
  {
    InvAlways(p, states, steps, i);
    assert ThreadFits(p, states[i], t) && ThreadFits(p, states[i], u);
    assert Tally(states[i].Of(c), t, states[i].Stack(t), c) && Tally(states[i].Of(c), u, states[i].Stack(u), c);
  }

  /**
    A class becomes initialised only by a thread that was initialising it, and only when its
    superclass is initialised or is being initialised by that thread.
   */
  lemma SuperclassFirst(p: Program, states: seq<State>, steps: seq<Step>, i: nat, c: Class)
    requires IsRun(p, states, steps) && i < |steps|
    requires states[i].Of(c).status != Initialized && states[i + 1].Of(c).status == Initialized
    ensures BeingInitializedBy(states[i], c, steps[i].t)
    ensures c in p.super ==>
      var sup := p.super[c];
      states[i].Of(sup).status == Initialized || BeingInitializedBy(states[i], sup, steps[i].t)
  {
    var s, t := states[i], steps[i].t;
    InvAlways(p, states, steps, i);
    assert ThreadFits(p, s, t);
    var st := s.Stack(t);
    assert st.Push? && st.top == Frame(c, Complete);
    OneInitializer(p, states, steps, i, c, t, t);
    if c in p.super {
      OneInitializer(p, states, steps, i, p.super[c], t, t);
    }
  }

  // ---------------------------------------------------------------- the initializer is not skipped

  /** What an initialised class, or one about to become so, says about its initializer. */
  ghost predicate Ran(p: Program, s: State) {
    && (forall c: Class {:trigger s.Of(c)} ::
          c in p.clinit && c !in p.born && s.Of(c).status == Initialized ==> s.Of(c).completed == 1)
    && (forall t: Tid {:trigger s.Stack(t)} :: t != NOBODY && s.Stack(t).Push? ==> RanAt(p, s, s.Stack(t).top))
  }

  predicate RanAt(p: Program, s: State, f: Frame) {
    f.at == Complete && f.cls in p.clinit ==> s.Of(f.cls).completed == 1
  }

  lemma RanStep(p: Program, s: State, step: Step)
    requires Inv(p, s) && Ran(p, s) && Enabled(s, step)
    ensures Ran(p, Next(p, s, step))
  {
    var s' := Next(p, s, step);
    assert ThreadFits(p, s, step.t) && s.Stack(step.t) == s.Stack(step.t);
    forall c: Class | c in p.clinit && c !in p.born && s'.Of(c).status == Initialized ensures s'.Of(c).completed == 1 {
      assert s.Of(c) == s.Of(c);
      if step.Advance? && c == s.Stack(step.t).top.cls {
        RanCell(p, s, step.t, step.good);
      }
    }
    forall u: Tid | u != NOBODY && s'.Stack(u).Push? ensures RanAt(p, s', s'.Stack(u).top) {
      assert ThreadFits(p, s, u) && s.Stack(u) == s.Stack(u);
      if u != step.t {
        OtherCellKept(p, s, step, u, s.Stack(u).top.cls);
      } else if step.Advance? {
        RanTop(p, s, u, step.good);
      }
    }
  }

  lemma RanCell(p: Program, s: State, t: Tid, good: bool)
    requires t != NOBODY && Enabled(s, Advance(t, good)) && ThreadFits(p, s, t) && Ran(p, s)
    requires s.Stack(t).top.cls in p.clinit && s.Stack(t).top.cls !in p.born
    ensures var x' := Move(p, s.Of(s.Stack(t).top.cls), s.Stack(t), t, good).0;
      x'.status == Initialized ==> x'.completed == 1
  {
    MoverIsReady(p, s, t, good);
    var x := s.Of(s.Stack(t).top.cls);
    assert Tally(x, t, s.Stack(t), s.Stack(t).top.cls);
    assert RanAt(p, s, s.Stack(t).top);
  }

  lemma RanTop(p: Program, s: State, t: Tid, good: bool)
    requires t != NOBODY && Enabled(s, Advance(t, good)) && ThreadFits(p, s, t)
    ensures var s' := Next(p, s, Advance(t, good)); s'.Stack(t).Push? ==> RanAt(p, s', s'.Stack(t).top)
  {
    var st := s.Stack(t);
    MoverIsReady(p, s, t, good);
    assert st.below.Push? ==> Waits(st.below.top.at);
  }

  lemma {:induction false} RanAlways(p: Program, states: seq<State>, steps: seq<Step>, i: nat)
    requires IsRun(p, states, steps) && i < |states|
    ensures Ran(p, states[i])
  {
    if i > 0 {
      RanAlways(p, states, steps, i - 1);
      InvAlways(p, states, steps, i - 1);
      RanStep(p, states[i - 1], steps[i - 1]);
    }
  }

  /** A class with an initializer that has become initialised has completed it exactly once. */
  lemma ClinitNotSkipped(p: Program, states: seq<State>, steps: seq<Step>, i: nat, c: Class)
    requires IsRun(p, states, steps) && i < |states| && c in p.clinit && c !in p.born
    requires states[i].Of(c).status == Initialized
    ensures states[i].Of(c).completed == 1
  {
    RanAlways(p, states, steps, i);
    assert states[i].Of(c) == states[i].Of(c);
  }
}
