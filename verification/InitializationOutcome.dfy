/**
  What `initializeClass` answers, and that a thread which nothing fails for gets to the end
  of it: the other half of the module Initialization.

  An activation is known by its thread and its height on the thread's stack.
 */
module InitializationOutcome {
  import opened Collections
  import opened ReentrantLock
  import opened Initialization

  function Height(st: Stack): nat { if st.Empty? then 0 else 1 + Height(st.below) }

  function FrameAt(st: Stack, h: nat): Frame
    requires 1 <= h <= Height(st)
  {
    if h == Height(st) then st.top else FrameAt(st.below, h)
  }

  // ---------------------------------------------------------------- why it returns false

  /** Thread `t` makes the step, and its top activation returns. */
  predicate ReturnsAt(s: State, step: Step, t: Tid)
    requires Enabled(s, step)
  {
    step.Advance? && step.t == t && Pops(s.Of(s.Stack(t).top.cls), t, s.Stack(t))
  }

  /**
    Something fails for the activation at height `h`: its constant values cannot be set up, its
    initializer ends badly, or the call for its superclass returns false.
   */
  predicate Fails(s: State, step: Step, t: Tid, h: nat)
    requires Enabled(s, step)
  {
    step.Advance? && step.t == t &&
    var st := s.Stack(t);
      || (Height(st) == h && !step.good && (st.top.at == Constants || st.top.at == Running))
      || (Height(st) == h + 1 && st.below.Push? && st.below.top.at == AwaitSuper
          && ReturnsAt(s, step, t) && !Answer(st))
  }

  /** Before state `i`, something has failed for the activation at height `h` since it was called. */
  predicate HasFailed(p: Program, states: seq<State>, steps: seq<Step>, i: nat, t: Tid, h: nat)
    requires IsRun(p, states, steps) && i < |states|
    decreases i
  {
    && 0 < i && h <= Height(states[i].Stack(t))
    && (Fails(states[i - 1], steps[i - 1], t, h) || HasFailed(p, states, steps, i - 1, t, h))
  }

  /** The activation is on its way to return false. */
  predicate Failing(at: Place) {
    at == SuperFailed || at == Abandon || at == Throwing || at == ClinitFailed || at == Leaving(false)
  }

  lemma DeliverAt(st: Stack, result: bool, h: nat)
    requires 1 <= h <= Height(st)
    ensures Height(Deliver(st, result)) == Height(st)
    ensures Failing(FrameAt(Deliver(st, result), h).at) <==>
      Failing(FrameAt(st, h).at) || (h == Height(st) && st.top.at == AwaitSuper && !result)
  {
  }

  /** What one step does to the activations that stay on the stack. */
  lemma FailingMoves(p: Program, s: State, t: Tid, good: bool, h: nat)
    requires Enabled(s, Advance(t, good))
    requires 1 <= h <= Height(s.Stack(t)) && h <= Height(Next(p, s, Advance(t, good)).Stack(t))
    ensures Failing(FrameAt(Next(p, s, Advance(t, good)).Stack(t), h).at) <==>
      Failing(FrameAt(s.Stack(t), h).at) || Fails(s, Advance(t, good), t, h)
  {
    var st, st' := s.Stack(t), Next(p, s, Advance(t, good)).Stack(t);
    if Pops(s.Of(st.top.cls), t, st) {
      DeliverAt(st.below, Answer(st), h);
    } else {
      GotoAt(p, s.Of(st.top.cls), st, t, good, h);
    }
  }

  /** An activation that does not return leaves those below it as they are. */
  lemma GotoAt(p: Program, x: Cell, st: Stack, t: Tid, good: bool, h: nat)
    requires st.Push? && !Pops(x, t, st) && 1 <= h <= Height(st) && h <= Height(Move(p, x, st, t, good).1)
    ensures Failing(FrameAt(Move(p, x, st, t, good).1, h).at) <==>
      Failing(FrameAt(st, h).at)
      || (h == Height(st) && !good && (st.top.at == Constants || st.top.at == Running))
  {
  }

  /** Whoever is new on the stack has not met anything yet. */
  lemma NewcomerIsFine(p: Program, s: State, step: Step, h: nat)
    requires Enabled(s, step) && Height(s.Stack(step.t)) < h <= Height(Next(p, s, step).Stack(step.t))
    ensures h == Height(s.Stack(step.t)) + 1 && !Failing(FrameAt(Next(p, s, step).Stack(step.t), h).at)
    ensures !Fails(s, step, step.t, h)
  {
    if step.Advance? {
      var st := s.Stack(step.t);
      if Pops(s.Of(st.top.cls), step.t, st) { DeliverKeepsHeight(st.below, Answer(st)); }
    }
  }

  lemma DeliverKeepsHeight(st: Stack, result: bool)
    ensures Height(Deliver(st, result)) == Height(st)
  {
  }

  lemma {:induction false} FailingExact(p: Program, states: seq<State>, steps: seq<Step>, i: nat, t: Tid, h: nat)
    requires IsRun(p, states, steps) && i < |states| && 1 <= h <= Height(states[i].Stack(t))
    ensures Failing(FrameAt(states[i].Stack(t), h).at) <==> HasFailed(p, states, steps, i, t, h)
  {
    if i > 0 {
      var s, step := states[i - 1], steps[i - 1];
      if h <= Height(s.Stack(t)) { FailingExact(p, states, steps, i - 1, t, h); }
      if step.t == t {
        if h > Height(s.Stack(t)) {
          NewcomerIsFine(p, s, step, h);
        } else if step.Advance? {
          FailingMoves(p, s, t, step.good, h);
        }
      }
    }
  }

  /** An activation returns exactly when the stack gets lower. */
  lemma ReturnsIff(p: Program, s: State, step: Step)
    requires Enabled(s, step)
    ensures ReturnsAt(s, step, step.t) <==> Height(Next(p, s, step).Stack(step.t)) < Height(s.Stack(step.t))
  {
    if ReturnsAt(s, step, step.t) { DeliverKeepsHeight(s.Stack(step.t).below, Answer(s.Stack(step.t))); }
  }

  /**
    In every run an activation that returns, returns false if and only if something has failed
    for it since it was called.
   */
  lemma FalseIff(p: Program, states: seq<State>, steps: seq<Step>, i: nat, t: Tid)
    requires IsRun(p, states, steps) && i < |steps| && ReturnsAt(states[i], steps[i], t)
    ensures !Answer(states[i].Stack(t)) <==> HasFailed(p, states, steps, i, t, Height(states[i].Stack(t)))
  {
    FailingExact(p, states, steps, i, t, Height(states[i].Stack(t)));
  }

  /** What interpreted code and string constants do ends well. */
  predicate AllGood(steps: seq<Step>) { forall i :: 0 <= i < |steps| && steps[i].Advance? ==> steps[i].good }

  lemma {:induction false} NothingFails(p: Program, states: seq<State>, steps: seq<Step>, i: nat, t: Tid, h: nat)
    requires IsRun(p, states, steps) && AllGood(steps) && i < |states|
    ensures !HasFailed(p, states, steps, i, t, h)
    decreases i
  {
    if i > 0 {
      NothingFails(p, states, steps, i - 1, t, h);
      NothingFails(p, states, steps, i - 1, t, h + 1);
      if Fails(states[i - 1], steps[i - 1], t, h) { FalseIff(p, states, steps, i - 1, t); }
    }
  }

  /**
    When nothing that is run ends badly, every activation that returns, returns true, and
    leaves its class initialised or being initialised by its caller.
   */
  lemma GoodRunsSucceed(p: Program, states: seq<State>, steps: seq<Step>, i: nat, t: Tid)
    requires IsRun(p, states, steps) && AllGood(steps) && i < |steps| && ReturnsAt(states[i], steps[i], t)
    ensures Answer(states[i].Stack(t))
    ensures var c := states[i].Stack(t).top.cls;
      states[i + 1].Of(c).status == Initialized || BeingInitializedBy(states[i + 1], c, t)
  {
    FalseIff(p, states, steps, i, t);
    NothingFails(p, states, steps, i, t, Height(states[i].Stack(t)));
    TrueIsRight(p, states, steps, i, states[i].Stack(t).top.cls);
  }

  // ---------------------------------------------------------------- a thread alone gets to the end

  ghost predicate GoesOn(p: Program, t: Tid, s: State, s': State) {
    Enabled(s, Advance(t, true)) && s' == Next(p, s, Advance(t, true))
  }

  /** The states along steps of thread `t` alone, all of which end well. */
  ghost predicate IsTrail(p: Program, t: Tid, trail: seq<State>) {
    trail != [] && forall i {:trigger GoesOn(p, t, trail[i], trail[i + 1])} ::
      0 <= i < |trail| - 1 ==> GoesOn(p, t, trail[i], trail[i + 1])
  }

  ghost predicate Reaches(p: Program, t: Tid, s: State, end: State) {
    exists trail :: IsTrail(p, t, trail) && trail[0] == s && trail[|trail| - 1] == end
  }

  lemma ReachesOn(p: Program, t: Tid, s: State, mid: State, end: State)
    requires Reaches(p, t, s, mid) && Reaches(p, t, mid, end)
    ensures Reaches(p, t, s, end)
  {
    var a :| IsTrail(p, t, a) && a[0] == s && a[|a| - 1] == mid;
    var b :| IsTrail(p, t, b) && b[0] == mid && b[|b| - 1] == end;
    var c := a + b[1..];
    forall i | 0 <= i < |c| - 1 ensures GoesOn(p, t, c[i], c[i + 1]) {
      if i < |a| - 1 {
        assert GoesOn(p, t, a[i], a[i + 1]);
      } else {
        var j := i + 1 - |a|;
        assert GoesOn(p, t, b[j], b[j + 1]);
        assert c[i] == b[j] && c[i + 1] == b[j + 1];
      }
    }
    assert c[0] == s && c[|c| - 1] == end;
  }

  /** Nothing has changed but the classes in `cs` and the stack of `t`. */
  ghost predicate Same(s: State, s': State, t: Tid, cs: set<Class>) {
    && (forall d: Class {:trigger s'.Of(d)} :: d !in cs ==> s'.Of(d) == s.Of(d))
    && (forall u: Tid {:trigger s'.Stack(u)} :: u != t ==> s'.Stack(u) == s.Stack(u))
  }

  /** One good step of the thread's top activation. */
  lemma OneStep(p: Program, t: Tid, s: State) returns (s': State)
    requires Enabled(s, Advance(t, true))
    ensures Reaches(p, t, s, s') && Same(s, s', t, {s.Stack(t).top.cls})
    ensures var c := s.Stack(t).top.cls; (s'.Of(c), s'.Stack(t)) == Move(p, s.Of(c), s.Stack(t), t, true)
  {
    s' := Next(p, s, Advance(t, true));
    assert IsTrail(p, t, [s, s']) by { assert [s, s'][0] == s && [s, s'][1] == s'; }
  }

  lemma Then(p: Program, t: Tid, s: State, mid: State) returns (end: State)
    requires Reaches(p, t, s, mid) && Enabled(mid, Advance(t, true))
    ensures Reaches(p, t, s, end) && Same(mid, end, t, {mid.Stack(t).top.cls})
    ensures var c := mid.Stack(t).top.cls; (end.Of(c), end.Stack(t)) == Move(p, mid.Of(c), mid.Stack(t), t, true)
  {
    end := OneStep(p, t, mid);
    ReachesOn(p, t, s, mid, end);
  }

  /** Up to line 113, for a class that nobody has initialised. */
  lemma ComesToLock(p: Program, t: Tid, s: State, c: Class, below: Stack) returns (end: State)
    requires t != NOBODY && s.Stack(t) == Push(Frame(c, CheckStatus), below) && s.Of(c).status == Loaded
    ensures Reaches(p, t, s, end) && Same(s, end, t, {c})
    ensures end.Stack(t) == Push(Frame(c, WantLock), below) && end.Of(c) == s.Of(c)
  {
    var s1 := OneStep(p, t, s);
    var s2 := Then(p, t, s, s1);
    end := Then(p, t, s, s2);
  }

  /** From line 113 to line 121. */
  lemma ComesToSuper(p: Program, t: Tid, s: State, c: Class, below: Stack) returns (end: State)
    requires t != NOBODY && s.Stack(t) == Push(Frame(c, WantLock), below)
    requires s.Of(c).status == Loaded && Available(s.Of(c).lock, t)
    ensures Reaches(p, t, s, end) && Same(s, end, t, {c})
    ensures end.Stack(t) == Push(Frame(c, EnterSuper), below)
    ensures end.Of(c) == Cell(Initializing, Acquire(s.Of(c).lock, t), s.Of(c).completed)
  {
    var s1 := OneStep(p, t, s);
    var s2 := Then(p, t, s, s1);
    end := Then(p, t, s, s2);
  }

  /** From line 127 to the end, past the initializer if there is one. */
  lemma ComesToEnd(p: Program, t: Tid, s: State, c: Class, below: Stack) returns (end: State)
    requires t != NOBODY && s.Stack(t) == Push(Frame(c, Constants), below)
    ensures Reaches(p, t, s, end) && Same(s, end, t, {c})
    ensures end.Stack(t) == Deliver(below, true)
    ensures end.Of(c) ==
      Cell(Initialized, Release(s.Of(c).lock, t), s.Of(c).completed + if c in p.clinit then 1 else 0)
  {
    var s1 := ComesToComplete(p, t, s, c, below);
    end := Completes(p, t, s1, c, below);
    assert Same(s, end, t, {c}) by { SameOn(s, s1, end, t, {c}); }
    ReachesOn(p, t, s, s1, end);
  }

  lemma SameOn(s: State, mid: State, end: State, t: Tid, cs: set<Class>)
    requires Same(s, mid, t, cs) && Same(mid, end, t, cs)
    ensures Same(s, end, t, cs)
  {
    forall d: Class | d !in cs ensures end.Of(d) == s.Of(d) { assert mid.Of(d) == s.Of(d); }
    forall u: Tid | u != t ensures end.Stack(u) == s.Stack(u) { assert mid.Stack(u) == s.Stack(u); }
  }

  lemma Completes(p: Program, t: Tid, s: State, c: Class, below: Stack) returns (end: State)
    requires t != NOBODY && s.Stack(t) == Push(Frame(c, Complete), below)
    ensures Reaches(p, t, s, end) && Same(s, end, t, {c})
    ensures end.Stack(t) == Deliver(below, true)
    ensures end.Of(c) == Cell(Initialized, Release(s.Of(c).lock, t), s.Of(c).completed)
  {
    var s1 := OneStep(p, t, s);
    end := Then(p, t, s, s1);
  }

  lemma ComesToComplete(p: Program, t: Tid, s: State, c: Class, below: Stack) returns (end: State)
    requires t != NOBODY && s.Stack(t) == Push(Frame(c, Constants), below)
    ensures Reaches(p, t, s, end) && Same(s, end, t, {c})
    ensures end.Stack(t) == Push(Frame(c, Complete), below)
    ensures end.Of(c) == s.Of(c).(completed := s.Of(c).completed + if c in p.clinit then 1 else 0)
  {
    var s1 := OneStep(p, t, s);
    var s2 := Then(p, t, s, s1);
    if c in p.clinit {
      end := Then(p, t, s, s2);
    } else {
      end := s2;
    }
  }

  /** A class that is initialised, or that the caller is initialising, is answered for at once. */
  lemma AnswersAtOnce(p: Program, t: Tid, s: State, c: Class, below: Stack) returns (end: State)
    requires t != NOBODY && s.Stack(t) == Push(Frame(c, CheckStatus), below)
    requires s.Of(c).status == Initialized || BeingInitializedBy(s, c, t)
    ensures Reaches(p, t, s, end) && Same(s, end, t, {})
    ensures end.Stack(t) == Deliver(below, true)
  {
    var s1 := OneStep(p, t, s);
    var s2 := Then(p, t, s, s1);
    if s.Of(c).status == Initialized {
      end := Then(p, t, s, s2);
    } else {
      end := s2;
    }
  }

  /** Thread `t` could take the lock of the class, which nobody has initialised. */
  predicate Pending(s: State, t: Tid, c: Class) {
    && s.Of(c).status == Loaded && Available(s.Of(c).lock, t)
    && (s.Of(c).lock.owner == NOBODY <==> s.Of(c).lock.depth == 0)
  }

  predicate Answered(s: State, t: Tid, c: Class) { s.Of(c).status == Initialized || BeingInitializedBy(s, c, t) }

  /** The classes from `chain[0]` upwards that are still to be initialised. */
  predicate IsChain(p: Program, s: State, t: Tid, chain: seq<Class>) {
    && chain != [] && Distinct(chain)
    && (forall k :: 0 <= k < |chain| ==> Pending(s, t, chain[k]))
    && (forall k :: 0 <= k < |chain| - 1 ==> chain[k] in p.super && p.super[chain[k]] == chain[k + 1])
    && var last := chain[|chain| - 1]; last in p.super ==> Answered(s, t, p.super[last]) && p.super[last] !in chain
  }

  /** What becomes of them. */
  ghost predicate AllDone(p: Program, s: State, s': State, chain: seq<Class>) {
    forall c: Class {:trigger s'.Of(c)} :: c in chain ==>
      s'.Of(c) == Cell(Initialized, s.Of(c).lock, s.Of(c).completed + if c in p.clinit then 1 else 0)
  }

  function Elements(chain: seq<Class>): set<Class> { set c | c in chain }

  lemma ChainGoesOn(p: Program, s: State, s': State, t: Tid, chain: seq<Class>)
    requires IsChain(p, s, t, chain) && |chain| > 1 && Same(s, s', t, {chain[0]})
    ensures IsChain(p, s', t, chain[1..])
  {
    var rest := chain[1..];
    forall k | 0 <= k < |rest| ensures Pending(s', t, rest[k]) {
      assert rest[k] == chain[k + 1] && Pending(s, t, chain[k + 1]);
      assert s'.Of(rest[k]) == s.Of(rest[k]);
    }
    var last := chain[|chain| - 1];
    assert rest[|rest| - 1] == last;
    if last in p.super { assert s'.Of(p.super[last]) == s.Of(p.super[last]); }
  }

  /** The call for the superclass, from line 121 to its result. */
  lemma {:induction false} SuperReturns(p: Program, t: Tid, s: State, chain: seq<Class>, below: Stack)
    returns (end: State)
    requires t != NOBODY && chain != [] && Distinct(chain) && s.Stack(t) == Push(Frame(chain[0], EnterSuper), below)
    requires |chain| > 1 ==> IsChain(p, s, t, chain[1..]) && chain[0] in p.super && p.super[chain[0]] == chain[1]
    requires |chain| == 1 && chain[0] in p.super ==> Answered(s, t, p.super[chain[0]]) && p.super[chain[0]] != chain[0]
    ensures Reaches(p, t, s, end) && Same(s, end, t, Elements(chain[1..])) && AllDone(p, s, end, chain[1..])
    ensures end.Stack(t) == Push(Frame(chain[0], Constants), below)
    decreases |chain|, 0
  {
    var c := chain[0];
    var s1 := OneStep(p, t, s);
    assert s1.Of(c) == s.Of(c);
    if c !in p.super {
      end := s1;
    } else {
      if |chain| > 1 {
        ChainStays(p, s, s1, t, chain[1..]);
        end := Initializes(p, t, s1, chain[1..], Push(Frame(c, AwaitSuper), below));
      } else {
        assert s1.Of(p.super[c]) == s.Of(p.super[c]);
        end := AnswersAtOnce(p, t, s1, p.super[c], Push(Frame(c, AwaitSuper), below));
      }
      ReachesOn(p, t, s, s1, end);
    }
  }

  lemma ChainStays(p: Program, s: State, s': State, t: Tid, chain: seq<Class>)
    requires IsChain(p, s, t, chain) && forall d: Class :: s'.Of(d) == s.Of(d)
    ensures IsChain(p, s', t, chain)
  {
    forall k | 0 <= k < |chain| ensures Pending(s', t, chain[k]) { assert Pending(s, t, chain[k]); }
  }

  lemma {:induction false} Initializes(p: Program, t: Tid, s: State, chain: seq<Class>, below: Stack)
    returns (end: State)
    requires t != NOBODY && IsChain(p, s, t, chain) && s.Stack(t) == Push(Frame(chain[0], CheckStatus), below)
    ensures Reaches(p, t, s, end) && Same(s, end, t, Elements(chain)) && AllDone(p, s, end, chain)
    ensures end.Stack(t) == Deliver(below, true)
    decreases |chain|, 2
  {
    var c := chain[0];
    var s1, s2 := PastSuper(p, t, s, chain, below);
    var s3 := ComesToEnd(p, t, s2, c, below);
    ReachesOn(p, t, s, s2, s3);
    end := s3;
    ChainDone(p, t, s, s1, s2, s3, chain);
  }

  /** From the call to line 127. */
  lemma {:induction false} PastSuper(p: Program, t: Tid, s: State, chain: seq<Class>, below: Stack)
    returns (mid: State, end: State)
    requires t != NOBODY && IsChain(p, s, t, chain) && s.Stack(t) == Push(Frame(chain[0], CheckStatus), below)
    ensures Reaches(p, t, s, end)
    ensures Same(s, mid, t, {chain[0]}) && Same(mid, end, t, Elements(chain[1..])) && AllDone(p, mid, end, chain[1..])
    ensures end.Stack(t) == Push(Frame(chain[0], Constants), below)
    ensures mid.Of(chain[0]).lock == Acquire(s.Of(chain[0]).lock, t)
    ensures mid.Of(chain[0]).completed == s.Of(chain[0]).completed && end.Of(chain[0]) == mid.Of(chain[0])
    decreases |chain|, 1
  {
    mid := BeforeSuper(p, t, s, chain, below);
    end := SuperReturns(p, t, mid, chain, below);
    ReachesOn(p, t, s, mid, end);
    assert end.Of(chain[0]) == mid.Of(chain[0]) by { assert chain[0] !in chain[1..]; }
  }

  /** From the call to line 121: the class is marked, and the rest of the chain is as it was. */
  lemma BeforeSuper(p: Program, t: Tid, s: State, chain: seq<Class>, below: Stack) returns (end: State)
    requires t != NOBODY && IsChain(p, s, t, chain) && s.Stack(t) == Push(Frame(chain[0], CheckStatus), below)
    ensures Reaches(p, t, s, end) && Same(s, end, t, {chain[0]})
    ensures end.Stack(t) == Push(Frame(chain[0], EnterSuper), below)
    ensures var x := s.Of(chain[0]); end.Of(chain[0]) == Cell(Initializing, Acquire(x.lock, t), x.completed)
    ensures |chain| > 1 ==> IsChain(p, end, t, chain[1..])
    ensures |chain| == 1 && chain[0] in p.super ==> Answered(end, t, p.super[chain[0]])
  {
    var c := chain[0];
    assert Pending(s, t, c);
    var s1 := ComesToLock(p, t, s, c, below);
    var s2 := ComesToSuper(p, t, s1, c, below);
    ReachesOn(p, t, s, s1, s2);
    end := s2;
    SameOn(s, s1, s2, t, {c});
    if |chain| > 1 { ChainGoesOn(p, s, s2, t, chain); }
    if |chain| == 1 && c in p.super { assert s2.Of(p.super[c]) == s.Of(p.super[c]); }
  }

  /** The first class of the chain after the others. */
  lemma ChainDone(p: Program, t: Tid, s: State, s1: State, s2: State, s3: State, chain: seq<Class>)
    requires chain != [] && Distinct(chain) && Pending(s, t, chain[0])
    requires Same(s, s1, t, {chain[0]}) && Same(s1, s2, t, Elements(chain[1..])) && Same(s2, s3, t, {chain[0]})
    requires s1.Of(chain[0]).lock == Acquire(s.Of(chain[0]).lock, t)
    requires s1.Of(chain[0]).completed == s.Of(chain[0]).completed
    requires AllDone(p, s1, s2, chain[1..])
    requires s3.Of(chain[0]) == Cell(Initialized, Release(s1.Of(chain[0]).lock, t),
                                     s1.Of(chain[0]).completed + if chain[0] in p.clinit then 1 else 0)
    ensures Same(s, s3, t, Elements(chain)) && AllDone(p, s, s3, chain)
  {
    forall d: Class | d !in Elements(chain) ensures s3.Of(d) == s.Of(d) {
      assert s1.Of(d) == s.Of(d) && s2.Of(d) == s1.Of(d);
    }
    forall u: Tid | u != t ensures s3.Stack(u) == s.Stack(u) {
      assert s1.Stack(u) == s.Stack(u) && s2.Stack(u) == s1.Stack(u);
    }
    forall d: Class | d in chain && d != chain[0]
      ensures s3.Of(d) == Cell(Initialized, s.Of(d).lock, s.Of(d).completed + if d in p.clinit then 1 else 0)
    {
      assert d in chain[1..];
      assert s1.Of(d) == s.Of(d) && s3.Of(d) == s2.Of(d);
    }
  }

  /**
    From every reachable state, for a thread that initialises nothing, or is running an
    initializer or making an exception: when the classes from `chain[0]` upwards that are
    still to be initialised are finitely many and their locks can be had, it can call for the
    first of them, and if nothing fails initialises all of them by its own steps alone, each
    with one run of its initializer if it has one.  It gives every lock back and changes
    nothing else.
   */
  lemma GoodThreadInitializes(p: Program, states: seq<State>, steps: seq<Step>, i: nat, t: Tid, chain: seq<Class>)
    returns (end: State)
    requires IsRun(p, states, steps) && i < |states| && t != NOBODY
    requires var st := states[i].Stack(t); st.Empty? || st.top.at == Running || st.top.at == Throwing
    requires chain != [] && Distinct(chain)
    requires forall k :: 0 <= k < |chain| ==>
      states[i].Of(chain[k]).status == Loaded && Available(states[i].Of(chain[k]).lock, t)
    requires forall k :: 0 <= k < |chain| - 1 ==> chain[k] in p.super && p.super[chain[k]] == chain[k + 1]
    requires var last := chain[|chain| - 1]; last in p.super ==> Answered(states[i], t, p.super[last])
    ensures Reaches(p, t, Next(p, states[i], Call(t, chain[0])), end)
    ensures end.Stack(t) == states[i].Stack(t)
    ensures forall c :: c in chain ==>
      end.Of(c) == Cell(Initialized, states[i].Of(c).lock, if c in p.clinit then 1 else 0)
    ensures Same(states[i], end, t, Elements(chain))
  {
    var s := states[i];
    var s1 := Next(p, s, Call(t, chain[0]));
    InvAlways(p, states, steps, i);
    assert ThreadFits(p, s, t);
    forall k | 0 <= k < |chain| ensures Pending(s1, t, chain[k]) && s.Of(chain[k]).completed == 0 {
      assert CellFits(s.Of(chain[k]));
    }
    end := Initializes(p, t, s1, chain, s.Stack(t));
    forall d: Class | d !in Elements(chain) ensures end.Of(d) == s.Of(d) { assert s1.Of(d) == s.Of(d); }
    forall u: Tid | u != t ensures end.Stack(u) == s.Stack(u) { assert s1.Stack(u) == s.Stack(u); }
    forall c | c in chain ensures end.Of(c) == Cell(Initialized, s.Of(c).lock, if c in p.clinit then 1 else 0) {
      assert end.Of(c) == end.Of(c);
    }
  }
}
