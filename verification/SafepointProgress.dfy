/**
  When the protocol of the module Safepoint can still come to a collection.

  `savePoint` as written reads the flag at line 40 and again at line 42.  A call that finds it
  unset at the first read goes on uncounted: either it decrements without having incremented,
  or, when the flag is set between the two reads, it parks uncounted.  The interpreter makes
  such a call before every instruction (bytecode_interpreter.c:21).
 */
module SafepointProgress {
  import opened Collections
  import opened Safepoint

  /** A collection can still take place, before unmatched decrements come near the counter's range. */
  ghost predicate CanCollect(cfg: Config, s: State) {
    exists after, end :: Run(cfg, s, after, end) && Bounded(end) && Critical(end.gc)
  }

  /** No call of `savePoint` on the way has found the flag unset, or the guard has sent it back. */
  ghost predicate NeverSlips(cfg: Config, s: State, steps: seq<Step>)
    decreases |steps|
  {
    steps == [] ||
      (Enabled(s, steps[0]) && !Slips(cfg, s, steps[0]) && NeverSlips(cfg, Do(cfg, s, steps[0]), steps[1..]))
  }

  // ---------------------------------------------------------------- after a slip

  lemma {:induction false} UnbalancedRun(cfg: Config, s: State, steps: seq<Step>, end: State)
    requires !Balanced(s) && Run(cfg, s, steps, end)
    ensures !Balanced(end)
    decreases |steps|
  {
    if steps != [] {
      UnbalancedStep(cfg, s, steps[0]);
      UnbalancedRun(cfg, Do(cfg, s, steps[0]), steps[1..], end);
    }
  }

  lemma SlipUnbalances(cfg: Config, s: State, step: Step)
    requires Enabled(s, step) && Slips(cfg, s, step)
    ensures !Balanced(Do(cfg, s, step))
  {
    assert Do(cfg, s, step).At(step.t) == Spinning(false);
  }

  lemma {:induction false} BalancedIffNeverSlips(cfg: Config, s: State, steps: seq<Step>, end: State)
    requires Balanced(s) && Run(cfg, s, steps, end)
    ensures Balanced(end) <==> NeverSlips(cfg, s, steps)
    decreases |steps|
  {
    if steps != [] {
      var s' := Do(cfg, s, steps[0]);
      if Slips(cfg, s, steps[0]) {
        SlipUnbalances(cfg, s, steps[0]);
        UnbalancedRun(cfg, s', steps[1..], end);
      } else {
        BalancedStep(cfg, s, steps[0]);
        BalancedIffNeverSlips(cfg, s', steps[1..], end);
      }
    }
  }

  // ---------------------------------------------------------------- on the way to a collection

  /** How far a thread is from being parked. */
  function Rank(pc: Pc): nat {
    match pc
    case Spinning(_) => 0
    case AtIncrement => 1
    case Outside => 2
    case AtUnlock => 3
    case AtDecrement(_) => 4
    case AtLock(_) => 5
    case RequestUnlock => 3
    case RequestMode(_) => 4
    case RequestFlag(_) => 5
  }

  function Total(s: State): nat { Sum((t: Tid) => Rank(s.At(t)), s.jthreads) }

  /** How far the holder of the mutex is from releasing it. */
  function HolderRank(s: State): nat {
    match s.mutex
    case Free => 0
    case Mutator(t) => Rank(s.At(t))
    case Collector => if s.gc.Testing? || s.gc.FlagCleared? then 2 else 1
  }

  /** Everyone registered is parked and counted, and nobody holds the mutex. */
  ghost predicate Gathered(s: State) {
    s.flag && s.mutex.Free? && forall t :: t in s.jthreads ==> s.At(t) == Spinning(true)
  }

  /** A step towards a collection, at which nobody slips. */
  ghost predicate Nearer(cfg: Config, s: State, step: Step)
    requires Enabled(s, step)
  {
    var s' := Do(cfg, s, step);
    && !Slips(cfg, s, step)
    && s'.jthreads == s.jthreads
    && (Critical(s'.gc)
        || (!s.flag && s'.flag)
        || (s'.flag == s.flag && Total(s') < Total(s))
        || (s'.flag == s.flag && Total(s') == Total(s) && HolderRank(s') < HolderRank(s)))
  }

  /** While the collector holds the mutex it goes on. */
  function CollectorStep(gc: GcPc): Step
    requires gc.Testing? || gc.Tested? || gc.FlagCleared? || gc.ModeReset?
  {
    match gc
    case Testing => GcFirstRead
    case Tested(_) => GcCompare
    case FlagCleared(_) => GcResetMode
    case ModeReset(_) => GcUnlock
  }

  /** What a thread does next, when it need not wait. */
  function ThreadStep(pc: Pc, t: Tid): Step {
    match pc
    case Outside => EnterSavePoint(t)
    case AtIncrement => Increment(t)
    case Spinning(_) => Spin(t)
    case AtLock(_) => Lock(t)
    case AtDecrement(_) => Decrement(t)
    case AtUnlock => Leave(t)
    case RequestFlag(_) => SetFlag(t)
    case RequestMode(_) => RaiseMode(t)
    case RequestUnlock => EndRequest(t)
  }

  lemma CollectorGoesOn(cfg: Config, s: State) returns (step: Step)
    requires Base(s) && !Critical(s.gc) && s.mutex.Collector?
    ensures Enabled(s, step) && Nearer(cfg, s, step)
  {
    step := CollectorStep(s.gc);
    var s' := Do(cfg, s, step);
    SumSame((t: Tid) => Rank(s.At(t)), (t: Tid) => Rank(s'.At(t)), s.jthreads);
  }

  lemma ThreadMoves(cfg: Config, s: State, t: Tid)
    requires !s.At(t).Spinning? && (HoldsMutex(s.At(t)) <==> s.mutex == Mutator(t))
    requires (s.At(t).Outside? ==> s.flag && t in s.jthreads) && (s.At(t).AtLock? ==> s.mutex.Free?)
    ensures var step := ThreadStep(s.At(t), t);
      && Enabled(s, step) && !Slips(cfg, s, step)
      && var s' := Do(cfg, s, step);
         && s'.jthreads == s.jthreads && (s.flag ==> s'.flag)
         && Rank(s'.At(t)) < Rank(s.At(t)) && (forall u :: u != t ==> s'.At(u) == s.At(u))
         && (s.mutex == Mutator(t) ==> s'.mutex == Mutator(t) || s'.mutex.Free?)
  {
  }

  /** A thread that is not parked gets nearer to it by its own step, or to releasing the mutex. */
  lemma ThreadGoesOn(cfg: Config, s: State, t: Tid)
    requires Base(s) && !s.At(t).Spinning? && (t in s.jthreads || s.mutex == Mutator(t))
    requires (s.At(t).Outside? ==> s.flag) && (s.At(t).AtLock? ==> s.mutex.Free?)
    ensures Enabled(s, ThreadStep(s.At(t), t)) && Nearer(cfg, s, ThreadStep(s.At(t), t))
  {
    var s' := Do(cfg, s, ThreadStep(s.At(t), t));
    ThreadMoves(cfg, s, t);
    if t in s.jthreads {
      SumDrops((u: Tid) => Rank(s.At(u)), (u: Tid) => Rank(s'.At(u)), s.jthreads, t);
    } else {
      SumSame((u: Tid) => Rank(s.At(u)), (u: Tid) => Rank(s'.At(u)), s.jthreads);
    }
  }

  /** One step nearer, from any state in which nobody has slipped in uncounted. */
  lemma GoOn(cfg: Config, s: State) returns (step: Step)
    requires Base(s) && Balanced(s) && !Critical(s.gc) && !Gathered(s)
    ensures Enabled(s, step) && Nearer(cfg, s, step)
  {
    match s.mutex
    case Collector => step := CollectorGoesOn(cfg, s);
    case Mutator(t) =>
      assert HoldsMutex(s.At(t));
      ThreadGoesOn(cfg, s, t);
      step := ThreadStep(s.At(t), t);
    case Free =>
      if !s.flag {
        step := GcStart;
      } else {
        var t :| t in s.jthreads && s.At(t) != Spinning(true);
        assert s.At(t).Spinning? ==> IsCounted(s.At(t));
        ThreadGoesOn(cfg, s, t);
        step := ThreadStep(s.At(t), t);
      }
  }

  lemma GoOnKeeps(cfg: Config, s: State, step: Step)
    requires Sound(s) && Balanced(s) && Enabled(s, step) && Nearer(cfg, s, step) && cfg.waitingFirst
    ensures var s' := Do(cfg, s, step); Sound(s') && Balanced(s')
  {
    SoundStep(cfg, s, step);
    BalancedStep(cfg, s, step);
  }

  /** When everyone is parked and counted, the collector's test succeeds. */
  lemma AllAreCounted(s: State)
    requires Base(s) && s.skipped == 0 && |s.jthreads| < COUNTER_MODULUS
    requires forall t :: t in s.jthreads ==> s.At(t) == Spinning(true)
    ensures s.waiting == |s.jthreads|
  {
    CountedAreRegistered(s);
    forall t | t in s.jthreads ensures t in Counted(s) { assert IsCounted(s.At(t)); }
    assert Counted(s) == Elements(s.jthreads);
  }

  lemma WaitingCollects(cfg: Config, s: State) returns (steps: seq<Step>, end: State)
    requires s.gc.WantsMutex? && s.mutex.Free? && s.waiting == |s.jthreads|
    ensures Run(cfg, s, steps, end) && Critical(end.gc) && end.skipped == s.skipped
    ensures forall step :: step in steps ==> ByCollector(step)
  {
    var s1 := Do(cfg, s, GcLock);
    var s2 := Do(cfg, s1, GcFirstRead);
    end := Do(cfg, s2, GcCompare);
    steps := [GcLock] + ([GcFirstRead] + ([GcCompare] + []));
    assert Run(cfg, end, [], end);
    assert Run(cfg, s2, [GcCompare] + [], end);
    assert Run(cfg, s1, [GcFirstRead] + ([GcCompare] + []), end);
  }

  lemma GatheredCollects(cfg: Config, s: State) returns (steps: seq<Step>, end: State)
    requires Base(s) && s.skipped == 0 && Gathered(s) && !Critical(s.gc) && |s.jthreads| < COUNTER_MODULUS
    ensures Run(cfg, s, steps, end) && Critical(end.gc) && end.skipped == 0
    ensures forall step :: step in steps ==> ByCollector(step)
  {
    AllAreCounted(s);
    if s.gc.Idle? {
      steps, end := WaitingCollects(cfg, Do(cfg, s, GcStart));
      steps := [GcStart] + steps;
    } else {
      steps, end := WaitingCollects(cfg, s);
    }
  }

  /** From every state in which nobody has slipped in uncounted there is a way to a collection. */
  lemma {:induction false} Collects(cfg: Config, s: State) returns (steps: seq<Step>, end: State)
    requires Sound(s) && Balanced(s) && cfg.waitingFirst && |s.jthreads| < COUNTER_MODULUS
    ensures Run(cfg, s, steps, end) && Critical(end.gc) && end.skipped == 0
    decreases !s.flag, Total(s), HolderRank(s)
  {
    if Critical(s.gc) {
      steps, end := [], s;
    } else if Gathered(s) {
      steps, end := GatheredCollects(cfg, s);
    } else {
      var step := GoOn(cfg, s);
      GoOnKeeps(cfg, s, step);
      var s' := Do(cfg, s, step);
      if Critical(s'.gc) {
        steps, end := [], s';
      } else {
        steps, end := Collects(cfg, s');
      }
      steps := [step] + steps;
    }
  }

  /**
    In every run of the code as written, a collection can still take place if and only if no
    decrement was unmatched and nobody stands uncounted inside `savePoint`, that is, if and
    only if no call so far has found the flag unset.  With the guard it always can.
   */
  lemma CollectionPossibleIff(cfg: Config, before: seq<Step>, s: State)
    requires cfg.waitingFirst && Run(cfg, Init(), before, s) && (cfg.guarded || Bounded(s))
    requires |s.jthreads| < COUNTER_MODULUS
    ensures CanCollect(cfg, s) <==> Balanced(s)
    ensures CanCollect(cfg, s) <==> NeverSlips(cfg, Init(), before)
    ensures cfg.guarded ==> CanCollect(cfg, s)
  {
    if cfg.guarded { BalancedRun(cfg, Init(), before, s); }
    BalancedIffNeverSlips(cfg, Init(), before, s);
    SoundRun(cfg, Init(), before, s);
    if Balanced(s) {
      var steps, end := Collects(cfg, s);
    } else {
      forall after, end | Run(cfg, s, after, end) && Bounded(end) ensures !Critical(end.gc) {
        UnbalancedRun(cfg, s, after, end);
        SoundRun(cfg, s, after, end);
      }
    }
  }

  // ---------------------------------------------------------------- after the collection

  /** A run of one step, and another behind it. */
  lemma OneThen(cfg: Config, s: State, step: Step, steps: seq<Step>, end: State)
    requires Enabled(s, step) && Run(cfg, Do(cfg, s, step), steps, end)
    ensures Run(cfg, s, [step] + steps, end)
  {
    assert ([step] + steps)[1..] == steps;
  }

  /** Once the collector is in, it completes the cycle by itself, whatever it ran with, and clears the flag. */
  lemma CycleCompletes(cfg: Config, s: State) returns (steps: seq<Step>, end: State)
    requires Critical(s.gc)
    ensures Run(cfg, s, steps, end) && forall step :: step in steps ==> ByCollector(step)
    ensures |end.log| == |s.log| + 1 && !end.flag && end.mutex.Free? && end.gc.Idle? && end.pcs == s.pcs
  {
    if s.gc.Entered? {
      var s1 := Do(cfg, s, GcReadMode);
      steps, end := CollectingCompletes(cfg, s1);
      OneThen(cfg, s, GcReadMode, steps, end);
      steps := [GcReadMode] + steps;
    } else {
      steps, end := CollectingCompletes(cfg, s);
    }
  }

  lemma CollectingCompletes(cfg: Config, s: State) returns (steps: seq<Step>, end: State)
    requires s.gc.Collecting?
    ensures Run(cfg, s, steps, end) && forall step :: step in steps ==> ByCollector(step)
    ensures |end.log| == |s.log| + 1 && !end.flag && end.mutex.Free? && end.gc.Idle? && end.pcs == s.pcs
  {
    var s1 := Do(cfg, s, GcClearFlag);
    var s2 := Do(cfg, s1, GcResetMode);
    end := Do(cfg, s2, GcUnlock);
    assert Run(cfg, end, [], end);
    OneThen(cfg, s2, GcUnlock, [], end);
    OneThen(cfg, s1, GcResetMode, [GcUnlock] + [], end);
    OneThen(cfg, s, GcClearFlag, [GcResetMode] + ([GcUnlock] + []), end);
    steps := [GcClearFlag] + ([GcResetMode] + ([GcUnlock] + []));
  }

  /** When the flag is not set and the mutex is free, a thread that waits gets out of `savePoint` by itself. */
  lemma WaiterLeaves(cfg: Config, s: State, t: Tid) returns (steps: seq<Step>, end: State)
    requires s.At(t).Spinning? && !s.flag && s.mutex.Free?
    ensures Run(cfg, s, steps, end) && forall step :: step in steps ==> !ByCollector(step) && step.t == t
    ensures end.At(t).Outside? && t !in end.newcomers && end.mutex.Free? && !end.flag && end.log == s.log
    ensures forall u :: u != t ==> end.At(u) == s.At(u)
  {
    var s1 := Do(cfg, s, Spin(t));
    var s2 := Do(cfg, s1, Lock(t));
    steps, end := HolderLeaves(cfg, s2, t);
    OneThen(cfg, s1, Lock(t), steps, end);
    OneThen(cfg, s, Spin(t), [Lock(t)] + steps, end);
    steps := [Spin(t)] + ([Lock(t)] + steps);
  }

  lemma HolderLeaves(cfg: Config, s: State, t: Tid) returns (steps: seq<Step>, end: State)
    requires s.At(t).AtDecrement? && !s.flag
    ensures Run(cfg, s, steps, end) && forall step :: step in steps ==> !ByCollector(step) && step.t == t
    ensures end.At(t).Outside? && t !in end.newcomers && end.mutex.Free? && !end.flag && end.log == s.log
    ensures forall u :: u != t ==> end.At(u) == s.At(u)
  {
    var s1 := Do(cfg, s, Decrement(t));
    end := Do(cfg, s1, Leave(t));
    assert Run(cfg, end, [], end);
    OneThen(cfg, s1, Leave(t), [], end);
    OneThen(cfg, s, Decrement(t), [Leave(t)] + [], end);
    steps := [Decrement(t)] + ([Leave(t)] + []);
  }

  // ---------------------------------------------------------------- what a slip costs

  /** Somebody has slipped in uncounted, the flag is set, and the collector is not in a cycle. */
  ghost predicate Frozen(s: State) {
    !Balanced(s) && s.flag && (s.gc.Idle? || s.gc.WantsMutex? || s.gc.Testing? || s.gc.Tested?)
  }

  lemma FrozenStep(cfg: Config, s: State, step: Step, t: Tid)
    requires Sound(s) && Bounded(s) && Frozen(s) && Enabled(s, step) && cfg.waitingFirst
    ensures var s' := Do(cfg, s, step);
      Frozen(s') && s'.log == s.log && (s.At(t).Spinning? ==> s'.At(t) == s.At(t))
  {
    UnbalancedStep(cfg, s, step);
    CriticalStaysBalanced(cfg, s, step);
    FrozenMoves(cfg, s, step, t);
  }

  lemma FrozenMoves(cfg: Config, s: State, step: Step, t: Tid)
    requires Frozen(s) && Enabled(s, step) && !Critical(Do(cfg, s, step).gc)
    ensures var s' := Do(cfg, s, step);
      && s'.flag && (s'.gc.Idle? || s'.gc.WantsMutex? || s'.gc.Testing? || s'.gc.Tested?)
      && s'.log == s.log && (s.At(t).Spinning? ==> s'.At(t) == s.At(t))
  {
  }

  lemma {:induction false} FrozenRun(cfg: Config, s: State, steps: seq<Step>, end: State, t: Tid)
    requires Sound(s) && Frozen(s) && Run(cfg, s, steps, end) && Bounded(end) && cfg.waitingFirst
    ensures Frozen(end) && end.log == s.log && (s.At(t).Spinning? ==> end.At(t) == s.At(t))
    decreases |steps|
  {
    if steps != [] {
      BoundedBefore(cfg, s, steps, end);
      SoundStep(cfg, s, steps[0]);
      FrozenStep(cfg, s, steps[0], t);
      FrozenRun(cfg, Do(cfg, s, steps[0]), steps[1..], end, t);
    }
  }

  /**
    Once a call of `savePoint` has found the flag unset, and the flag is set again: in every
    continuation, whoever registers, it stays set, no cycle completes, and every thread that
    waits for it to be cleared goes on waiting.
   */
  lemma FrozenForever(cfg: Config, before: seq<Step>, s: State, after: seq<Step>, end: State, t: Tid)
    requires cfg.waitingFirst && Run(cfg, Init(), before, s) && !NeverSlips(cfg, Init(), before)
    requires s.flag && !GcHolds(s.gc)
    requires Run(cfg, s, after, end) && Bounded(end)
    ensures end.flag && end.log == s.log && (s.At(t).Spinning? ==> end.At(t) == s.At(t))
  {
    BoundedBefore(cfg, s, after, end);
    SoundRun(cfg, Init(), before, s);
    BalancedIffNeverSlips(cfg, Init(), before, s);
    FrozenRun(cfg, s, after, end, t);
  }

  /** So a thread that then asks for a collection never gets out of its next `savePoint`. */
  lemma RequestIsNeverServed(cfg: Config, before: seq<Step>, s: State, t: Tid, m: Mode, after: seq<Step>, end: State)
    requires cfg.waitingFirst && Run(cfg, Init(), before, s) && !NeverSlips(cfg, Init(), before)
    requires s.At(t) == RequestMode(m) && t in s.jthreads
    requires Run(cfg, s, after, end) && Unregister(t) !in after && Bounded(end)
    ensures !Departs(end, t)
  {
    InsideRequestRun(cfg, before, s, t);
    FrozenForever(cfg, before, s, after, end, t);
    if Departs(end, t) { RequestIsServed(cfg, before, s, t, m, after, end); }
  }

  /**
    A run as written in which no decrement was unmatched, and yet no collection can take
    place any more: the flag is set between the two reads, and the only thread is parked
    uncounted.
   */
  lemma ParksUncounted() returns (steps: seq<Step>, s: State)
    ensures Run(AS_WRITTEN, Init(), steps, s)
    ensures s.jthreads == [1] && s.At(1) == Spinning(false) && s.flag && s.waiting == s.skipped == 0
    ensures !CanCollect(AS_WRITTEN, s)
  {
    steps, s := [], Init();
    steps, s := Extend(AS_WRITTEN, steps, s, Register(1, true));
    steps, s := Extend(AS_WRITTEN, steps, s, EnterSavePoint(1));
    steps, s := Extend(AS_WRITTEN, steps, s, GcStart);
    assert s.At(1) == Spinning(false);
    CollectionPossibleIff(AS_WRITTEN, steps, s);
  }
}
