/**
  The stop-the-world protocol of gc.c as an interleaving of atomic steps.

  Any number of mutator threads run `savePoint`, `requestGC`, `registerThread` and
  `unregisterThread` against one collector thread that runs `gcLoop`/`runGC`.  Every
  access to a shared variable and every mutex operation is a step of its own.

  Two switches select the variant of the protocol:
    - `guarded` false is `savePoint` as written: the flag is read at line 40 and again at
      line 42, and line 45 decrements whether or not line 41 incremented.  `guarded` true
      returns at once when the first read finds no collection wanted.
    - `waitingFirst` says which operand of the comparison at line 120 is read first; C
      leaves that order open.
 */
module Safepoint {
  import opened Collections

  type Tid = nat

  /** `uint_fast32_t` is 64 bits wide on the platforms the program is built for. */
  const COUNTER_MODULUS: nat := 0x1_0000_0000_0000_0000

  datatype Config = Config(guarded: bool, waitingFirst: bool)

  datatype Mode = Normal | MinorOnly | ForceMajor {
    function Rank(): nat { match this case Normal => 0 case MinorOnly => 1 case ForceMajor => 2 }

    function Max(other: Mode): Mode { if Rank() > other.Rank() then this else other }
  }

  /** Where a mutator stands; `counted` records whether line 41 was executed. */
  datatype Pc =
    | Outside
    | AtIncrement
    | Spinning(counted: bool)
    | AtLock(counted: bool)
    | AtDecrement(counted: bool)
    | AtUnlock
    | RequestFlag(mode: Mode)
    | RequestMode(mode: Mode)
    | RequestUnlock

  /** Where the collector stands. */
  datatype GcPc =
    | Idle
    | WantsMutex
    | Testing
    | Tested(first: nat)
    | Entered
    | Collecting(mode: Mode)
    | FlagCleared(mode: Mode)
    | ModeReset(mode: Mode)

  datatype Holder = Free | Collector | Mutator(t: Tid)

  datatype State = State(
    flag: bool,
    waiting: nat,
    mode: Mode,
    jthreads: seq<Tid>,
    capacity: nat,
    mutex: Holder,
    pcs: map<Tid, Pc>,
    gc: GcPc,
    newcomers: set<Tid>,   // registered threads that have not yet left a savePoint
    log: seq<Mode>,    // the modes of the completed cycles, in order
    skipped: nat)      // decrements at line 45 without a matching increment at line 41
  {
    function At(t: Tid): Pc { if t in pcs then pcs[t] else Outside }

    function Goto(t: Tid, pc: Pc): State { this.(pcs := pcs[t := pc]) }
  }

  datatype Step =
    | Register(t: Tid, grown: bool)
    | Unregister(t: Tid)
    | EnterSavePoint(t: Tid)
    | Increment(t: Tid)
    | Spin(t: Tid)
    | Lock(t: Tid)
    | Decrement(t: Tid)
    | Leave(t: Tid)
    | RequestGC(t: Tid, mode: Mode)
    | SetFlag(t: Tid)
    | RaiseMode(t: Tid)
    | EndRequest(t: Tid)
    | GcStart
    | GcLock
    | GcFirstRead
    | GcCompare
    | GcReadMode
    | GcClearFlag
    | GcResetMode
    | GcUnlock

  function Init(): State {
    State(false, 0, Normal, [], 4, Free, map[], Idle, {}, [], 0)
  }

  /** The index `unregisterThread` finds, or the length when the thread is absent. */
  function IndexOf(s: seq<Tid>, t: Tid): (i: nat)
    ensures i <= |s| && (i < |s| ==> s[i] == t) && (i == |s| <==> t !in s)
  {
    if s == [] then 0 else if s[0] == t then 0 else 1 + IndexOf(s[1..], t)
  }

  /** Overwrites the removed element with the last one, as `unregisterThread` does. */
  function SwapRemove(s: seq<Tid>, t: Tid): seq<Tid> {
    var i := IndexOf(s, t);
    if i < |s| then s[i := s[|s| - 1]][..|s| - 1] else s
  }

  predicate ByCollector(step: Step) {
    step.GcStart? || step.GcLock? || step.GcFirstRead? || step.GcCompare? || step.GcReadMode?
    || step.GcClearFlag? || step.GcResetMode? || step.GcUnlock?
  }

  predicate Enabled(s: State, step: Step) {
    match step
    case Register(t, _) => s.At(t).Outside? && t !in s.jthreads
    case Unregister(t) => s.At(t).Outside?
    case EnterSavePoint(t) => s.At(t).Outside? && t in s.jthreads
    case Increment(t) => s.At(t).AtIncrement?
    case Spin(t) => s.At(t).Spinning?
    case Lock(t) => s.At(t).AtLock? && s.mutex.Free?
    case Decrement(t) => s.At(t).AtDecrement?
    case Leave(t) => s.At(t).AtUnlock?
    case RequestGC(t, _) => s.At(t).Outside? && s.mutex.Free?
    case SetFlag(t) => s.At(t).RequestFlag?
    case RaiseMode(t) => s.At(t).RequestMode?
    case EndRequest(t) => s.At(t).RequestUnlock?
    case GcStart => s.gc.Idle?
    case GcLock => s.gc.WantsMutex? && s.mutex.Free?
    case GcFirstRead => s.gc.Testing?
    case GcCompare => s.gc.Tested?
    case GcReadMode => s.gc.Entered?
    case GcClearFlag => s.gc.Collecting?
    case GcResetMode => s.gc.FlagCleared?
    case GcUnlock => s.gc.ModeReset?
  }

  function Do(cfg: Config, s: State, step: Step): State
    requires Enabled(s, step)
  {
    match step
    case Register(t, grown) =>
      if |s.jthreads| < s.capacity then
        s.(jthreads := s.jthreads + [t], newcomers := s.newcomers + {t})
      else if grown then
        s.(jthreads := s.jthreads + [t], newcomers := s.newcomers + {t}, capacity := 2 * s.capacity)
      else s
    case Unregister(t) => s.(jthreads := SwapRemove(s.jthreads, t), newcomers := s.newcomers - {t})
    case EnterSavePoint(t) =>
      if s.flag then s.Goto(t, AtIncrement)
      else if cfg.guarded then s.(newcomers := s.newcomers - {t})
      else s.Goto(t, Spinning(false))
    case Increment(t) =>
      s.Goto(t, Spinning(true)).(waiting := (s.waiting + 1) % COUNTER_MODULUS)
    case Spin(t) => if s.flag then s else s.Goto(t, AtLock(s.At(t).counted))
    case Lock(t) => s.Goto(t, AtDecrement(s.At(t).counted)).(mutex := Mutator(t))
    case Decrement(t) =>
      s.Goto(t, AtUnlock).(
        waiting := (s.waiting + COUNTER_MODULUS - 1) % COUNTER_MODULUS,
        skipped := if s.At(t).counted then s.skipped else s.skipped + 1)
    case Leave(t) => s.Goto(t, Outside).(mutex := Free, newcomers := s.newcomers - {t})
    case RequestGC(t, m) => s.Goto(t, RequestFlag(m)).(mutex := Mutator(t))
    case SetFlag(t) => s.Goto(t, RequestMode(s.At(t).mode)).(flag := true)
    case RaiseMode(t) => s.Goto(t, RequestUnlock).(mode := s.mode.Max(s.At(t).mode))
    case EndRequest(t) => s.Goto(t, Outside).(mutex := Free)
    case GcStart => s.(flag := true, gc := WantsMutex)
    case GcLock => s.(gc := Testing, mutex := Collector)
    case GcFirstRead => s.(gc := Tested(if cfg.waitingFirst then s.waiting else |s.jthreads|))
    case GcCompare =>
      var second := if cfg.waitingFirst then |s.jthreads| else s.waiting;
      if s.gc.first == second then s.(gc := Entered) else s.(gc := WantsMutex, mutex := Free)
    case GcReadMode => s.(gc := Collecting(s.mode))
    case GcClearFlag => s.(gc := FlagCleared(s.gc.mode), flag := false)
    case GcResetMode => s.(gc := ModeReset(s.gc.mode), mode := Normal)
    case GcUnlock => s.(gc := Idle, mutex := Free, log := s.log + [s.gc.mode])
  }

  /** The state after a schedule, when every step of it is enabled in turn. */
  ghost predicate Run(cfg: Config, s: State, steps: seq<Step>, end: State)
    decreases |steps|
  {
    if steps == [] then end == s
    else Enabled(s, steps[0]) && Run(cfg, Do(cfg, s, steps[0]), steps[1..], end)
  }

  // ---------------------------------------------------------------- invariants

  predicate IsCounted(pc: Pc) {
    (pc.Spinning? || pc.AtLock? || pc.AtDecrement?) && pc.counted
  }

  predicate InSavePoint(pc: Pc) {
    pc.AtIncrement? || pc.Spinning? || pc.AtLock? || pc.AtDecrement? || pc.AtUnlock?
  }

  predicate HoldsMutex(pc: Pc) {
    pc.AtDecrement? || pc.AtUnlock? || pc.RequestFlag? || pc.RequestMode? || pc.RequestUnlock?
  }

  /** The threads between their increment and their decrement. */
  function Counted(s: State): set<Tid> { set t | t in s.pcs && IsCounted(s.pcs[t]) }

  function Elements(s: seq<Tid>): set<Tid> { set t | t in s }

  /** From the successful comparison until the flag is cleared. */
  predicate Critical(gc: GcPc) { gc.Entered? || gc.Collecting? }

  predicate GcHolds(gc: GcPc) { !gc.Idle? && !gc.WantsMutex? }

  /** The counter is the number of counted threads less the unmatched decrements, modulo its width. */
  predicate Matches(waiting: nat, skipped: nat, counted: nat) {
    waiting < COUNTER_MODULUS && (waiting + skipped) % COUNTER_MODULUS == counted % COUNTER_MODULUS
  }

  ghost predicate Conserved(s: State) { Matches(s.waiting, s.skipped, |Counted(s)|) }

  ghost predicate Locking(s: State) {
    && (forall t :: HoldsMutex(s.At(t)) <==> s.mutex == Mutator(t))
    && (GcHolds(s.gc) <==> s.mutex == Collector)
    && (s.gc.WantsMutex? || s.gc.Testing? || s.gc.Tested? || Critical(s.gc) ==> s.flag)
  }

  ghost predicate Registry(s: State) {
    && Distinct(s.jthreads)
    && |s.jthreads| <= s.capacity
    && 0 < s.capacity
    && (forall t :: InSavePoint(s.At(t)) ==> t in s.jthreads)
    && (forall t :: t in s.newcomers ==> t in s.jthreads)
  }

  /** What every variant keeps in every run. */
  ghost predicate Base(s: State) {
    Conserved(s) && Locking(s) && Registry(s)
  }

  /** Everyone registered is parked and counted, or has not yet left a first savePoint. */
  ghost predicate WorldStopped(s: State) {
    forall t :: t in s.jthreads ==> IsCounted(s.At(t)) || t in s.newcomers
  }

  /** The width of the counter hides nothing: the decrements are matched, or too few to make up a wrap-around. */
  predicate Bounded(s: State) { s.skipped == 0 || s.skipped + s.capacity < COUNTER_MODULUS }

  /** What line 120 read first was the counter at a time when no more threads were counted than now. */
  ghost predicate FirstFits(first: nat, skipped: nat, counted: nat) {
    exists c: nat :: c <= counted && Matches(first, skipped, c)
  }

  /** What every variant keeps that reads `numThreadsWaiting` first. */
  ghost predicate Sound(s: State) {
    && Base(s)
    && (s.gc.Tested? ==> FirstFits(s.gc.first, s.skipped, |Counted(s)|))
    && (Critical(s.gc) ==> WorldStopped(s) && Balanced(s))
  }

  /** Line 45 has decremented only what line 41 incremented, and will go on so for who is inside. */
  ghost predicate Balanced(s: State) {
    && s.skipped == 0
    && (forall t :: s.At(t).Spinning? || s.At(t).AtLock? || s.At(t).AtDecrement? ==> IsCounted(s.At(t)))
  }

  /** A call of `savePoint` as written that finds the flag unset at line 40. */
  predicate Slips(cfg: Config, s: State, step: Step) { !cfg.guarded && step.EnterSavePoint? && !s.flag }

  // ---------------------------------------------------------------- bookkeeping lemmas

  lemma CountedAfter(s: State, t: Tid, pc: Pc)
    ensures Counted(s.Goto(t, pc)) == if IsCounted(pc) then Counted(s) + {t} else Counted(s) - {t}
  {
  }

  lemma CountUp(w: nat, k: nat, c: nat)
    requires Matches(w, k, c)
    ensures Matches((w + 1) % COUNTER_MODULUS, k, c + 1)
  {
    var q := (w + k) / COUNTER_MODULUS - c / COUNTER_MODULUS;
    assert (w + 1) % COUNTER_MODULUS == if w + 1 < COUNTER_MODULUS then w + 1 else 0;
    SameResidue((w + 1) % COUNTER_MODULUS + k, c + 1, if w + 1 < COUNTER_MODULUS then q else q - 1);
  }

  lemma SameResidue(a: nat, b: nat, q: int)
    requires a == b + COUNTER_MODULUS * q
    ensures a % COUNTER_MODULUS == b % COUNTER_MODULUS
  {
    OneQuotient(a / COUNTER_MODULUS, a % COUNTER_MODULUS, b / COUNTER_MODULUS, b % COUNTER_MODULUS, q);
  }

  lemma OneQuotient(p: int, r: int, s: int, t: int, q: int)
    requires 0 <= r < COUNTER_MODULUS && 0 <= t < COUNTER_MODULUS
    requires COUNTER_MODULUS * p + r == COUNTER_MODULUS * s + t + COUNTER_MODULUS * q
    ensures r == t
  {
  }

  lemma CountDown(w: nat, k: nat, c: nat)
    requires Matches(w, k, c)
    ensures 0 < c ==> Matches((w + COUNTER_MODULUS - 1) % COUNTER_MODULUS, k, c - 1)
    ensures Matches((w + COUNTER_MODULUS - 1) % COUNTER_MODULUS, k + 1, c)
  {
    var q := (w + k) / COUNTER_MODULUS - c / COUNTER_MODULUS;
    var w' := if w == 0 then COUNTER_MODULUS - 1 else w - 1;
    assert (w + COUNTER_MODULUS - 1) % COUNTER_MODULUS == w';
    SameResidue(w' + (k + 1), c, if w == 0 then q + 1 else q);
    if 0 < c { SameResidue(w' + k, c - 1, if w == 0 then q + 1 else q); }
  }

  /** Removal keeps the order-free contents: every other thread stays, exactly once. */
  lemma SwapRemoveKeeps(s: seq<Tid>, t: Tid)
    requires Distinct(s)
    ensures Distinct(SwapRemove(s, t))
    ensures |SwapRemove(s, t)| <= |s|
    ensures forall u :: u in SwapRemove(s, t) <==> u in s && u != t
  {
    var i := IndexOf(s, t);
    if i < |s| {
      var r := SwapRemove(s, t);
      forall u | u in s && u != t ensures u in r {
        var j :| 0 <= j < |s| && s[j] == u;
        assert r[if j == |s| - 1 then i else j] == u;
      }
    }
  }

  lemma {:induction false} DistinctSize(s: seq<Tid>)
    requires Distinct(s)
    ensures |Elements(s)| == |s|
  {
    if s != [] {
      var last, rest := s[|s| - 1], s[..|s| - 1];
      DistinctSize(rest);
      assert Elements(s) == Elements(rest) + {last} by { assert s == rest + [last]; }
      assert last !in rest;
    }
  }

  // ---------------------------------------------------------------- preservation

  lemma CountedUnchanged(cfg: Config, s: State, step: Step)
    requires Locking(s) && Enabled(s, step) && !step.Increment? && !step.Decrement?
    ensures Counted(Do(cfg, s, step)) == Counted(s)
    ensures Do(cfg, s, step).waiting == s.waiting && Do(cfg, s, step).skipped == s.skipped
  {
  }

  lemma ConservedIncrement(cfg: Config, s: State, t: Tid)
    requires Base(s) && s.At(t).AtIncrement?
    ensures Conserved(Do(cfg, s, Increment(t)))
  {
    CountedAfter(s, t, Spinning(true));
    assert Counted(Do(cfg, s, Increment(t))) == Counted(s) + {t};
    CountUp(s.waiting, s.skipped, |Counted(s)|);
  }

  lemma ConservedDecrement(cfg: Config, s: State, t: Tid)
    requires Base(s) && s.At(t).AtDecrement?
    ensures Conserved(Do(cfg, s, Decrement(t)))
  {
    DecrementCounts(cfg, s, t);
    CountDown(s.waiting, s.skipped, |Counted(s)|);
  }

  lemma DecrementCounts(cfg: Config, s: State, t: Tid)
    requires s.At(t).AtDecrement?
    ensures |Counted(Do(cfg, s, Decrement(t)))| == |Counted(s)| - if s.At(t).counted then 1 else 0
  {
    CountedAfter(s, t, AtUnlock);
    assert Counted(Do(cfg, s, Decrement(t))) == Counted(s) - {t};
    assert t in Counted(s) <==> s.At(t).counted;
  }

  lemma ConservedStep(cfg: Config, s: State, step: Step)
    requires Base(s) && Enabled(s, step)
    ensures Conserved(Do(cfg, s, step))
  {
    if step.Increment? {
      ConservedIncrement(cfg, s, step.t);
    } else if step.Decrement? {
      ConservedDecrement(cfg, s, step.t);
    } else {
      CountedUnchanged(cfg, s, step);
    }
  }

  lemma MutatorLockAt(cfg: Config, s: State, step: Step, t: Tid)
    requires Locking(s) && Enabled(s, step)
    ensures HoldsMutex(Do(cfg, s, step).At(t)) <==> Do(cfg, s, step).mutex == Mutator(t)
  {
    assert HoldsMutex(s.At(t)) <==> s.mutex == Mutator(t);
    assert !ByCollector(step) ==> (HoldsMutex(s.At(step.t)) <==> s.mutex == Mutator(step.t));
  }

  lemma CollectorLock(cfg: Config, s: State, step: Step)
    requires Locking(s) && Enabled(s, step)
    ensures var s' := Do(cfg, s, step);
      && (GcHolds(s'.gc) <==> s'.mutex == Collector)
      && (s'.gc.WantsMutex? || s'.gc.Testing? || s'.gc.Tested? || Critical(s'.gc) ==> s'.flag)
  {
    assert !ByCollector(step) ==> (HoldsMutex(s.At(step.t)) <==> s.mutex == Mutator(step.t));
  }

  lemma LockingStep(cfg: Config, s: State, step: Step)
    requires Locking(s) && Enabled(s, step)
    ensures Locking(Do(cfg, s, step))
  {
    forall t: Tid { MutatorLockAt(cfg, s, step, t); }
    CollectorLock(cfg, s, step);
  }

  lemma ParkedStayRegistered(cfg: Config, s: State, step: Step, t: Tid)
    requires Registry(s) && Enabled(s, step)
    requires InSavePoint(Do(cfg, s, step).At(t)) || t in Do(cfg, s, step).newcomers
    ensures t in Do(cfg, s, step).jthreads
  {
    if step.Unregister? {
      SwapRemoveKeeps(s.jthreads, step.t);
    }
    assert InSavePoint(s.At(t)) ==> t in s.jthreads;
  }

  lemma RegistryStep(cfg: Config, s: State, step: Step)
    requires Registry(s) && Enabled(s, step)
    ensures Registry(Do(cfg, s, step))
  {
    if step.Unregister? {
      SwapRemoveKeeps(s.jthreads, step.t);
    }
    forall t: Tid | InSavePoint(Do(cfg, s, step).At(t)) || t in Do(cfg, s, step).newcomers {
      ParkedStayRegistered(cfg, s, step, t);
    }
  }

  lemma BaseStep(cfg: Config, s: State, step: Step)
    requires Base(s) && Enabled(s, step)
    ensures Base(Do(cfg, s, step))
  {
    ConservedStep(cfg, s, step);
    LockingStep(cfg, s, step);
    RegistryStep(cfg, s, step);
  }

  lemma CountedAreRegistered(s: State)
    requires Base(s)
    ensures Counted(s) <= Elements(s.jthreads)
    ensures |Elements(s.jthreads)| == |s.jthreads|
  {
    DistinctSize(s.jthreads);
    forall t | t in Counted(s) ensures t in s.jthreads {
      assert InSavePoint(s.At(t));
    }
  }

  lemma FirstIsAll(first: nat, skipped: nat, counted: nat, registered: nat, capacity: nat)
    requires FirstFits(first, skipped, counted) && counted <= registered <= capacity && first == registered
    requires skipped == 0 || skipped + capacity < COUNTER_MODULUS
    ensures skipped == 0 && counted == registered
  {
    var c: nat :| c <= counted && Matches(first, skipped, c);
    assert c % COUNTER_MODULUS <= c;
  }

  /** The test of line 120 succeeds only when every registered thread is counted, and no decrement was unmatched. */
  lemma TestMeansStopped(s: State)
    requires Sound(s) && Bounded(s) && s.gc.Tested? && s.gc.first == |s.jthreads|
    ensures s.skipped == 0
    ensures forall t :: t in s.jthreads ==> IsCounted(s.At(t))
  {
    CountedAreRegistered(s);
    SubsetSize(Counted(s), Elements(s.jthreads));
    FirstIsAll(s.gc.first, s.skipped, |Counted(s)|, |s.jthreads|, s.capacity);
    assert Counted(s) == Elements(s.jthreads);
    forall t | t in s.jthreads ensures IsCounted(s.At(t)) {
      assert t in Elements(s.jthreads);
    }
  }

  /** While the collector tests, the counted threads can only become more. */
  lemma CountedGrows(cfg: Config, s: State, step: Step)
    requires Base(s) && Enabled(s, step) && GcHolds(s.gc)
    ensures Counted(s) <= Counted(Do(cfg, s, step)) && Do(cfg, s, step).skipped == s.skipped
    ensures |Counted(s)| <= |Counted(Do(cfg, s, step))|
  {
    if step.Increment? {
      CountedAfter(s, step.t, Spinning(true));
      assert Counted(Do(cfg, s, step)) == Counted(s) + {step.t};
    } else if step.Decrement? {
      assert HoldsMutex(s.At(step.t));
      assert false;
    } else {
      CountedUnchanged(cfg, s, step);
    }
    SubsetSize(Counted(s), Counted(Do(cfg, s, step)));
  }

  lemma TestedStep(cfg: Config, s: State, step: Step)
    requires Sound(s) && Enabled(s, step) && cfg.waitingFirst
    ensures var s' := Do(cfg, s, step); s'.gc.Tested? ==> FirstFits(s'.gc.first, s'.skipped, |Counted(s')|)
  {
    if step.GcFirstRead? {
      CountedUnchanged(cfg, s, step);
      assert Matches(s.waiting, s.skipped, |Counted(s)|);
    } else if s.gc.Tested? {
      CountedGrows(cfg, s, step);
      var c: nat :| c <= |Counted(s)| && Matches(s.gc.first, s.skipped, c);
    }
  }

  lemma StoppedStep(cfg: Config, s: State, step: Step)
    requires Sound(s) && Bounded(s) && Enabled(s, step) && cfg.waitingFirst
    ensures var s' := Do(cfg, s, step); Critical(s'.gc) ==> WorldStopped(s')
  {
    var s' := Do(cfg, s, step);
    if step.GcCompare? && s'.gc.Entered? {
      TestMeansStopped(s);
    } else if step.Unregister? {
      SwapRemoveKeeps(s.jthreads, step.t);
    }
    assert step.Decrement? || step.Lock? || step.Leave? ==> HoldsMutex(s.At(step.t)) || s.mutex.Free?;
  }

  /** The collector comes in only while the counter is in order, and then nobody can slip. */
  lemma CriticalStaysBalanced(cfg: Config, s: State, step: Step)
    requires Sound(s) && Bounded(s) && Enabled(s, step) && cfg.waitingFirst
    ensures Critical(Do(cfg, s, step).gc) ==> Balanced(Do(cfg, s, step))
  {
    if step.GcCompare? && Do(cfg, s, step).gc.Entered? {
      TestMeansStopped(s);
      forall t | InSavePoint(s.At(t)) ensures IsCounted(s.At(t)) || s.At(t).AtIncrement? || s.At(t).AtUnlock? {
        assert t in s.jthreads;
      }
    }
    if Balanced(s) && Critical(Do(cfg, s, step).gc) { BalancedStep(cfg, s, step); }
  }

  lemma SoundStep(cfg: Config, s: State, step: Step)
    requires Sound(s) && Bounded(s) && Enabled(s, step) && cfg.waitingFirst
    ensures Sound(Do(cfg, s, step))
  {
    BaseStep(cfg, s, step);
    TestedStep(cfg, s, step);
    StoppedStep(cfg, s, step);
    CriticalStaysBalanced(cfg, s, step);
  }

  lemma BalancedStep(cfg: Config, s: State, step: Step)
    requires Balanced(s) && Enabled(s, step) && !Slips(cfg, s, step)
    ensures Balanced(Do(cfg, s, step))
  {
    var s' := Do(cfg, s, step);
    forall t | s'.At(t).Spinning? || s'.At(t).AtLock? || s'.At(t).AtDecrement? ensures IsCounted(s'.At(t)) {
      assert s.At(t).Spinning? || s.At(t).AtLock? || s.At(t).AtDecrement? ==> IsCounted(s.At(t));
    }
    assert step.Decrement? ==> IsCounted(s.At(step.t));
  }

  /** Who has slipped in uncounted leaves an unmatched decrement behind. */
  lemma UnbalancedStep(cfg: Config, s: State, step: Step)
    requires !Balanced(s) && Enabled(s, step)
    ensures !Balanced(Do(cfg, s, step))
  {
    if s.skipped == 0 {
      var t :| (s.At(t).Spinning? || s.At(t).AtLock? || s.At(t).AtDecrement?) && !IsCounted(s.At(t));
      assert Do(cfg, s, step).At(t).Outside? || Do(cfg, s, step).At(t).AtUnlock? ==> step == Decrement(t);
    }
  }

  // ---------------------------------------------------------------- results over whole runs

  lemma {:induction false} BaseRun(cfg: Config, s: State, steps: seq<Step>, end: State)
    requires Base(s) && Run(cfg, s, steps, end)
    ensures Base(end)
    decreases |steps|
  {
    if steps != [] {
      BaseStep(cfg, s, steps[0]);
      BaseRun(cfg, Do(cfg, s, steps[0]), steps[1..], end);
    }
  }

  lemma {:induction false} BalancedRun(cfg: Config, s: State, steps: seq<Step>, end: State)
    requires Balanced(s) && Run(cfg, s, steps, end) && cfg.guarded
    ensures Balanced(end)
    decreases |steps|
  {
    if steps != [] {
      BalancedStep(cfg, s, steps[0]);
      BalancedRun(cfg, Do(cfg, s, steps[0]), steps[1..], end);
    }
  }

  /** Unmatched decrements and the capacity never become fewer. */
  lemma {:induction false} BoundedBefore(cfg: Config, s: State, steps: seq<Step>, end: State)
    requires Run(cfg, s, steps, end) && Bounded(end)
    ensures Bounded(s)
    ensures s.skipped <= end.skipped && s.capacity <= end.capacity
    decreases |steps|
  {
    if steps != [] {
      BoundedBefore(cfg, Do(cfg, s, steps[0]), steps[1..], end);
    }
  }

  lemma {:induction false} SoundRun(cfg: Config, s: State, steps: seq<Step>, end: State)
    requires Sound(s) && Run(cfg, s, steps, end) && cfg.waitingFirst && Bounded(end)
    ensures Sound(end)
    decreases |steps|
  {
    if steps != [] {
      BoundedBefore(cfg, s, steps, end);
      SoundStep(cfg, s, steps[0]);
      SoundRun(cfg, Do(cfg, s, steps[0]), steps[1..], end);
    }
  }

  /** Four, doubled some number of times. */
  predicate IsCapacity(n: nat) { n == 4 || (n > 4 && n % 2 == 0 && IsCapacity(n / 2)) }

  /** In every run the room for threads is four, doubled some number of times, and holds all that are registered. */
  lemma {:induction false} CapacityDoubles(cfg: Config, s: State, steps: seq<Step>, end: State)
    requires IsCapacity(s.capacity) && Base(s) && Run(cfg, s, steps, end)
    ensures IsCapacity(end.capacity) && |end.jthreads| <= end.capacity
    decreases |steps|
  {
    if steps != [] {
      BaseStep(cfg, s, steps[0]);
      CapacityDoubles(cfg, Do(cfg, s, steps[0]), steps[1..], end);
    }
  }

  lemma GuardedIsBounded(cfg: Config, steps: seq<Step>, s: State)
    requires Run(cfg, Init(), steps, s) && cfg.guarded
    ensures Bounded(s) && s.skipped == 0
  {
    BalancedRun(cfg, Init(), steps, s);
  }

  /**
    Mutual exclusion, guarded or as written: while the collector works every registered
    thread is inside `savePoint`, or has not yet left its first one, and the counter is at
    all times the number of threads between increment and decrement less the unmatched
    decrements.  As written this needs that these have not made up a wrap-around; an
    unbalanced counter then keeps the collector out, so the missing guard costs progress
    and not safety.
   */
  lemma CollectorRunsAlone(cfg: Config, steps: seq<Step>, s: State)
    requires cfg.waitingFirst && Run(cfg, Init(), steps, s) && (cfg.guarded || Bounded(s))
    ensures (s.waiting + s.skipped) % COUNTER_MODULUS == |Counted(s)| % COUNTER_MODULUS
    ensures cfg.guarded || Critical(s.gc) ==> s.skipped == 0
    ensures Critical(s.gc) ==> s.flag && s.mutex == Collector
    ensures Critical(s.gc) ==> forall t :: t in s.jthreads ==> InSavePoint(s.At(t)) || t in s.newcomers
  {
    if cfg.guarded { GuardedIsBounded(cfg, steps, s); }
    SoundRun(cfg, Init(), steps, s);
  }

  lemma {:induction false} CountedGrowsRun(cfg: Config, s: State, steps: seq<Step>, end: State)
    requires Base(s) && GcHolds(s.gc) && Run(cfg, s, steps, end)
    requires forall step :: step in steps ==> !ByCollector(step)
    ensures Counted(s) <= Counted(end) && end.skipped == s.skipped && end.gc == s.gc && Base(end)
    decreases |steps|
  {
    if steps != [] {
      assert steps[0] in steps;
      BaseStep(cfg, s, steps[0]);
      CountedGrows(cfg, s, steps[0]);
      CountedGrowsRun(cfg, Do(cfg, s, steps[0]), steps[1..], end);
    }
  }

  /**
    The comparison of line 120 with its two reads, and whatever other threads do between
    them: it succeeds if and only if no decrement was unmatched and every thread that is
    registered at the second read was counted at the first.
   */
  lemma TestIsExact(cfg: Config, before: seq<Step>, s: State, between: seq<Step>, end: State)
    requires cfg.waitingFirst && Run(cfg, Init(), before, s) && s.gc.Testing?
    requires Run(cfg, Do(cfg, s, GcFirstRead), between, end) && (forall step :: step in between ==> !ByCollector(step))
    requires Bounded(end) && |end.jthreads| < COUNTER_MODULUS
    ensures TestSucceeds(cfg, end) <==> s.skipped == 0 && forall t :: t in end.jthreads ==> IsCounted(s.At(t))
  {
    BaseRun(cfg, Init(), before, s);
    TwoReads(cfg, s, between, end);
    ReadsAgree(s, end);
  }

  predicate TestSucceeds(cfg: Config, s: State) { s.gc.Tested? && Do(cfg, s, GcCompare).gc.Entered? }

  lemma TwoReads(cfg: Config, s: State, between: seq<Step>, end: State)
    requires cfg.waitingFirst && Base(s) && s.gc.Testing?
    requires Run(cfg, Do(cfg, s, GcFirstRead), between, end) && (forall step :: step in between ==> !ByCollector(step))
    ensures Base(end) && Counted(s) <= Counted(end) && s.skipped == end.skipped
    ensures TestSucceeds(cfg, end) <==> s.waiting == |end.jthreads|
  {
    BaseStep(cfg, s, GcFirstRead);
    CountedUnchanged(cfg, s, GcFirstRead);
    CountedGrowsRun(cfg, Do(cfg, s, GcFirstRead), between, end);
  }

  /** The counter as it was read first, against the threads registered later. */
  lemma ReadsAgree(s: State, end: State)
    requires Base(s) && Base(end) && Counted(s) <= Counted(end) && s.skipped == end.skipped
    requires Bounded(end) && |end.jthreads| < COUNTER_MODULUS
    ensures s.waiting == |end.jthreads| <==> s.skipped == 0 && forall t :: t in end.jthreads ==> IsCounted(s.At(t))
  {
    CountedAreRegistered(end);
    SubsetSize(Counted(s), Elements(end.jthreads));
    AllCountedIff(s, end.jthreads);
    if s.waiting == |end.jthreads| {
      assert Matches(s.waiting, s.skipped, |Counted(s)|);
      FirstIsAll(s.waiting, s.skipped, |Counted(s)|, |end.jthreads|, end.capacity);
    }
  }

  lemma AllCountedIff(s: State, ts: seq<Tid>)
    requires Counted(s) <= Elements(ts)
    ensures Counted(s) == Elements(ts) <==> forall t :: t in ts ==> IsCounted(s.At(t))
  {
    if Counted(s) == Elements(ts) {
      forall t | t in ts ensures IsCounted(s.At(t)) { assert t in Elements(ts); }
    }
    if forall t :: t in ts ==> IsCounted(s.At(t)) {
      forall t | t in ts ensures t in Counted(s) { assert IsCounted(s.At(t)); }
    }
  }

  /**
    Over every run of every variant, any two of these imply the third: the two counters are
    equal, every registered thread is counted, and the number of unmatched decrements is a
    multiple of the counter's modulus.
   */
  lemma CountersAgree(cfg: Config, steps: seq<Step>, s: State)
    requires Run(cfg, Init(), steps, s)
    requires |s.jthreads| < COUNTER_MODULUS
    ensures s.waiting == |s.jthreads| ==>
      ((forall t :: t in s.jthreads ==> IsCounted(s.At(t))) <==> s.skipped % COUNTER_MODULUS == 0)
    ensures (forall t :: t in s.jthreads ==> IsCounted(s.At(t))) ==>
      (s.waiting == |s.jthreads| <==> s.skipped % COUNTER_MODULUS == 0)
  {
    BaseRun(cfg, Init(), steps, s);
    CountedAreRegistered(s);
    SubsetSize(Counted(s), Elements(s.jthreads));
    Residue(s.waiting, s.skipped, |Counted(s)|);
    if forall t :: t in s.jthreads ==> IsCounted(s.At(t)) {
      forall t | t in s.jthreads ensures t in Counted(s) { assert IsCounted(s.At(t)); }
      assert Counted(s) == Elements(s.jthreads);
    }
    if Counted(s) == Elements(s.jthreads) {
      forall t | t in s.jthreads ensures IsCounted(s.At(t)) { assert t in Elements(s.jthreads); }
    }
  }

  lemma Residue(w: nat, k: nat, c: nat)
    requires Matches(w, k, c) && c < COUNTER_MODULUS
    ensures w == c <==> k % COUNTER_MODULUS == 0
  {
  }

  // ---------------------------------------------------------------- requests

  /** The first cycle to finish after the log had length `n` ran with mode at least `m`. */
  predicate Served(log: seq<Mode>, n: nat, m: Mode) {
    n < |log| && m.Rank() <= log[n].Rank()
  }

  /** Thread `t` is inside `requestGC(m)` or has left it, and no cycle has finished since. */
  ghost predicate Pending(s: State, t: Tid, m: Mode) {
    match s.gc
    case FlagCleared(mode) => m.Rank() <= mode.Rank() && (s.At(t) == Spinning(true) || s.At(t) == AtLock(true))
    case ModeReset(mode) => m.Rank() <= mode.Rank() && (s.At(t) == Spinning(true) || s.At(t) == AtLock(true))
    case Collecting(mode) => m.Rank() <= mode.Rank() && s.flag && s.At(t) == Spinning(true)
    case Entered => m.Rank() <= s.mode.Rank() && s.flag && s.At(t) == Spinning(true)
    case _ =>
      && s.flag
      && (s.At(t) == RequestMode(m) || m.Rank() <= s.mode.Rank())
      && s.At(t) != Spinning(false) && !s.At(t).AtLock? && !s.At(t).AtDecrement? && !s.At(t).AtUnlock?
  }

  ghost predicate Owed(s: State, t: Tid, m: Mode, n: nat) {
    && t in s.jthreads
    && (Served(s.log, n, m) || (|s.log| == n && Pending(s, t, m)))
  }

  lemma PendingCollectorStep(cfg: Config, s: State, step: Step, t: Tid, m: Mode)
    requires Sound(s) && Bounded(s) && cfg.waitingFirst && Enabled(s, step) && ByCollector(step)
    requires t in s.jthreads && Pending(s, t, m)
    ensures Pending(Do(cfg, s, step), t, m) || (step.GcUnlock? && m.Rank() <= s.gc.mode.Rank())
  {
    assert HoldsMutex(s.At(t)) <==> s.mutex == Mutator(t);
    if step.GcCompare? && s.gc.first == |s.jthreads| {
      TestMeansStopped(s);
    }
  }

  lemma PendingOwnStep(cfg: Config, s: State, step: Step, t: Tid, m: Mode)
    requires Base(s) && Enabled(s, step) && Pending(s, t, m) && !ByCollector(step) && step.t == t
    ensures Pending(Do(cfg, s, step), t, m)
  {
    assert HoldsMutex(s.At(t)) <==> s.mutex == Mutator(t);
  }

  lemma PendingOtherStep(cfg: Config, s: State, step: Step, t: Tid, m: Mode)
    requires Base(s) && Enabled(s, step) && Pending(s, t, m) && !ByCollector(step) && step.t != t
    ensures Pending(Do(cfg, s, step), t, m)
  {
    assert Do(cfg, s, step).At(t) == s.At(t);
    assert Do(cfg, s, step).gc == s.gc;
    assert s.mode.Rank() <= Do(cfg, s, step).mode.Rank();
  }

  lemma PendingStep(cfg: Config, s: State, step: Step, t: Tid, m: Mode)
    requires Sound(s) && Bounded(s) && cfg.waitingFirst && Enabled(s, step)
    requires t in s.jthreads && Pending(s, t, m)
    ensures Pending(Do(cfg, s, step), t, m) || (step.GcUnlock? && m.Rank() <= s.gc.mode.Rank())
  {
    if ByCollector(step) {
      PendingCollectorStep(cfg, s, step, t, m);
    } else if step.t == t {
      PendingOwnStep(cfg, s, step, t, m);
    } else {
      PendingOtherStep(cfg, s, step, t, m);
    }
  }

  lemma OwedStep(cfg: Config, s: State, step: Step, t: Tid, m: Mode, n: nat)
    requires Sound(s) && Bounded(s) && cfg.waitingFirst && Enabled(s, step)
    requires Owed(s, t, m, n) && step != Unregister(t)
    ensures Owed(Do(cfg, s, step), t, m, n)
  {
    if step.Unregister? {
      SwapRemoveKeeps(s.jthreads, step.t);
    }
    if !Served(s.log, n, m) {
      PendingStep(cfg, s, step, t, m);
    }
  }

  lemma {:induction false} OwedRun(cfg: Config, s: State, steps: seq<Step>, end: State, t: Tid, m: Mode, n: nat)
    requires Sound(s) && cfg.waitingFirst && Run(cfg, s, steps, end) && Bounded(end)
    requires Owed(s, t, m, n) && Unregister(t) !in steps
    ensures Owed(end, t, m, n)
    decreases |steps|
  {
    if steps != [] {
      BoundedBefore(cfg, s, steps, end);
      SoundStep(cfg, s, steps[0]);
      OwedStep(cfg, s, steps[0], t, m, n);
      OwedRun(cfg, Do(cfg, s, steps[0]), steps[1..], end, t, m, n);
    }
  }

  /** The steps by which a thread gets out of `savePoint`: an unset flag at entry, or the mutex at line 44. */
  predicate Departs(s: State, t: Tid) {
    (s.At(t).Outside? && !s.flag) || (s.At(t).AtLock? && s.mutex.Free?) || s.At(t).AtDecrement? || s.At(t).AtUnlock?
  }

  /**
    No request is dropped.  Take any run, any registered thread inside `requestGC(m)`, and
    any continuation in which it stays registered: by the time it can get out of
    `savePoint`, a whole cycle has completed since the request, and the first such cycle
    ran with mode at least `m`.
   */
  lemma RequestIsServed(cfg: Config, before: seq<Step>, s: State, t: Tid, m: Mode, after: seq<Step>, end: State)
    requires cfg.waitingFirst && Run(cfg, Init(), before, s)
    requires s.At(t) == RequestMode(m) && t in s.jthreads
    requires Run(cfg, s, after, end) && Unregister(t) !in after && (cfg.guarded || Bounded(end))
    requires Departs(end, t)
    ensures Served(end.log, |s.log|, m)
  {
    if cfg.guarded {
      BalancedRun(cfg, Init(), before, s);
      BalancedRun(cfg, s, after, end);
    }
    BoundedBefore(cfg, s, after, end);
    SoundRun(cfg, Init(), before, s);
    InsideRequestRun(cfg, before, s, t);
    OwedRun(cfg, s, after, end, t, m, |s.log|);
    SoundRun(cfg, s, after, end);
  }

  /** `requestGC` has the flag set from line 102 on: the mutex keeps the collector from clearing it. */
  ghost predicate FlagHeld(s: State) { forall t :: s.At(t).RequestMode? || s.At(t).RequestUnlock? ==> s.flag }

  lemma FlagHeldStep(cfg: Config, s: State, step: Step)
    requires Base(s) && FlagHeld(s) && Enabled(s, step)
    ensures FlagHeld(Do(cfg, s, step))
  {
    var s' := Do(cfg, s, step);
    forall t | s'.At(t).RequestMode? || s'.At(t).RequestUnlock? ensures s'.flag {
      FlagHeldAt(cfg, s, step, t);
    }
  }

  lemma FlagHeldAt(cfg: Config, s: State, step: Step, t: Tid)
    requires Base(s) && FlagHeld(s) && Enabled(s, step)
    requires Do(cfg, s, step).At(t).RequestMode? || Do(cfg, s, step).At(t).RequestUnlock?
    ensures Do(cfg, s, step).flag
  {
    assert HoldsMutex(s.At(t)) <==> s.mutex == Mutator(t);
  }

  lemma {:induction false} FlagHeldRun(cfg: Config, s: State, steps: seq<Step>, end: State)
    requires Base(s) && FlagHeld(s) && Run(cfg, s, steps, end)
    ensures FlagHeld(end)
    decreases |steps|
  {
    if steps != [] {
      BaseStep(cfg, s, steps[0]);
      FlagHeldStep(cfg, s, steps[0]);
      FlagHeldRun(cfg, Do(cfg, s, steps[0]), steps[1..], end);
    }
  }

  lemma InsideRequestRun(cfg: Config, before: seq<Step>, s: State, t: Tid)
    requires Run(cfg, Init(), before, s) && s.At(t).RequestMode?
    ensures s.flag && !GcHolds(s.gc)
  {
    BaseRun(cfg, Init(), before, s);
    FlagHeldRun(cfg, Init(), before, s);
    assert HoldsMutex(s.At(t));
  }

  // ---------------------------------------------------------------- where the code as written fails

  lemma {:induction false} RunSnoc(cfg: Config, s: State, steps: seq<Step>, mid: State, step: Step)
    requires Run(cfg, s, steps, mid) && Enabled(mid, step)
    ensures Run(cfg, s, steps + [step], Do(cfg, mid, step))
    decreases |steps|
  {
    if steps != [] {
      RunSnoc(cfg, Do(cfg, s, steps[0]), steps[1..], mid, step);
      assert (steps + [step])[1..] == steps[1..] + [step];
    }
  }

  /** Extends a run from the initial state by one step. */
  lemma Extend(cfg: Config, steps: seq<Step>, s: State, step: Step) returns (steps': seq<Step>, s': State)
    requires Run(cfg, Init(), steps, s) && Enabled(s, step)
    ensures steps' == steps + [step] && s' == Do(cfg, s, step) && Run(cfg, Init(), steps', s')
  {
    RunSnoc(cfg, Init(), steps, s, step);
    steps', s' := steps + [step], Do(cfg, s, step);
  }

  const THREADS_FIRST := Config(true, false)

  lemma SecondThreadRunsOn() returns (steps: seq<Step>, s: State)
    ensures Run(THREADS_FIRST, Init(), steps, s)
    ensures s == State(true, 0, Normal, [1, 2], 4, Free, map[], WantsMutex, {1}, [], 0)
  {
    steps, s := [], Init();
    steps, s := Extend(THREADS_FIRST, steps, s, Register(1, true));
    steps, s := Extend(THREADS_FIRST, steps, s, Register(2, true));
    steps, s := Extend(THREADS_FIRST, steps, s, EnterSavePoint(2));
    steps, s := Extend(THREADS_FIRST, steps, s, GcStart);
  }

  lemma FirstThreadParks() returns (steps: seq<Step>, s: State)
    ensures Run(THREADS_FIRST, Init(), steps, s)
    ensures s == State(true, 1, Normal, [1, 2], 4, Free, map[1 := Spinning(true)], WantsMutex, {1}, [], 0)
  {
    steps, s := SecondThreadRunsOn();
    steps, s := Extend(THREADS_FIRST, steps, s, EnterSavePoint(1));
    steps, s := Extend(THREADS_FIRST, steps, s, Increment(1));
  }

  lemma CollectorReadsThreads() returns (steps: seq<Step>, s: State)
    ensures Run(THREADS_FIRST, Init(), steps, s)
    ensures s == State(true, 1, Normal, [1, 2], 4, Collector, map[1 := Spinning(true)], Tested(2), {1}, [], 0)
  {
    steps, s := FirstThreadParks();
    steps, s := Extend(THREADS_FIRST, steps, s, GcLock);
    steps, s := Extend(THREADS_FIRST, steps, s, GcFirstRead);
  }

  lemma ThirdThreadParks() returns (steps: seq<Step>, s: State)
    ensures Run(THREADS_FIRST, Init(), steps, s)
    ensures s == State(true, 2, Normal, [1, 2, 3], 4, Collector, map[1 := Spinning(true), 3 := Spinning(true)],
                       Tested(2), {1, 3}, [], 0)
  {
    steps, s := CollectorReadsThreads();
    steps, s := Extend(THREADS_FIRST, steps, s, Register(3, true));
    steps, s := Extend(THREADS_FIRST, steps, s, EnterSavePoint(3));
    steps, s := Extend(THREADS_FIRST, steps, s, Increment(3));
  }

  /**
    Read in the other order, the comparison of line 120 lets the collector in although a
    registered thread that is past its first savePoint still runs: between the two reads a
    third thread registers and parks.
   */
  lemma ThreadsFirstIsUnsafe() returns (steps: seq<Step>, s: State)
    ensures Run(THREADS_FIRST, Init(), steps, s)
    ensures Critical(s.gc) && 2 in s.jthreads && s.At(2) == Outside && 2 !in s.newcomers
  {
    steps, s := ThirdThreadParks();
    steps, s := Extend(THREADS_FIRST, steps, s, GcCompare);
  }

  const AS_WRITTEN := Config(false, true)

  lemma OnePassUncountedToLock() returns (steps: seq<Step>, s: State)
    ensures Run(AS_WRITTEN, Init(), steps, s)
    ensures s == State(false, 0, Normal, [1], 4, Free, map[1 := AtLock(false)], Idle, {1}, [], 0)
  {
    steps, s := [], Init();
    steps, s := Extend(AS_WRITTEN, steps, s, Register(1, true));
    steps, s := Extend(AS_WRITTEN, steps, s, EnterSavePoint(1));
    steps, s := Extend(AS_WRITTEN, steps, s, Spin(1));
  }

  lemma OnePassUncounted() returns (steps: seq<Step>, s: State)
    ensures Run(AS_WRITTEN, Init(), steps, s)
    ensures s == State(false, COUNTER_MODULUS - 1, Normal, [1], 4, Free, map[1 := Outside], Idle, {}, [], 1)
  {
    steps, s := OnePassUncountedToLock();
    steps, s := Extend(AS_WRITTEN, steps, s, Lock(1));
    steps, s := Extend(AS_WRITTEN, steps, s, Decrement(1));
    steps, s := Extend(AS_WRITTEN, steps, s, Leave(1));
  }

  /**
    As written, one pass through `savePoint` while no collection is wanted unbalances the
    counter for good: here the only registered thread is parked and counted, and yet the
    two counters of line 120 differ.
   */
  lemma UnmatchedDecrementHidesParkedThread() returns (steps: seq<Step>, s: State)
    ensures Run(AS_WRITTEN, Init(), steps, s)
    ensures s.jthreads == [1] && s.At(1) == Spinning(true) && s.flag && s.gc == WantsMutex
    ensures s.waiting == 0 && s.skipped == 1
  {
    steps, s := OnePassUncounted();
    steps, s := Extend(AS_WRITTEN, steps, s, GcStart);
    steps, s := Extend(AS_WRITTEN, steps, s, EnterSavePoint(1));
    steps, s := Extend(AS_WRITTEN, steps, s, Increment(1));
  }

  /** Every registered thread is parked, and the collector still waits for a count that cannot come. */
  ghost predicate Deadlocked(cfg: Config, s: State) {
    && Base(s)
    && s.flag
    && s.waiting != |s.jthreads|
    && (forall t :: t in s.jthreads ==> s.At(t) == Spinning(true))
    && (s.gc.Idle? || s.gc.WantsMutex? || s.gc.Testing?
        || (s.gc.Tested? && s.gc.first == if cfg.waitingFirst then s.waiting else |s.jthreads|))
  }

  lemma DeadlockedStep(cfg: Config, s: State, step: Step)
    requires Deadlocked(cfg, s) && Enabled(s, step) && !step.Register?
    ensures Deadlocked(cfg, Do(cfg, s, step)) && Do(cfg, s, step).jthreads == s.jthreads
  {
    BaseStep(cfg, s, step);
  }

  lemma {:induction false} DeadlockedRun(cfg: Config, s: State, steps: seq<Step>, end: State)
    requires Deadlocked(cfg, s) && Run(cfg, s, steps, end) && (forall step :: step in steps ==> !step.Register?)
    ensures Deadlocked(cfg, end) && end.jthreads == s.jthreads
    decreases |steps|
  {
    if steps != [] {
      DeadlockedStep(cfg, s, steps[0]);
      DeadlockedRun(cfg, Do(cfg, s, steps[0]), steps[1..], end);
    }
  }

  /**
    What the unbalanced counter costs, for every run of every variant: once all registered
    threads are parked and the number of unmatched decrements is not a multiple of the
    modulus, no cycle ever starts and no thread ever leaves, until another thread registers.
   */
  lemma UnbalancedCounterDeadlocks(cfg: Config, before: seq<Step>, s: State, after: seq<Step>, end: State)
    requires Run(cfg, Init(), before, s) && |s.jthreads| < COUNTER_MODULUS
    requires s.flag && (s.gc.Idle? || s.gc.WantsMutex?)
    requires forall t :: t in s.jthreads ==> s.At(t) == Spinning(true)
    requires s.skipped % COUNTER_MODULUS != 0
    requires Run(cfg, s, after, end) && (forall step :: step in after ==> !step.Register?)
    ensures !Critical(end.gc) && end.jthreads == s.jthreads
    ensures forall t :: t in s.jthreads ==> end.At(t) == Spinning(true)
  {
    BaseRun(cfg, Init(), before, s);
    CountersAgree(cfg, before, s);
    DeadlockedRun(cfg, s, after, end);
  }
}
