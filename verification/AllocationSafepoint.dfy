/**
  Allocation under the safepoint protocol: `allocateObject` and `allocateArrayObject`
  (heap.c:50-104) run their two requests for a collection inside `allocationMutex`.

  A step is a step of the protocol in the module Safepoint, or an operation on the mutex.
  Whether there is room, which decides where an allocation goes on, is left open.  Only
  registered threads that have left their first `savePoint` allocate.

  `guarded` is that of Safepoint, whose waiting count is read first here.  `repaired` selects
  what a thread does with the mutex while it waits for a collection and when it gives up: as
  written (lines 54-59, 62, 82-87 and 90) it keeps it; in the evident intent it unlocks it
  before the request, locks it again afterwards, and unlocks it before it returns NULL.
 */
module AllocationSafepoint {
  import opened Collections
  import S = Safepoint
  import P = SafepointProgress

  type Tid = S.Tid

  datatype Config = Config(guarded: bool, repaired: bool) {
    function Sp(): S.Config { S.Config(guarded, true) }
  }

  /** The mutex kept while waiting, as written, and the guard, which keeps the other defect out of sight. */
  const GUARDED := Config(true, false)

  /** Where a thread stands in an allocation, with the number of collections it has waited for. */
  datatype Place =
    | Idle
    | Blocked(tries: nat)    // at the mutex
    | Holding(tries: nat)    // the mutex taken, the space looked at
    | Asking(tries: nat)     // about to enter `requestGC`, or inside it
    | Asked(tries: nat)      // about to enter `savePoint`, or inside it

  /** `Abandoned` is held by a thread that has returned with it. */
  datatype Mutex = Free | Held(t: Tid) | Abandoned

  datatype State = State(sp: S.State, places: map<Tid, Place>, mutex: Mutex) {
    function At(t: Tid): Place { if t in places then places[t] else Idle }

    function Goto(t: Tid, p: Place): State { this.(places := places[t := p]) }
  }

  datatype Step =
    | Want(t: Tid)
    | Take(t: Tid)
    | Ask(t: Tid)
    | Finish(t: Tid)
    | Fail(t: Tid)
    | Protocol(step: S.Step)

  function Init(): State { State(S.Init(), map[], Free) }

  /** First a minor collection, then a full one. */
  function Wanted(tries: nat): S.Mode { if tries == 0 then S.MinorOnly else S.ForceMajor }

  /** The interpreter calls `savePoint` between instructions, an allocation after its request. */
  predicate Allowed(s: State, step: S.Step) {
    match step
    case Unregister(t) => s.At(t).Idle?
    case EnterSavePoint(t) => s.At(t).Idle? || s.At(t).Asked?
    case RequestGC(t, m) => s.At(t).Asking? && m == Wanted(s.At(t).tries)
    case _ => true
  }

  predicate Enabled(s: State, step: Step) {
    match step
    case Want(t) => s.At(t).Idle? && s.sp.At(t).Outside? && t in s.sp.jthreads && t !in s.sp.newcomers
    case Take(t) => s.At(t).Blocked? && s.mutex.Free?
    case Ask(t) => s.At(t).Holding? && s.At(t).tries < 2
    case Finish(t) => s.At(t).Holding?
    case Fail(t) => s.At(t).Holding? && s.At(t).tries == 2
    case Protocol(step) => S.Enabled(s.sp, step) && Allowed(s, step)
  }

  /** Where a thread goes on when `requestGC` or `savePoint` returns. */
  function Resumed(cfg: Config, s: State, step: S.Step): State
    requires S.Enabled(s.sp, step)
  {
    var leaves := step.Leave? || (step.EnterSavePoint? && !s.sp.flag && cfg.guarded);
    if step.EndRequest? && s.At(step.t).Asking? then s.Goto(step.t, Asked(s.At(step.t).tries))
    else if leaves && s.At(step.t).Asked? then
      s.Goto(step.t, if cfg.repaired then Blocked(s.At(step.t).tries + 1) else Holding(s.At(step.t).tries + 1))
    else s
  }

  function Do(cfg: Config, s: State, step: Step): State
    requires Enabled(s, step)
  {
    match step
    case Want(t) => s.Goto(t, Blocked(0))
    case Take(t) => s.Goto(t, Holding(s.At(t).tries)).(mutex := Held(t))
    case Ask(t) => s.Goto(t, Asking(s.At(t).tries)).(mutex := if cfg.repaired then Free else s.mutex)
    case Finish(t) => s.Goto(t, Idle).(mutex := Free)
    case Fail(t) => s.Goto(t, Idle).(mutex := if cfg.repaired then Free else Abandoned)
    case Protocol(step) => Resumed(cfg, s, step).(sp := S.Do(cfg.Sp(), s.sp, step))
  }

  ghost predicate Run(cfg: Config, s: State, steps: seq<Step>, end: State)
    decreases |steps|
  {
    if steps == [] then end == s
    else Enabled(s, steps[0]) && Run(cfg, Do(cfg, s, steps[0]), steps[1..], end)
  }

  // ---------------------------------------------------------------- what every run keeps

  predicate Requesting(pc: S.Pc) { pc.RequestFlag? || pc.RequestMode? || pc.RequestUnlock? }

  /** Where a thread may stand in the protocol while it stands at `p` in an allocation. */
  predicate Agrees(flag: bool, pc: S.Pc, p: Place) {
    match p
    case Idle => !Requesting(pc)
    case Blocked(_) => pc.Outside?
    case Holding(_) => pc.Outside?
    case Asking(_) => pc.Outside? || Requesting(pc)
    case Asked(_) => (pc.Outside? && flag) || S.InSavePoint(pc)
  }

  predicate OwnsMutex(cfg: Config, p: Place) { p.Holding? || (!cfg.repaired && (p.Asking? || p.Asked?)) }

  ghost predicate Fits(cfg: Config, s: State, t: Tid) {
    && Agrees(s.sp.flag, s.sp.At(t), s.At(t))
    && (!s.At(t).Idle? ==> t in s.sp.jthreads && t !in s.sp.newcomers)
    && (s.mutex == Held(t) <==> OwnsMutex(cfg, s.At(t)))
  }

  ghost predicate Protocols(s: S.State) {
    && S.Sound(s) && S.FlagHeld(s)
    && (s.gc.FlagCleared? || s.gc.ModeReset? ==> !s.flag)
  }

  ghost predicate Inv(cfg: Config, s: State) {
    && Protocols(s.sp)
    && (forall t :: Fits(cfg, s, t))
    && (cfg.repaired ==> !s.mutex.Abandoned?)
    && (cfg.guarded ==> S.Balanced(s.sp))
  }

  lemma ProtocolsStep(cfg: Config, s: S.State, step: S.Step)
    requires Protocols(s) && S.Bounded(s) && S.Enabled(s, step)
    ensures Protocols(S.Do(cfg.Sp(), s, step))
    ensures cfg.guarded && S.Balanced(s) ==> S.Balanced(S.Do(cfg.Sp(), s, step))
  {
    S.SoundStep(cfg.Sp(), s, step);
    S.FlagHeldStep(cfg.Sp(), s, step);
    assert step.SetFlag? ==> S.HoldsMutex(s.At(step.t));
    if cfg.guarded && S.Balanced(s) { S.BalancedStep(cfg.Sp(), s, step); }
  }

  /** A step of the protocol that is not a thread's own. */
  predicate Other(s: State, step: S.Step, t: Tid) {
    S.Enabled(s.sp, step) && Allowed(s, step) && (S.ByCollector(step) || step.t != t)
  }

  lemma OthersStayRegistered(cfg: Config, s: S.State, step: S.Step, t: Tid)
    requires Distinct(s.jthreads) && S.Enabled(s, step) && (S.ByCollector(step) || step.t != t)
    requires t in s.jthreads && t !in s.newcomers
    ensures t in S.Do(cfg.Sp(), s, step).jthreads && t !in S.Do(cfg.Sp(), s, step).newcomers
  {
    if step.Unregister? { S.SwapRemoveKeeps(s.jthreads, step.t); }
  }

  lemma OthersLeavePc(cfg: Config, s: S.State, step: S.Step, t: Tid)
    requires S.Enabled(s, step) && (S.ByCollector(step) || step.t != t)
    ensures var s' := S.Do(cfg.Sp(), s, step);
      s'.At(t) == s.At(t) && (s.flag && !s'.flag ==> step.GcClearFlag?)
  {
  }

  /** The steps of others leave a thread where it is, and the flag set while it needs it. */
  lemma OthersAgree(cfg: Config, s: State, step: S.Step, t: Tid)
    requires Protocols(s.sp) && Agrees(s.sp.flag, s.sp.At(t), s.At(t)) && Other(s, step, t)
    requires !s.At(t).Idle? ==> t in s.sp.jthreads && t !in s.sp.newcomers
    ensures var sp := S.Do(cfg.Sp(), s.sp, step); Agrees(sp.flag, sp.At(t), s.At(t))
  {
    OthersLeavePc(cfg, s.sp, step, t);
    if step.GcClearFlag? && s.At(t).Asked? { NeededWhileCritical(s.sp, t); }
  }

  lemma NeededWhileCritical(s: S.State, t: Tid)
    requires S.Sound(s) && S.Critical(s.gc) && t in s.jthreads && t !in s.newcomers
    ensures !s.At(t).Outside?
  {
    assert S.WorldStopped(s);
  }

  lemma OthersPlace(cfg: Config, s: State, step: S.Step, t: Tid)
    requires Other(s, step, t)
    ensures var s' := Do(cfg, s, Protocol(step));
      s'.sp == S.Do(cfg.Sp(), s.sp, step) && s'.At(t) == s.At(t) && s'.mutex == s.mutex
  {
  }

  lemma StillFits(cfg: Config, s: State, s': State, t: Tid)
    requires Fits(cfg, s, t) && s'.At(t) == s.At(t) && s'.mutex == s.mutex
    requires Agrees(s'.sp.flag, s'.sp.At(t), s.At(t))
    requires !s.At(t).Idle? ==> t in s'.sp.jthreads && t !in s'.sp.newcomers
    ensures Fits(cfg, s', t)
  {
  }

  lemma OthersKeep(cfg: Config, s: State, step: S.Step, t: Tid, s': State)
    requires Protocols(s.sp) && Fits(cfg, s, t) && Other(s, step, t) && s' == Do(cfg, s, Protocol(step))
    ensures Fits(cfg, s', t)
  {
    OthersAgree(cfg, s, step, t);
    if !s.At(t).Idle? { OthersStayRegistered(cfg, s.sp, step, t); }
    OthersPlace(cfg, s, step, t);
    StillFits(cfg, s, s', t);
  }

  lemma OwnAgrees(cfg: Config, s: State, step: S.Step)
    requires Protocols(s.sp) && S.Enabled(s.sp, step) && Allowed(s, step)
    requires !S.ByCollector(step) && Fits(cfg, s, step.t)
    ensures var s' := Do(cfg, s, Protocol(step)); Agrees(s'.sp.flag, s'.sp.At(step.t), s'.At(step.t))
  {
    assert step.EndRequest? ==> s.sp.flag;
  }

  lemma OwnKeeps(cfg: Config, s: State, step: S.Step)
    requires Protocols(s.sp) && S.Enabled(s.sp, step) && Allowed(s, step)
    requires !S.ByCollector(step) && Fits(cfg, s, step.t)
    ensures Fits(cfg, Do(cfg, s, Protocol(step)), step.t)
  {
    OwnAgrees(cfg, s, step);
  }

  lemma InvStep(cfg: Config, s: State, step: Step)
    requires Inv(cfg, s) && S.Bounded(s.sp) && Enabled(s, step)
    ensures Inv(cfg, Do(cfg, s, step))
  {
    var s' := Do(cfg, s, step);
    match step
    case Protocol(p) =>
      ProtocolsStep(cfg, s.sp, p);
      forall t ensures Fits(cfg, s', t) {
        if S.ByCollector(p) || p.t != t { OthersKeep(cfg, s, p, t, s'); } else { OwnKeeps(cfg, s, p); }
      }
    case _ =>
      forall t ensures Fits(cfg, s', t) {
        assert Fits(cfg, s, t) && Fits(cfg, s, step.t);
      }
  }

  /** Unmatched decrements and the capacity never become fewer. */
  lemma {:induction false} BoundedBefore(cfg: Config, s: State, steps: seq<Step>, end: State)
    requires Run(cfg, s, steps, end) && S.Bounded(end.sp)
    ensures S.Bounded(s.sp)
    ensures s.sp.skipped <= end.sp.skipped && s.sp.capacity <= end.sp.capacity
    decreases |steps|
  {
    if steps != [] {
      BoundedBefore(cfg, Do(cfg, s, steps[0]), steps[1..], end);
    }
  }

  lemma {:induction false} InvRun(cfg: Config, s: State, steps: seq<Step>, end: State)
    requires Inv(cfg, s) && Run(cfg, s, steps, end) && S.Bounded(end.sp)
    ensures Inv(cfg, end)
    decreases |steps|
  {
    if steps != [] {
      BoundedBefore(cfg, s, steps, end);
      InvStep(cfg, s, steps[0]);
      InvRun(cfg, Do(cfg, s, steps[0]), steps[1..], end);
    }
  }

  /** With the guard no decrement is unmatched. */
  lemma {:induction false} GuardedRun(cfg: Config, s: State, steps: seq<Step>, end: State)
    requires cfg.guarded && S.Balanced(s.sp) && Run(cfg, s, steps, end)
    ensures S.Balanced(end.sp)
    decreases |steps|
  {
    if steps != [] {
      if steps[0].Protocol? { S.BalancedStep(cfg.Sp(), s.sp, steps[0].step); }
      GuardedRun(cfg, Do(cfg, s, steps[0]), steps[1..], end);
    }
  }

  lemma InvAlways(cfg: Config, steps: seq<Step>, s: State)
    requires Run(cfg, Init(), steps, s) && (cfg.guarded || S.Bounded(s.sp))
    ensures Inv(cfg, s) && S.Bounded(s.sp)
  {
    if cfg.guarded { GuardedRun(cfg, Init(), steps, s); }
    InvRun(cfg, Init(), steps, s);
  }

  // ---------------------------------------------------------------- threads that wait for each other

  /** A thread that cannot return from its request or its `savePoint` before a collection has begun. */
  predicate Committed(s: State, t: Tid) {
    || s.At(t).Asking?
    || (s.At(t).Asked? && s.sp.flag && (s.sp.At(t).Outside? || s.sp.At(t).AtIncrement? || s.sp.At(t).Spinning?))
  }

  /** Thread `b` waits for the mutex, and who holds it waits for a collection or is gone. */
  predicate StuckAt(s: State, b: Tid) {
    s.At(b).Blocked? && (s.mutex.Abandoned? || (s.mutex.Held? && Committed(s, s.mutex.t)))
  }

  ghost predicate Stuck(s: State) { exists b :: StuckAt(s, b) }

  /** A blocked thread is not parked, so the collector is not at work. */
  lemma BlockedKeepsCollectorOut(cfg: Config, s: State, b: Tid)
    requires Inv(cfg, s) && s.At(b).Blocked?
    ensures !S.Critical(s.sp.gc)
  {
    assert Fits(cfg, s, b);
  }

  lemma StuckStep(cfg: Config, s: State, step: Step, b: Tid)
    requires Inv(cfg, s) && Enabled(s, step) && StuckAt(s, b)
    ensures var s' := Do(cfg, s, step);
      StuckAt(s', b) && s'.At(b) == s.At(b) && s'.mutex == s.mutex
  {
    assert Fits(cfg, s, b);
    BlockedKeepsCollectorOut(cfg, s, b);
    if s.mutex.Held? {
      HolderStays(cfg, s, step, s.mutex.t);
    } else if !step.Protocol? {
      assert Fits(cfg, s, step.t);
    }
  }

  lemma HolderStays(cfg: Config, s: State, step: Step, h: Tid)
    requires Inv(cfg, s) && Enabled(s, step) && s.mutex == Held(h) && Committed(s, h) && !S.Critical(s.sp.gc)
    ensures Committed(Do(cfg, s, step), h) && Do(cfg, s, step).mutex == Held(h)
  {
    assert Fits(cfg, s, h);
    if !step.Protocol? {
      assert Fits(cfg, s, step.t);
    } else if !S.ByCollector(step.step) && step.step.t == h {
      assert step.step.EndRequest? ==> s.sp.flag;
    }
  }

  lemma {:induction false} StuckRun(cfg: Config, s: State, b: Tid, after: seq<Step>, end: State)
    requires Inv(cfg, s) && StuckAt(s, b) && Run(cfg, s, after, end) && S.Bounded(end.sp)
    ensures StuckAt(end, b) && end.At(b) == s.At(b) && end.mutex == s.mutex && !S.Critical(end.sp.gc)
    decreases |after|
  {
    if after == [] {
      BlockedKeepsCollectorOut(cfg, s, b);
    } else {
      BoundedBefore(cfg, s, after, end);
      InvStep(cfg, s, after[0]);
      StuckStep(cfg, s, after[0], b);
      StuckRun(cfg, Do(cfg, s, after[0]), b, after[1..], end);
    }
  }

  /**
    Two threads that wait for each other wait for ever: in every continuation the one stays
    at the mutex, the mutex is not released, and the collector does not begin.
   */
  lemma StuckForever(cfg: Config, before: seq<Step>, s: State, b: Tid, after: seq<Step>, end: State)
    requires Run(cfg, Init(), before, s) && StuckAt(s, b) && Run(cfg, s, after, end)
    requires cfg.guarded || S.Bounded(end.sp)
    ensures StuckAt(end, b) && end.At(b) == s.At(b) && end.mutex == s.mutex && !S.Critical(end.sp.gc)
  {
    if cfg.guarded { GuardedRun(cfg, Init(), before, s); GuardedRun(cfg, s, after, end); }
    BoundedBefore(cfg, s, after, end);
    InvAlways(cfg, before, s);
    StuckRun(cfg, s, b, after, end);
  }

  /** With the mutex unlocked in between, no two threads ever do. */
  lemma RepairedIsNotStuck(cfg: Config, s: State)
    requires Inv(cfg, s) && cfg.repaired
    ensures !Stuck(s)
  {
    forall b ensures !StuckAt(s, b) {
      if s.mutex.Held? { assert Fits(cfg, s, s.mutex.t); }
    }
  }

  // ---------------------------------------------------------------- when a collection can take place

  /**
    How far a thread is from being parked.  While the flag is not set, it is how far a thread
    in `savePoint` is from leaving it.
   */
  function Rank(s: State, t: Tid): nat {
    var pc := s.sp.At(t);
    if !s.sp.flag then
      if pc.AtIncrement? then 5 else if pc.Spinning? then 4 else if pc.AtLock? then 3
      else if pc.AtDecrement? then 2 else if pc.AtUnlock? then 1 else 0
    else
      match pc
      case AtLock(_) => 8
      case AtDecrement(_) => 7
      case AtUnlock => 6
      case AtIncrement => 1
      case Spinning(_) => 0
      case RequestFlag(_) => 5
      case RequestMode(_) => 4
      case RequestUnlock => 3
      case Outside =>
        match s.At(t)
        case Idle => 2
        case Asked(_) => 2
        case Asking(_) => 6
        case Holding(_) => 3
        case Blocked(_) => 4
  }

  function Total(s: State): nat { Sum((t: Tid) => Rank(s, t), s.sp.jthreads) }

  /** Nobody is stuck, and nobody has slipped into `savePoint` uncounted. */
  ghost predicate Ready(cfg: Config, s: State) { Inv(cfg, s) && !Stuck(s) && S.Balanced(s.sp) }

  ghost predicate Nearer(s: State, s': State) {
    && s'.sp.jthreads == s.sp.jthreads
    && (S.Critical(s'.sp.gc)
        || (!s.sp.flag && s'.sp.flag)
        || (s'.sp.flag == s.sp.flag && Total(s') < Total(s))
        || (s'.sp.flag == s.sp.flag && Total(s') == Total(s) && P.HolderRank(s'.sp) < P.HolderRank(s.sp)))
  }

  /** A step towards a collection, after which nobody is stuck and at which nobody slips. */
  ghost predicate Helps(cfg: Config, s: State, step: Step) {
    && Enabled(s, step)
    && (step.Protocol? ==> !S.Slips(cfg.Sp(), s.sp, step.step))
    && !Stuck(Do(cfg, s, step))
    && Nearer(s, Do(cfg, s, step))
  }

  /** What every thread's own step leaves as it is. */
  ghost predicate OnlyMoves(s: State, s': State, t: Tid) {
    && s'.sp.jthreads == s.sp.jthreads && s'.sp.flag == s.sp.flag
    && (forall u :: u != t ==> s'.sp.At(u) == s.sp.At(u) && s'.At(u) == s.At(u))
  }

  lemma MovesNearer(s: State, s': State, t: Tid)
    requires Distinct(s.sp.jthreads) && OnlyMoves(s, s', t) && t in s.sp.jthreads && Rank(s', t) < Rank(s, t)
    ensures Nearer(s, s')
  {
    SumDrops((u: Tid) => Rank(s, u), (u: Tid) => Rank(s', u), s.sp.jthreads, t);
  }

  lemma CollectorMoves(cfg: Config, s: S.State)
    requires Protocols(s) && !S.Critical(s.gc) && s.mutex.Collector?
    ensures S.Enabled(s, P.CollectorStep(s.gc))
    ensures var s' := S.Do(cfg.Sp(), s, P.CollectorStep(s.gc));
      && s'.jthreads == s.jthreads && s'.flag == s.flag && s'.pcs == s.pcs
      && (S.Critical(s'.gc) || P.HolderRank(s') < P.HolderRank(s))
  {
  }

  lemma CollectorGoesOn(cfg: Config, s: State) returns (step: Step)
    requires Ready(cfg, s) && !S.Critical(s.sp.gc) && s.sp.mutex.Collector?
    ensures Helps(cfg, s, step)
  {
    CollectorMoves(cfg, s.sp);
    step := Protocol(P.CollectorStep(s.sp.gc));
    var s' := Do(cfg, s, step);
    SumSame((u: Tid) => Rank(s, u), (u: Tid) => Rank(s', u), s.sp.jthreads);
    forall b ensures !StuckAt(s', b) { assert !StuckAt(s, b); }
  }

  lemma Registered(cfg: Config, s: State, t: Tid)
    requires Inv(cfg, s) && (!s.sp.At(t).Outside? || !s.At(t).Idle?)
    ensures t in s.sp.jthreads
  {
    assert Fits(cfg, s, t);
    assert S.InSavePoint(s.sp.At(t)) ==> t in s.sp.jthreads;
  }

  /** The next step of a thread that is inside `savePoint` or a request. */
  function InsideStep(s: State, t: Tid): Step { Protocol(P.ThreadStep(s.sp.At(t), t)) }

  lemma InsideMoves(cfg: Config, s: State, t: Tid)
    requires S.Enabled(s.sp, P.ThreadStep(s.sp.At(t), t)) && !s.sp.At(t).Outside?
    requires !s.sp.At(t).RequestFlag? || s.sp.flag
    ensures Enabled(s, InsideStep(s, t)) && OnlyMoves(s, Do(cfg, s, InsideStep(s, t)), t)
  {
  }

  lemma InsideParks(cfg: Config, s: State, t: Tid)
    requires S.Enabled(s.sp, P.ThreadStep(s.sp.At(t), t)) && !s.sp.At(t).Outside? && !s.sp.At(t).Spinning?
    requires Fits(cfg, s, t) && s.sp.flag && Enabled(s, InsideStep(s, t))
    ensures Rank(Do(cfg, s, InsideStep(s, t)), t) < Rank(s, t)
  {
  }

  lemma InsideLeaves(cfg: Config, s: State, t: Tid)
    requires S.Enabled(s.sp, P.ThreadStep(s.sp.At(t), t)) && S.InSavePoint(s.sp.At(t))
    requires !s.sp.flag && Enabled(s, InsideStep(s, t))
    ensures Rank(Do(cfg, s, InsideStep(s, t)), t) < Rank(s, t)
  {
  }

  /** As written it keeps the mutex where it is, and commits nobody. */
  lemma InsideCommits(cfg: Config, s: State, t: Tid)
    requires !cfg.repaired && Fits(cfg, s, t) && !s.sp.At(t).Outside? && Enabled(s, InsideStep(s, t))
    ensures var s' := Do(cfg, s, InsideStep(s, t));
      s'.mutex == s.mutex && (s.mutex.Held? ==> Committed(s', s.mutex.t) ==> Committed(s, s.mutex.t))
  {
  }

  lemma InsideBlocks(cfg: Config, s: State, t: Tid, b: Tid)
    requires !cfg.repaired && Enabled(s, InsideStep(s, t)) && !s.sp.At(t).Outside?
    ensures Do(cfg, s, InsideStep(s, t)).At(b).Blocked? ==> s.At(b).Blocked?
  {
  }

  /** It leaves nobody stuck who was not. */
  lemma InsideNotStuck(cfg: Config, s: State, t: Tid)
    requires Ready(cfg, s) && !s.sp.At(t).Outside? && S.Enabled(s.sp, P.ThreadStep(s.sp.At(t), t))
    ensures Enabled(s, InsideStep(s, t)) && !Stuck(Do(cfg, s, InsideStep(s, t)))
  {
    if cfg.repaired {
      InvStep(cfg, s, InsideStep(s, t));
      RepairedIsNotStuck(cfg, Do(cfg, s, InsideStep(s, t)));
    } else {
      InsideCommits(cfg, s, t);
      forall b ensures !StuckAt(Do(cfg, s, InsideStep(s, t)), b) {
        assert !StuckAt(s, b);
        InsideBlocks(cfg, s, t, b);
      }
    }
  }

  lemma InsideNearer(cfg: Config, s: State, t: Tid)
    requires Ready(cfg, s) && !s.sp.At(t).Outside? && S.Enabled(s.sp, P.ThreadStep(s.sp.At(t), t))
    requires s.sp.flag ==> !s.sp.At(t).Spinning?
    ensures Helps(cfg, s, InsideStep(s, t))
  {
    assert Fits(cfg, s, t);
    Registered(cfg, s, t);
    InsideNotStuck(cfg, s, t);
    if s.sp.flag { InsideParks(cfg, s, t); } else if S.InSavePoint(s.sp.At(t)) { InsideLeaves(cfg, s, t); }
    if !s.sp.At(t).RequestFlag? || s.sp.flag {
      InsideMoves(cfg, s, t);
      MovesNearer(s, Do(cfg, s, InsideStep(s, t)), t);
    }
  }

  /** Without the flag, who is in `savePoint` gets out of it, and then the collector asks. */
  lemma WithoutFlag(cfg: Config, s: State) returns (step: Step)
    requires Ready(cfg, s) && s.sp.mutex.Free? && !s.sp.flag
    ensures Helps(cfg, s, step)
  {
    if t :| S.InSavePoint(s.sp.At(t)) {
      assert !S.HoldsMutex(s.sp.At(t));
      InsideNearer(cfg, s, t);
      step := InsideStep(s, t);
    } else {
      step := Protocol(S.GcStart);
      StartNotStuck(cfg, s);
    }
  }

  /** When the collector asks, nobody is committed to waiting for it who is not in `savePoint` or in a request. */
  lemma StartNotStuck(cfg: Config, s: State)
    requires Ready(cfg, s) && !s.sp.flag && (forall t :: !S.InSavePoint(s.sp.At(t))) && s.sp.gc.Idle?
    ensures !Stuck(Do(cfg, s, Protocol(S.GcStart)))
  {
    var s' := Do(cfg, s, Protocol(S.GcStart));
    forall b ensures !StuckAt(s', b) {
      assert !StuckAt(s, b);
      if s.mutex.Held? { assert Fits(cfg, s, s.mutex.t); }
    }
  }

  /** With the flag set and the mutex of the protocol free, a thread that is not parked gets nearer to it. */
  lemma WithFlag(cfg: Config, s: State, t: Tid) returns (step: Step)
    requires Ready(cfg, s) && s.sp.mutex.Free? && s.sp.flag
    requires t in s.sp.jthreads && !s.sp.At(t).Spinning?
    ensures Helps(cfg, s, step)
  {
    assert !S.HoldsMutex(s.sp.At(t));
    if !s.sp.At(t).Outside? {
      InsideNearer(cfg, s, t);
      step := InsideStep(s, t);
    } else if s.At(t).Blocked? && s.mutex.Held? {
      step := HolderParks(cfg, s, t);
    } else {
      assert s.At(t).Blocked? ==> !StuckAt(s, t);
      assert Fits(cfg, s, t);
      OutsideNearer(cfg, s, t);
      step := OutsideStep(s, t);
    }
  }

  /** When a thread waits for the allocation mutex, its holder gets nearer to releasing it. */
  lemma HolderParks(cfg: Config, s: State, b: Tid) returns (step: Step)
    requires Ready(cfg, s) && s.sp.mutex.Free? && s.sp.flag && s.At(b).Blocked? && s.mutex.Held?
    ensures Helps(cfg, s, step)
  {
    var h := s.mutex.t;
    assert !StuckAt(s, b) && Fits(cfg, s, h) && !S.HoldsMutex(s.sp.At(h));
    Registered(cfg, s, h);
    if s.At(h).Holding? {
      OutsideNearer(cfg, s, h);
      step := OutsideStep(s, h);
    } else {
      InsideNearer(cfg, s, h);
      step := InsideStep(s, h);
    }
  }

  /** What a thread outside the protocol does next on its way to its next `savePoint`. */
  function OutsideStep(s: State, t: Tid): Step {
    match s.At(t)
    case Idle => Protocol(S.EnterSavePoint(t))
    case Asked(_) => Protocol(S.EnterSavePoint(t))
    case Asking(tries) => Protocol(S.RequestGC(t, Wanted(tries)))
    case Holding(_) => Finish(t)
    case Blocked(_) => Take(t)
  }

  lemma OutsideNearer(cfg: Config, s: State, t: Tid)
    requires Ready(cfg, s) && s.sp.mutex.Free? && s.sp.flag
    requires t in s.sp.jthreads && s.sp.At(t).Outside? && (s.At(t).Blocked? ==> s.mutex.Free?)
    ensures Helps(cfg, s, OutsideStep(s, t))
  {
    OutsideMoves(cfg, s, t);
    MovesNearer(s, Do(cfg, s, OutsideStep(s, t)), t);
    OutsideNotStuck(cfg, s, t);
  }

  lemma OutsideMoves(cfg: Config, s: State, t: Tid)
    requires s.sp.mutex.Free? && s.sp.flag && t in s.sp.jthreads && s.sp.At(t).Outside?
    requires s.At(t).Blocked? ==> s.mutex.Free?
    ensures Enabled(s, OutsideStep(s, t))
    ensures var s' := Do(cfg, s, OutsideStep(s, t)); OnlyMoves(s, s', t) && Rank(s', t) < Rank(s, t)
  {
  }

  lemma OutsideNotStuck(cfg: Config, s: State, t: Tid)
    requires Ready(cfg, s) && s.sp.flag && s.sp.At(t).Outside? && Enabled(s, OutsideStep(s, t))
    ensures !Stuck(Do(cfg, s, OutsideStep(s, t)))
  {
    var s' := Do(cfg, s, OutsideStep(s, t));
    assert Fits(cfg, s, t);
    if s'.mutex.Held? {
      var h := s'.mutex.t;
      assert Fits(cfg, s, h);
      if h == t { assert Committed(s', h) ==> Committed(s, h) && s'.mutex == s.mutex; }
      forall b ensures !StuckAt(s', b) { assert !StuckAt(s, b); }
    } else {
      forall b ensures !StuckAt(s', b) { assert !StuckAt(s, b); }
    }
  }

  /** One step nearer, from any state in which nobody is stuck. */
  lemma GoOn(cfg: Config, s: State) returns (step: Step)
    requires Ready(cfg, s) && !S.Critical(s.sp.gc) && !P.Gathered(s.sp)
    ensures Helps(cfg, s, step)
  {
    match s.sp.mutex
    case Collector => step := CollectorGoesOn(cfg, s);
    case Mutator(t) =>
      assert S.HoldsMutex(s.sp.At(t));
      InsideNearer(cfg, s, t);
      step := InsideStep(s, t);
    case Free =>
      if !s.sp.flag {
        step := WithoutFlag(cfg, s);
      } else {
        var t :| t in s.sp.jthreads && s.sp.At(t) != S.Spinning(true);
        assert s.sp.At(t).Spinning? ==> S.IsCounted(s.sp.At(t));
        step := WithFlag(cfg, s, t);
      }
  }

  lemma HelpsKeeps(cfg: Config, s: State, step: Step)
    requires Ready(cfg, s) && Helps(cfg, s, step)
    ensures Ready(cfg, Do(cfg, s, step))
  {
    InvStep(cfg, s, step);
    if step.Protocol? { S.BalancedStep(cfg.Sp(), s.sp, step.step); }
  }

  /** What the collector does by itself. */
  lemma {:induction false} CollectorRuns(cfg: Config, s: State, steps: seq<S.Step>, end: S.State)
    returns (steps': seq<Step>, end': State)
    requires S.Run(cfg.Sp(), s.sp, steps, end) && (forall step :: step in steps ==> S.ByCollector(step))
    ensures Run(cfg, s, steps', end') && end'.sp == end
    decreases |steps|
  {
    if steps == [] {
      steps', end' := [], s;
    } else {
      assert steps[0] in steps;
      steps', end' := CollectorRuns(cfg, Do(cfg, s, Protocol(steps[0])), steps[1..], end);
      steps' := [Protocol(steps[0])] + steps';
    }
  }

  lemma {:induction false} Collects(cfg: Config, s: State) returns (steps: seq<Step>, end: State)
    requires Ready(cfg, s) && |s.sp.jthreads| < S.COUNTER_MODULUS
    ensures Run(cfg, s, steps, end) && S.Critical(end.sp.gc) && end.sp.skipped == 0
    decreases !s.sp.flag, Total(s), P.HolderRank(s.sp)
  {
    if S.Critical(s.sp.gc) {
      steps, end := [], s;
    } else if P.Gathered(s.sp) {
      var collectorSteps, spEnd := P.GatheredCollects(cfg.Sp(), s.sp);
      steps, end := CollectorRuns(cfg, s, collectorSteps, spEnd);
    } else {
      var step := GoOn(cfg, s);
      HelpsKeeps(cfg, s, step);
      var s' := Do(cfg, s, step);
      if S.Critical(s'.sp.gc) {
        steps, end := [], s';
      } else {
        steps, end := Collects(cfg, s');
      }
      steps := [step] + steps;
    }
  }

  /** Nor does the mutex help once somebody has slipped into `savePoint` uncounted. */
  lemma {:induction false} UnbalancedRun(cfg: Config, s: State, steps: seq<Step>, end: State)
    requires !S.Balanced(s.sp) && Run(cfg, s, steps, end)
    ensures !S.Balanced(end.sp)
    decreases |steps|
  {
    if steps != [] {
      if steps[0].Protocol? { S.UnbalancedStep(cfg.Sp(), s.sp, steps[0].step); }
      UnbalancedRun(cfg, Do(cfg, s, steps[0]), steps[1..], end);
    }
  }

  /** A collection can still take place, before unmatched decrements come near the counter's range. */
  ghost predicate CanCollect(cfg: Config, s: State) {
    exists after, end :: Run(cfg, s, after, end) && S.Bounded(end.sp) && S.Critical(end.sp.gc)
  }

  /**
    In every run, a collection can still take place if and only if nobody has slipped into
    `savePoint` uncounted, and no thread waits for the allocation mutex while who holds it is
    committed to waiting for a collection, or has returned with it.  With the guard, and with
    the mutex unlocked in between, it always can.
   */
  lemma CollectionPossibleIff(cfg: Config, before: seq<Step>, s: State)
    requires Run(cfg, Init(), before, s) && (cfg.guarded || S.Bounded(s.sp))
    requires |s.sp.jthreads| < S.COUNTER_MODULUS
    ensures CanCollect(cfg, s) <==> S.Balanced(s.sp) && !Stuck(s)
    ensures cfg.guarded ==> S.Balanced(s.sp)
    ensures cfg.repaired ==> !Stuck(s)
  {
    InvAlways(cfg, before, s);
    if cfg.repaired { RepairedIsNotStuck(cfg, s); }
    if S.Balanced(s.sp) && !Stuck(s) {
      var steps, end := Collects(cfg, s);
    } else {
      forall after, end | Run(cfg, s, after, end) && S.Bounded(end.sp) ensures !S.Critical(end.sp.gc) {
        CannotCollect(cfg, s, after, end);
      }
    }
  }

  lemma CannotCollect(cfg: Config, s: State, after: seq<Step>, end: State)
    requires Inv(cfg, s) && (!S.Balanced(s.sp) || Stuck(s)) && Run(cfg, s, after, end) && S.Bounded(end.sp)
    ensures !S.Critical(end.sp.gc)
  {
    if !S.Balanced(s.sp) {
      UnbalancedRun(cfg, s, after, end);
      InvRun(cfg, s, after, end);
    } else {
      var b :| StuckAt(s, b);
      StuckRun(cfg, s, b, after, end);
    }
  }

  // ---------------------------------------------------------------- where the code as written fails

  lemma {:induction false} RunSnoc(cfg: Config, s: State, steps: seq<Step>, mid: State, step: Step)
    requires Run(cfg, s, steps, mid) && Enabled(mid, step)
    ensures Run(cfg, s, steps + [step], Do(cfg, mid, step))
    decreases |steps|
  {
    if steps != [] {
      RunSnoc(cfg, Do(cfg, s, steps[0]), steps[1..], mid, step);
      assert (steps + [step])[1..] == steps[1..] + [step];
    }
  }

  /** Extends a run by one step. */
  lemma Extend(steps: seq<Step>, s: State, step: Step) returns (steps': seq<Step>, s': State)
    requires Run(GUARDED, Init(), steps, s) && Enabled(s, step)
    ensures steps' == steps + [step] && s' == Do(GUARDED, s, step) && Run(GUARDED, Init(), steps', s')
  {
    RunSnoc(GUARDED, Init(), steps, s, step);
    steps', s' := steps + [step], Do(GUARDED, s, step);
  }

  const RUNNING := S.State(false, 0, S.Normal, [1, 2], 4, S.Free, map[], S.Idle, {}, [], 0)

  lemma OneThreadRuns() returns (steps: seq<Step>, s: State)
    ensures Run(GUARDED, Init(), steps, s)
    ensures s == State(RUNNING.(jthreads := [1]), map[], Free)
  {
    steps, s := [], Init();
    steps, s := Extend(steps, s, Protocol(S.Register(1, true)));
    steps, s := Extend(steps, s, Protocol(S.EnterSavePoint(1)));
  }

  /** Two threads are registered and past their first `savePoint`. */
  lemma TwoThreadsRun() returns (steps: seq<Step>, s: State)
    ensures Run(GUARDED, Init(), steps, s)
    ensures s == State(RUNNING, map[], Free)
  {
    steps, s := OneThreadRuns();
    steps, s := Extend(steps, s, Protocol(S.Register(2, true)));
    steps, s := Extend(steps, s, Protocol(S.EnterSavePoint(2)));
  }

  /** The first finds no room, and is about to ask for a collection with the mutex in hand. */
  lemma FirstThreadAsks() returns (steps: seq<Step>, s: State)
    ensures Run(GUARDED, Init(), steps, s)
    ensures s == State(RUNNING, map[1 := Asking(0)], Held(1))
  {
    steps, s := TwoThreadsRun();
    steps, s := Extend(steps, s, Want(1));
    steps, s := Extend(steps, s, Take(1));
    steps, s := Extend(steps, s, Ask(1));
  }

  lemma FirstThreadRequests() returns (steps: seq<Step>, s: State)
    ensures Run(GUARDED, Init(), steps, s)
    ensures s == State(RUNNING.(mutex := S.Mutator(1), pcs := map[1 := S.RequestFlag(S.MinorOnly)]),
                       map[1 := Asking(0)], Held(1))
  {
    steps, s := FirstThreadAsks();
    steps, s := Extend(steps, s, Protocol(S.RequestGC(1, S.MinorOnly)));
  }

  lemma FirstThreadSetsFlag() returns (steps: seq<Step>, s: State)
    ensures Run(GUARDED, Init(), steps, s)
    ensures s == State(RUNNING.(flag := true, mutex := S.Mutator(1), pcs := map[1 := S.RequestMode(S.MinorOnly)]),
                       map[1 := Asking(0)], Held(1))
  {
    steps, s := FirstThreadRequests();
    steps, s := Extend(steps, s, Protocol(S.SetFlag(1)));
  }

  lemma FirstThreadRaisesMode() returns (steps: seq<Step>, s: State)
    ensures Run(GUARDED, Init(), steps, s)
    ensures s ==
      State(RUNNING.(flag := true, mode := S.MinorOnly, mutex := S.Mutator(1), pcs := map[1 := S.RequestUnlock]),
            map[1 := Asking(0)], Held(1))
  {
    steps, s := FirstThreadSetsFlag();
    steps, s := Extend(steps, s, Protocol(S.RaiseMode(1)));
  }

  lemma FirstThreadHasAsked() returns (steps: seq<Step>, s: State)
    ensures Run(GUARDED, Init(), steps, s)
    ensures s ==
      State(RUNNING.(flag := true, mode := S.MinorOnly, pcs := map[1 := S.Outside]), map[1 := Asked(0)], Held(1))
  {
    steps, s := FirstThreadRaisesMode();
    steps, s := Extend(steps, s, Protocol(S.EndRequest(1)));
  }

  lemma FirstThreadParks() returns (steps: seq<Step>, s: State)
    ensures Run(GUARDED, Init(), steps, s)
    ensures s == State(RUNNING.(flag := true, waiting := 1, mode := S.MinorOnly, pcs := map[1 := S.Spinning(true)]),
                       map[1 := Asked(0)], Held(1))
  {
    steps, s := FirstThreadHasAsked();
    steps, s := Extend(steps, s, Protocol(S.EnterSavePoint(1)));
    steps, s := Extend(steps, s, Protocol(S.Increment(1)));
  }

  lemma StuckCannotCollect(steps: seq<Step>, s: State, b: Tid)
    requires Run(GUARDED, Init(), steps, s) && StuckAt(s, b) && |s.sp.jthreads| < S.COUNTER_MODULUS
    ensures !CanCollect(GUARDED, s)
  {
    CollectionPossibleIff(GUARDED, steps, s);
  }

  /**
    A run from the start that ends in a deadlock: the first thread is parked with the mutex,
    and the second waits for it.
   */
  lemma ParkedHolderDeadlocks() returns (steps: seq<Step>, s: State)
    ensures Run(GUARDED, Init(), steps, s)
    ensures s.mutex == Held(1) && s.sp.At(1) == S.Spinning(true) && StuckAt(s, 2) && !CanCollect(GUARDED, s)
  {
    steps, s := FirstThreadParks();
    steps, s := Extend(steps, s, Want(2));
    StuckCannotCollect(steps, s, 2);
  }
}
