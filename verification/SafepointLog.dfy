/**
  With which mode each collection of the module Safepoint runs: what has been asked for since
  the one before, and nothing else.

  The account is kept from the steps of a run alone.
 */
module SafepointLog {
  import opened Safepoint

  /** What each thread asked for last, the modes raised since the last cycle, and those of every cycle. */
  datatype Account = Account(asked: map<Tid, Mode>, raised: set<Mode>, cycles: seq<set<Mode>>)

  function Enter(a: Account, step: Step): Account {
    match step
    case RequestGC(t, m) => a.(asked := a.asked[t := m])
    case RaiseMode(t) => a.(raised := a.raised + if t in a.asked then {a.asked[t]} else {})
    case GcUnlock => a.(raised := {}, cycles := a.cycles + [a.raised])
    case _ => a
  }

  function Entries(a: Account, steps: seq<Step>): Account
    decreases |steps|
  {
    if steps == [] then a else Entries(Enter(a, steps[0]), steps[1..])
  }

  const NOTHING := Account(map[], {}, [])

  /** The strongest of the modes. */
  function Strongest(modes: set<Mode>): Mode {
    if ForceMajor in modes then ForceMajor else if MinorOnly in modes then MinorOnly else Normal
  }

  /** What a thread inside `requestGC` is about to raise is what it asked for. */
  predicate Asks(s: State, a: Account, t: Tid) {
    match s.At(t)
    case RequestFlag(m) => t in a.asked && a.asked[t] == m
    case RequestMode(m) => t in a.asked && a.asked[t] == m
    case _ => true
  }

  /** The mode that the cycle under way, or else the next one, runs with. */
  predicate ModeFits(s: State, a: Account) {
    match s.gc
    case Collecting(m) => s.mode == m == Strongest(a.raised)
    case FlagCleared(m) => s.mode == m == Strongest(a.raised)
    case ModeReset(m) => s.mode == Normal && m == Strongest(a.raised)
    case _ => s.mode == Strongest(a.raised)
  }

  predicate LogFits(s: State, a: Account) {
    |s.log| == |a.cycles| && forall k :: 0 <= k < |s.log| ==> s.log[k] == Strongest(a.cycles[k])
  }

  ghost predicate Fits(s: State, a: Account) {
    (forall t :: Asks(s, a, t)) && ModeFits(s, a) && LogFits(s, a)
  }

  lemma AsksStep(cfg: Config, s: State, a: Account, step: Step, t: Tid)
    requires Enabled(s, step) && Asks(s, a, t)
    ensures Asks(Do(cfg, s, step), Enter(a, step), t)
  {
  }

  lemma ModeStep(cfg: Config, s: State, a: Account, step: Step)
    requires Base(s) && Enabled(s, step) && ModeFits(s, a) && (step.RaiseMode? ==> Asks(s, a, step.t))
    ensures ModeFits(Do(cfg, s, step), Enter(a, step))
    ensures step.GcUnlock? ==> s.gc.mode == Strongest(a.raised)
  {
    if step.RaiseMode? { assert HoldsMutex(s.At(step.t)); }
  }

  lemma LogStep(cfg: Config, s: State, a: Account, step: Step)
    requires Enabled(s, step) && LogFits(s, a) && (step.GcUnlock? ==> s.gc.mode == Strongest(a.raised))
    ensures LogFits(Do(cfg, s, step), Enter(a, step))
  {
  }

  lemma {:induction false} FitsRun(cfg: Config, s: State, a: Account, steps: seq<Step>, end: State)
    requires Base(s) && Fits(s, a) && Run(cfg, s, steps, end)
    ensures Fits(end, Entries(a, steps))
    decreases |steps|
  {
    if steps != [] {
      var step := steps[0];
      BaseStep(cfg, s, step);
      assert step.RaiseMode? ==> Asks(s, a, step.t);
      ModeStep(cfg, s, a, step);
      LogStep(cfg, s, a, step);
      forall t ensures Asks(Do(cfg, s, step), Enter(a, step), t) { AsksStep(cfg, s, a, step, t); }
      FitsRun(cfg, Do(cfg, s, step), Enter(a, step), steps[1..], end);
    }
  }

  /**
    In every run of every variant the k-th cycle runs with the strongest of the modes that
    were raised since the cycle before it, and normally if there were none.
   */
  lemma LogIsExact(cfg: Config, steps: seq<Step>, s: State)
    requires Run(cfg, Init(), steps, s)
    ensures var cycles := Entries(NOTHING, steps).cycles;
      |s.log| == |cycles| && forall k :: 0 <= k < |s.log| ==> s.log[k] == Strongest(cycles[k])
  {
    FitsRun(cfg, Init(), NOTHING, steps, s);
  }
}
