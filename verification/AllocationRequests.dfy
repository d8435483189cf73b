/**
  Which collections an allocation asks for before it gives up (heap.c:52-66), under the
  interleavings of the module AllocationSafepoint.

  The requests are read off the steps of a run alone.
 */
module AllocationRequests {
  import S = Safepoint
  import opened AllocationSafepoint

  /** What one more step adds to the requests of thread `t`. */
  function OneMore(requests: seq<S.Mode>, step: Step, t: Tid): seq<S.Mode> {
    if step == Want(t) then []
    else if step.Protocol? && step.step.RequestGC? && step.step.t == t then requests + [step.step.mode]
    else requests
  }

  /** What thread `t` has asked for after the steps since it last began an allocation, when it had asked for `asked`. */
  function Requests(asked: seq<S.Mode>, steps: seq<Step>, t: Tid): seq<S.Mode>
    decreases |steps|
  {
    if steps == [] then asked else Requests(OneMore(asked, steps[0], t), steps[1..], t)
  }

  /** First a minor collection, then a full one. */
  const PLAN: seq<S.Mode> := [S.MinorOnly, S.ForceMajor]

  /** How many requests a thread has made at a place. */
  predicate Follows(s: State, t: Tid, requests: seq<S.Mode>) {
    (Requesting(s.sp.At(t)) ==> s.At(t).Asking?) &&
    match s.At(t)
    case Idle => true
    case Blocked(k) => k <= 2 && requests == PLAN[..k]
    case Holding(k) => k <= 2 && requests == PLAN[..k]
    case Asking(k) => k < 2 && requests == PLAN[..if Requesting(s.sp.At(t)) then k + 1 else k]
    case Asked(k) => k < 2 && requests == PLAN[..k + 1]
  }

  lemma PlanGoesOn(k: nat)
    requires k < 2
    ensures PLAN[..k] + [PLAN[k]] == PLAN[..k + 1] && Wanted(k) == PLAN[k]
  {
  }

  lemma FollowsStep(cfg: Config, s: State, step: Step, t: Tid, requests: seq<S.Mode>)
    requires Follows(s, t, requests) && Enabled(s, step)
    ensures Follows(Do(cfg, s, step), t, OneMore(requests, step, t))
  {
    if step.Protocol? {
      FollowsProtocol(cfg, s, step.step, t, requests);
    }
  }

  lemma FollowsProtocol(cfg: Config, s: State, step: S.Step, t: Tid, requests: seq<S.Mode>)
    requires Follows(s, t, requests) && Enabled(s, Protocol(step))
    ensures Follows(Do(cfg, s, Protocol(step)), t, OneMore(requests, Protocol(step), t))
  {
    if S.ByCollector(step) || step.t != t {
      OthersPlace(cfg, s, step, t);
      OthersLeavePc(cfg, s.sp, step, t);
    } else if step.RequestGC? {
      PlanGoesOn(s.At(t).tries);
    }
  }

  lemma {:induction false} RunFollows(cfg: Config, s: State, asked: seq<S.Mode>, steps: seq<Step>, end: State, t: Tid)
    requires Follows(s, t, asked) && Run(cfg, s, steps, end)
    ensures Follows(end, t, Requests(asked, steps, t))
    decreases |steps|
  {
    if steps != [] {
      FollowsStep(cfg, s, steps[0], t, asked);
      RunFollows(cfg, Do(cfg, s, steps[0]), OneMore(asked, steps[0], t), steps[1..], end, t);
    }
  }

  /**
    In every run of every variant: a thread that has found no room asks for a minor collection
    first and for a full one next, and may give up exactly when it has asked for both; until
    then it may ask for the next one.
   */
  lemma AsksTwice(cfg: Config, steps: seq<Step>, s: State, t: Tid)
    requires Run(cfg, Init(), steps, s)
    ensures !s.At(t).Idle? ==> Requests([], steps, t) <= [S.MinorOnly, S.ForceMajor]
    ensures Enabled(s, Fail(t)) <==> s.At(t).Holding? && Requests([], steps, t) == [S.MinorOnly, S.ForceMajor]
    ensures Enabled(s, Ask(t)) <==> s.At(t).Holding? && |Requests([], steps, t)| < 2
  {
    assert Follows(s, t, Requests([], steps, t)) by {
      RunFollows(cfg, Init(), [], steps, s, t);
    }
    PlanMeans(s, t, Requests([], steps, t));
  }

  lemma PlanMeans(s: State, t: Tid, requests: seq<S.Mode>)
    requires Follows(s, t, requests)
    ensures !s.At(t).Idle? ==> requests <= [S.MinorOnly, S.ForceMajor]
    ensures Enabled(s, Fail(t)) <==> s.At(t).Holding? && requests == [S.MinorOnly, S.ForceMajor]
    ensures Enabled(s, Ask(t)) <==> s.At(t).Holding? && |requests| < 2
  {
    assert PLAN[..2] == PLAN && PLAN[..1] == [S.MinorOnly] && PLAN[..0] == [];
  }

  /** Who has given up as written has taken the mutex along: nobody holds it, and nobody can take it. */
  lemma {:induction false} LockedOut(cfg: Config, s: State, steps: seq<Step>, end: State)
    requires Inv(cfg, s) && !cfg.repaired && s.mutex.Abandoned? && Run(cfg, s, steps, end) && S.Bounded(end.sp)
    ensures end.mutex.Abandoned? && forall step :: step in steps ==> !step.Take?
    decreases |steps|
  {
    if steps != [] {
      BoundedBefore(cfg, s, steps, end);
      InvStep(cfg, s, steps[0]);
      if !steps[0].Protocol? { assert Fits(cfg, s, steps[0].t); }
      LockedOut(cfg, Do(cfg, s, steps[0]), steps[1..], end);
    }
  }

  /**
    After an allocation has given up as written, no thread ever gets the allocation mutex
    again; when it is unlocked first, the next thread can take it at once.
   */
  lemma GivingUpLocksOut(cfg: Config, before: seq<Step>, s: State, t: Tid, after: seq<Step>, end: State)
    requires Run(cfg, Init(), before, s) && Enabled(s, Fail(t))
    requires Run(cfg, Do(cfg, s, Fail(t)), after, end) && (cfg.guarded || S.Bounded(end.sp))
    ensures !cfg.repaired ==> forall step :: step in after ==> !step.Take?
    ensures cfg.repaired ==>
      forall u :: Do(cfg, s, Fail(t)).At(u).Blocked? ==> Enabled(Do(cfg, s, Fail(t)), Take(u))
  {
    if !cfg.repaired {
      if cfg.guarded { GuardedRun(cfg, Init(), before, s); GuardedRun(cfg, Do(cfg, s, Fail(t)), after, end); }
      BoundedBefore(cfg, Do(cfg, s, Fail(t)), after, end);
      InvAlways(cfg, before, s);
      InvStep(cfg, s, Fail(t));
      LockedOut(cfg, Do(cfg, s, Fail(t)), after, end);
    }
  }
}
