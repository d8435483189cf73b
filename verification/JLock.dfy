/**
  The re-entrant lock of jlock.c as an interleaving of its accesses.

  `owner` is read without the mutex (lines 16 and 28) and `acquiredCount` is updated by a
  load and a store; each of these is a step of its own, and so is every mutex operation.
  Accesses are taken in program order, one at a time.
 */
module JLock {
  import opened ReentrantLock

  /** `acquiredCount` is a `uint32_t`. */
  const COUNT_MODULUS: nat := 0x1_0000_0000

  /** Where a thread stands inside `jlock_lock` (the first five) or `jlock_unlock`. */
  datatype Pc =
    | Settled
    | LoadUp
    | StoreUp(loaded: nat)
    | WantMutex
    | WriteOwner
    | WriteCount
    | LoadDown
    | StoreDown(loaded: nat)
    | TestZero
    | ClearOwner
    | GiveMutex

  /** The fields of the lock, and who holds `conditionMutex`. */
  datatype Lock = Lock(owner: Tid, count: nat, holder: Tid)

  /** A thread's place, and its completed acquires that are not yet undone. */
  datatype Thread = Thread(pc: Pc, nesting: nat)

  datatype State = State(lock: Lock, threads: map<Tid, Thread>) {
    function Of(t: Tid): Thread { if t in threads then threads[t] else Thread(Settled, 0) }
  }

  datatype Step = CallLock(t: Tid) | CallUnlock(t: Tid) | Advance(t: Tid)

  function Init(): State { State(Lock(NOBODY, 0, NOBODY), map[]) }

  predicate Enabled(s: State, step: Step) {
    && step.t != NOBODY
    && match step
       case CallLock(t) => s.Of(t).pc == Settled
       case CallUnlock(t) => s.Of(t).pc == Settled
       case Advance(t) => s.Of(t).pc != Settled && (s.Of(t).pc == WantMutex ==> s.lock.holder == NOBODY)
  }

  function Up(n: nat): nat { if n + 1 == COUNT_MODULUS then 0 else n + 1 }

  function Down(n: nat): nat { if n == 0 then COUNT_MODULUS - 1 else n - 1 }

  function Less(n: nat): nat { if n == 0 then 0 else n - 1 }

  /** What a step does to the lock and to the thread that makes it. */
  function Move(l: Lock, th: Thread, step: Step): (Lock, Thread) {
    match step
    case CallLock(t) => (l, th.(pc := if l.owner == t then LoadUp else WantMutex))
    case CallUnlock(t) => (l, if l.owner == t then th.(pc := LoadDown) else th)
    case Advance(t) =>
      match th.pc
      case Settled => (l, th)
      case LoadUp => (l, th.(pc := StoreUp(l.count)))
      case StoreUp(v) => (l.(count := Up(v)), Thread(Settled, th.nesting + 1))
      case WantMutex => (l.(holder := t), th.(pc := WriteOwner))
      case WriteOwner => (l.(owner := t), th.(pc := WriteCount))
      case WriteCount => (l.(count := 1), Thread(Settled, th.nesting + 1))
      case LoadDown => (l, th.(pc := StoreDown(l.count)))
      case StoreDown(v) => (l.(count := Down(v)), th.(pc := TestZero))
      case TestZero => (l, if l.count != 0 then Thread(Settled, Less(th.nesting)) else th.(pc := ClearOwner))
      case ClearOwner => (l.(owner := NOBODY), th.(pc := GiveMutex))
      case GiveMutex => (l.(holder := NOBODY), Thread(Settled, Less(th.nesting)))
  }

  function Next(s: State, step: Step): State
    requires Enabled(s, step)
  {
    var (lock, thread) := Move(s.lock, s.Of(step.t), step);
    State(lock, s.threads[step.t := thread])
  }

  // ---------------------------------------------------------------- the invariant

  /** A thread that is past the mutex, or that saw itself as the owner. */
  predicate NeedsMutex(pc: Pc) { pc != Settled && pc != WantMutex }

  /** The owner field is written only after the mutex is taken and cleared before it is given back. */
  predicate OwnsField(pc: Pc) { pc != WantMutex && pc != WriteOwner && pc != GiveMutex }

  function Low(n: nat): (r: nat)
    ensures r < COUNT_MODULUS
    ensures n < COUNT_MODULUS ==> r == n
  {
    n % COUNT_MODULUS
  }

  /** What the holder's counter holds at each place. */
  predicate CountFits(pc: Pc, count: nat, n: nat) {
    match pc
    case Settled => n > 0 && count == Low(n)
    case LoadUp => n > 0 && count == Low(n)
    case StoreUp(v) => n > 0 && count == Low(n) && v == count
    case WantMutex => false
    case WriteOwner => Low(n) == 0
    case WriteCount => Low(n) == 0
    case LoadDown => n > 0 && count == Low(n)
    case StoreDown(v) => n > 0 && count == Low(n) && v == count
    case TestZero => n > 0 && count == Low(n - 1)
    case ClearOwner => n > 0 && Low(n - 1) == 0
    case GiveMutex => n > 0 && Low(n - 1) == 0
  }

  /** How thread `t` and the lock fit together. */
  predicate Fits(l: Lock, t: Tid, th: Thread) {
    if t != NOBODY && t == l.holder then
      CountFits(th.pc, l.count, th.nesting) && (l.owner == t <==> OwnsField(th.pc))
    else
      !NeedsMutex(th.pc) && Low(th.nesting) == 0 && (l.owner == t ==> t == NOBODY)
  }

  ghost predicate Inv(s: State) { forall t: Tid {:trigger s.Of(t)} :: Fits(s.lock, t, s.Of(t)) }

  lemma LowIs(n: nat, q: int, r: nat)
    requires n == q * COUNT_MODULUS + r && r < COUNT_MODULUS
    ensures Low(n) == r
  {
  }

  lemma LowSteps(n: nat)
    ensures Low(n + 1) == Up(Low(n))
    ensures n > 0 ==> Low(n - 1) == Down(Low(n))
  {
    var q, r := n / COUNT_MODULUS, Low(n);
    LowIs(n + 1, if r + 1 == COUNT_MODULUS then q + 1 else q, Up(r));
    if n > 0 {
      LowIs(n - 1, if r == 0 then q - 1 else q, Down(r));
    }
  }

  /** The thread that moves still fits. */
  lemma MoverFits(s: State, step: Step)
    requires Enabled(s, step) && Fits(s.lock, step.t, s.Of(step.t))
    ensures var (l, th) := Move(s.lock, s.Of(step.t), step); Fits(l, step.t, th)
  {
    LowSteps(s.Of(step.t).nesting);
  }

  lemma InvStep(s: State, step: Step)
    requires Inv(s) && Enabled(s, step)
    ensures Inv(Next(s, step))
  {
    var s' := Next(s, step);
    assert Fits(s.lock, step.t, s.Of(step.t));
    forall t: Tid ensures Fits(s'.lock, t, s'.Of(t)) {
      if t == step.t {
        MoverFits(s, step);
      } else {
        assert Fits(s.lock, t, s.Of(t));
      }
    }
  }

  /** `states` is a run of any threads, in any interleaving. */
  ghost predicate IsRun(states: seq<State>, steps: seq<Step>) {
    && |states| == |steps| + 1 && states[0] == Init()
    && forall i :: 0 <= i < |steps| ==> Enabled(states[i], steps[i]) && states[i + 1] == Next(states[i], steps[i])
  }

  lemma {:induction false} InvAlways(states: seq<State>, steps: seq<Step>, i: nat)
    requires IsRun(states, steps) && i < |states|
    ensures Inv(states[i])
  {
    if i > 0 {
      InvAlways(states, steps, i - 1);
      InvStep(states[i - 1], steps[i - 1]);
    }
  }

  // ---------------------------------------------------------------- the lock a caller sees

  /** Whether `t` is between the return of an acquire and the call that undoes it. */
  predicate Holds(s: State, t: Tid) { t != NOBODY && s.Of(t).pc == Settled && s.Of(t).nesting > 0 }

  /** No nesting has gone past what `acquiredCount` can tell apart. */
  predicate Counted(s: State) { forall t :: t in s.threads ==> s.threads[t].nesting < COUNT_MODULUS }

  /**
    In every reachable state at most one thread holds the lock, the unsynchronised test
    `owner == threadId` made by a settled thread is true exactly when it does, and then
    `acquiredCount` is its nesting depth.
   */
  lemma MutualExclusion(states: seq<State>, steps: seq<Step>, i: nat, t: Tid, u: Tid)
    requires IsRun(states, steps) && i < |states| && Counted(states[i])
    ensures Holds(states[i], t) && Holds(states[i], u) ==> t == u
    ensures t != NOBODY && states[i].Of(t).pc == Settled ==> (states[i].lock.owner == t <==> Holds(states[i], t))
    ensures Holds(states[i], t) ==> states[i].lock.count == states[i].Of(t).nesting
  {
    InvAlways(states, steps, i);
    assert Fits(states[i].lock, t, states[i].Of(t)) && Fits(states[i].lock, u, states[i].Of(u));
  }

  /**
    The mutex is given back exactly when the last nested acquire is undone, up to the width
    of the counter: of the steps that undo an acquire, those that leave a multiple of the
    counter's range release the mutex, and no other step does.
   */
  lemma ReleasedIff(states: seq<State>, steps: seq<Step>, i: nat)
    requires IsRun(states, steps) && i < |steps|
    ensures var s, s', t := states[i], states[i + 1], steps[i].t;
      && (s'.Of(t).nesting < s.Of(t).nesting ==>
            && s.lock.holder == t && s'.Of(t).nesting == s.Of(t).nesting - 1
            && (s'.lock.holder == NOBODY <==> Low(s'.Of(t).nesting) == 0))
      && (s.lock.holder != NOBODY && s'.lock.holder == NOBODY ==> s'.Of(t).nesting < s.Of(t).nesting)
  {
    InvAlways(states, steps, i);
    var s, t := states[i], steps[i].t;
    assert Fits(s.lock, t, s.Of(t));
  }

  // ---------------------------------------------------------------- where the counter wraps

  lemma Extend(states: seq<State>, steps: seq<Step>, step: Step) returns (states': seq<State>, steps': seq<Step>)
    requires IsRun(states, steps) && Enabled(states[|steps|], step)
    ensures IsRun(states', steps') && |steps'| == |steps| + 1
    ensures states'[|steps'|] == Next(states[|steps|], step) && states'[|steps|] == states[|steps|]
    ensures steps'[|steps|] == step
  {
    states', steps' := states + [Next(states[|steps|], step)], steps + [step];
  }

  /** Thread 1 is settled with `n` acquires. */
  predicate Nested(s: State, n: nat) { s.lock == Lock(1, Low(n), 1) && s.Of(1) == Thread(Settled, n) }

  lemma {:induction false} NestTo(n: nat) returns (states: seq<State>, steps: seq<Step>)
    requires n >= 1
    ensures IsRun(states, steps) && Nested(states[|steps|], n)
  {
    if n == 1 {
      states, steps := [Init()], [];
      states, steps := Extend(states, steps, CallLock(1));
      states, steps := Extend(states, steps, Advance(1));
      states, steps := Extend(states, steps, Advance(1));
      states, steps := Extend(states, steps, Advance(1));
    } else {
      states, steps := NestTo(n - 1);
      LowSteps(n - 1);
      states, steps := Extend(states, steps, CallLock(1));
      states, steps := Extend(states, steps, Advance(1));
      states, steps := Extend(states, steps, Advance(1));
    }
  }

  /**
    A run in which the mutex is given back too early: after one acquire more than the counter
    can count, undoing a single one releases it, with all the others still to be undone.
   */
  lemma WrapReleasesEarly() returns (states: seq<State>, steps: seq<Step>)
    ensures IsRun(states, steps)
    ensures states[|steps|].lock.holder == NOBODY && states[|steps|].Of(1) == Thread(Settled, COUNT_MODULUS)
  {
    states, steps := NestTo(COUNT_MODULUS + 1);
    LowSteps(COUNT_MODULUS + 1);
    LowIs(COUNT_MODULUS, 1, 0);
    states, steps := Extend(states, steps, CallUnlock(1));
    states, steps := Extend(states, steps, Advance(1));
    states, steps := Extend(states, steps, Advance(1));
    states, steps := Extend(states, steps, Advance(1));
    states, steps := Extend(states, steps, Advance(1));
    states, steps := Extend(states, steps, Advance(1));
  }

  // ---------------------------------------------------------------- the abstract lock

  /** The abstract lock: a first acquire counts from the moment the mutex is taken. */
  function View(s: State): Reentrant {
    var th := s.Of(s.lock.holder);
    if s.lock.holder == NOBODY then Reentrant(NOBODY, 0)
    else if th.pc == WriteOwner || th.pc == WriteCount then Reentrant(s.lock.holder, 1)
    else Reentrant(s.lock.holder, th.nesting)
  }

  /** What a step of thread `t` may do to the abstract lock. */
  predicate Atomic(r: Reentrant, r': Reentrant, t: Tid) {
    r' == r || (Available(r, t) && r' == Acquire(r, t)) || (r.owner == t && r' == Release(r, t))
  }

  /**
    The interleaved lock refines the atomic one: every step does nothing to it, or acquires
    it when it is available, or releases it when the thread owns it; and a settled thread's
    acquires are those of the abstract lock.
   */
  lemma RefinesAtomicLock(states: seq<State>, steps: seq<Step>, i: nat, u: Tid)
    requires IsRun(states, steps) && i < |steps| && Counted(states[i]) && Counted(states[i + 1])
    ensures Atomic(View(states[i]), View(states[i + 1]), steps[i].t)
    ensures var s := states[i]; u != NOBODY && s.Of(u).pc == Settled ==>
      s.Of(u).nesting == if View(s).owner == u then View(s).depth else 0
  {
    InvAlways(states, steps, i);
    var s, t := states[i], steps[i].t;
    assert Fits(s.lock, t, s.Of(t)) && Fits(s.lock, u, s.Of(u));
    assert Fits(s.lock, s.lock.holder, s.Of(s.lock.holder));
    assert states[i + 1].Of(t).nesting < COUNT_MODULUS;
  }
}
