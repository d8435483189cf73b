/**
  What the entries of the slot table say while threads allocate and release slots, under the
  interleavings of the module SlotConcurrency.
 */
module SlotEntries {
  import opened SlotTypes
  import opened SlotConcurrency
  import opened Wrappers

  /** Inside the table's section a thread has one way to go on, and never none. */
  lemma OneWayOn(cfg: Config, s: State, t: Tid, ok: bool)
    requires s.At(t).InTable?
    ensures Enabled(cfg, s, Refuse(t)) || Enabled(cfg, s, Grow(t, ok)) || Enabled(cfg, s, Bump(t))
    ensures !(Enabled(cfg, s, Refuse(t)) && Enabled(cfg, s, Grow(t, ok)))
    ensures !(Enabled(cfg, s, Refuse(t)) && Enabled(cfg, s, Bump(t)))
    ensures !(Enabled(cfg, s, Grow(t, ok)) && Enabled(cfg, s, Bump(t)))
  {
  }

  /** A slot keeps its owner until the owner begins to release it, and its entry until the owner stores another. */
  lemma OwnedKept(cfg: Config, s: State, step: Step, x: Slot)
    requires Exclusive(s) && Enabled(cfg, s, step) && x in s.owner
    ensures var s', t := Do(cfg, s, step), s.owner[x];
      && (step != BeginFree(t, x) ==> x in s'.owner && s'.owner[x] == t)
      && s'.Get(x) == if step.Store? && step.t == t && step.slot == x then step.address else s.Get(x)
  {
    assert IsAt(s, x, Owned(s.owner[x]));
    WritesOwnSlots(cfg, s, step);
    if InHand(s.At(step.t)) { assert IsAt(s, s.At(step.t).slot, Held(step.t)); }
  }

  /** An address taken from the top of the table is marked as reserved before its thread has it. */
  predicate MarkFits(s: State, t: Tid) { s.At(t).Marked? ==> s.Get(s.At(t).slot) == Reserved }

  lemma MarkKept(cfg: Config, s: State, step: Step, t: Tid)
    requires Exclusive(s) && Enabled(cfg, s, step) && MarkFits(s, t)
    ensures MarkFits(Do(cfg, s, step), t)
  {
    WritesOwnSlots(cfg, s, step);
    if t != step.t { OthersKeepPc(cfg, s, step, t); }
    if s.At(t).Marked? { assert IsAt(s, s.At(t).slot, Held(t)); }
  }

  /** A slot that is handed out is reserved. */
  lemma NewIsReserved(cfg: Config, s: State, step: Step, x: Slot)
    requires Exclusive(s) && Enabled(cfg, s, step) && MarkFits(s, step.t)
    requires x !in s.owner && x in Do(cfg, s, step).owner
    ensures Do(cfg, s, step).owner[x] == step.t && Do(cfg, s, step).Get(x) == Reserved
  {
  }

  // ---------------------------------------------------------------- over whole runs

  lemma {:induction false} MarksFit(cfg: Config, s: State, steps: seq<Step>, end: State)
    requires Inv(s) && (forall t :: MarkFits(s, t)) && Run(cfg, s, steps, end)
    ensures Inv(end) && forall t :: MarkFits(end, t)
    decreases |steps|
  {
    if steps != [] {
      InvStep(cfg, s, steps[0]);
      forall t ensures MarkFits(Do(cfg, s, steps[0]), t) { MarkKept(cfg, s, steps[0], t); }
      MarksFit(cfg, Do(cfg, s, steps[0]), steps[1..], end);
    }
  }

  /** In every run a slot that is handed out is reserved for the thread that gets it. */
  lemma HandedOutReserved(cfg: Config, steps: seq<Step>, s: State, step: Step, x: Slot)
    requires Run(cfg, Init(), steps, s) && Enabled(cfg, s, step)
    requires x !in s.owner && x in Do(cfg, s, step).owner
    ensures Do(cfg, s, step).owner[x] == step.t && Do(cfg, s, step).Get(x) == Reserved
  {
    InitInv();
    MarksFit(cfg, Init(), steps, s);
    NewIsReserved(cfg, s, step, x);
  }

  /** Neither a store to the slot nor its release by its owner. */
  predicate LeavesAlone(step: Step, t: Tid, x: Slot) {
    !(step.Store? && step.t == t && step.slot == x) && step != BeginFree(t, x)
  }

  lemma {:induction false} EntryKept(cfg: Config, s: State, x: Slot, steps: seq<Step>, end: State)
    requires Inv(s) && x in s.owner && Run(cfg, s, steps, end)
    requires forall step :: step in steps ==> LeavesAlone(step, s.owner[x], x)
    ensures x in end.owner && end.owner[x] == s.owner[x] && end.Get(x) == s.Get(x)
    decreases |steps|
  {
    if steps != [] {
      assert steps[0] in steps;
      InvStep(cfg, s, steps[0]);
      OwnedKept(cfg, s, steps[0], x);
      EntryKept(cfg, Do(cfg, s, steps[0]), x, steps[1..], end);
    }
  }

  /**
    In every run, what a thread stores in a slot of its own stays there, and the slot stays
    its own, until it stores something else there or releases the slot, whatever other
    threads allocate, release and store.
   */
  lemma StoredStays(cfg: Config, before: seq<Step>, s: State, t: Tid, x: Slot, a: Address, after: seq<Step>, end: State)
    requires Run(cfg, Init(), before, s) && Enabled(cfg, s, Store(t, x, a))
    requires Run(cfg, Do(cfg, s, Store(t, x, a)), after, end)
    requires forall step :: step in after ==> LeavesAlone(step, t, x)
    ensures x in end.owner && end.owner[x] == t && end.Get(x) == a
  {
    InitInv();
    InvRun(cfg, Init(), before, s);
    InvStep(cfg, s, Store(t, x, a));
    OwnedKept(cfg, s, Store(t, x, a), x);
    EntryKept(cfg, Do(cfg, s, Store(t, x, a)), x, after, end);
  }
}
