/**
  `allocateSlot` and `freeSlot` of indirection.c, run by any number of threads, as an
  interleaving of atomic steps.  Every mutex operation, every update of the shared
  counters and every table write is a step of its own, and the unsynchronised read of
  `numAddresses` at line 75 is one too.  Callers follow one rule: a thread frees only slots
  it was given and has not freed since.

  Two switches select the variant:
    - `testsLocked` false is the limit as written: tested at line 75, without a mutex and
      before the free list.  True tests it where a slot is about to be claimed, under
      `slotAllocationMutex`.
    - `unlocks` says whether a failed growth (line 96) releases that mutex; as written it
      does not.
 */
module SlotConcurrency {

  import opened SlotTypes
  import opened Wrappers

  type Tid = nat

  datatype Config = Config(testsLocked: bool, unlocks: bool)

  const AS_WRITTEN := Config(false, false)

  datatype Pc =
    | Idle
    // allocateSlot
    | WantFreeList
    | InFreeList
    | CountTaken                  // line 80 done, line 82 not
    | Popped(slot: Slot)          // line 82 done, mutex still held
    | Reusing(slot: Slot)         // mutex released, line 87 not done
    | WantTable
    | InTable
    | Bumped(slot: Slot)          // line 100 done
    | Marked(slot: Slot)          // line 102 done
    // freeSlot
    | Clearing(slot: Slot)
    | WantTrim(slot: Slot)
    | InTrim(slot: Slot)
    | Trimmed
    | CountRaised(slot: Slot)     // line 126 done
    | NeedsNode(slot: Slot)
    | WantLink(slot: Slot)
    | InLink(slot: Slot)
    | Linked

  datatype State = State(
    table: map<Slot, Address>,    // absent entries are NULL
    freeList: seq<Slot>,          // the slots of the `free_slot_t` nodes, head first
    numFragmentedFree: int,
    numPages: nat,
    numAddresses: nat,
    freeListMutex: Option<Tid>,
    slotAllocationMutex: Option<Tid>,
    pcs: map<Tid, Pc>,
    owner: map<Slot, Tid>,        // slots handed out by allocateSlot and not passed to freeSlot since
    lost: set<Slot>)              // slots for which line 128 found no memory
  {
    function At(t: Tid): Pc { if t in pcs then pcs[t] else Idle }

    function Goto(t: Tid, pc: Pc): State { this.(pcs := pcs[t := pc]) }

    function Get(x: Slot): Address { if x in table then table[x] else Null }
  }

  datatype Step =
    | CheckLimit(t: Tid)
    | LockFreeList(t: Tid)
    | TakeCount(t: Tid)
    | PopHead(t: Tid)
    | UnlockFreeList(t: Tid)
    | ReserveReused(t: Tid)
    | LockTable(t: Tid)
    | Refuse(t: Tid)
    | Grow(t: Tid, ok: bool)
    | Bump(t: Tid)
    | ReserveBumped(t: Tid)
    | UnlockTable(t: Tid)
    | Store(t: Tid, slot: Slot, address: Address)
    | BeginFree(t: Tid, slot: Slot)
    | Clear(t: Tid)
    | TrimOrCount(t: Tid)
    | AllocateNode(t: Tid, ok: bool)
    | Link(t: Tid)

  function Init(): State {
    State(map[], [], 0, 1, 1, None, None, map[], map[], {})
  }

  predicate MayClaim(cfg: Config, s: State) { cfg.testsLocked ==> s.numAddresses != SLOT_LIMIT }

  predicate Enabled(cfg: Config, s: State, step: Step) {
    var pc := s.At(step.t);
    match step
    case CheckLimit(t) => pc.Idle?
    case LockFreeList(t) => (pc.WantFreeList? || pc.WantLink?) && s.freeListMutex.None?
    case TakeCount(t) => pc.InFreeList? && s.freeList != []
    case PopHead(t) => pc.CountTaken? && s.freeList != []
    case UnlockFreeList(t) => (pc.InFreeList? && s.freeList == []) || pc.Popped? || pc.Linked?
    case ReserveReused(t) => pc.Reusing?
    case LockTable(t) => (pc.WantTable? || pc.WantTrim?) && s.slotAllocationMutex.None?
    case Refuse(t) => pc.InTable? && cfg.testsLocked && s.numAddresses == SLOT_LIMIT
    case Grow(t, ok) => pc.InTable? && MayClaim(cfg, s) && s.numAddresses == s.numPages * ADDR_PER_PAGE
    case Bump(t) => pc.InTable? && MayClaim(cfg, s) && s.numAddresses != s.numPages * ADDR_PER_PAGE
    case ReserveBumped(t) => pc.Bumped?
    case UnlockTable(t) => pc.Marked? || pc.Trimmed? || pc.CountRaised?
    case Store(t, x, a) => pc.Idle? && x in s.owner && s.owner[x] == t
    case BeginFree(t, x) => pc.Idle? && x in s.owner && s.owner[x] == t
    case Clear(t) => pc.Clearing?
    case TrimOrCount(t) => pc.InTrim?
    case AllocateNode(t, ok) => pc.NeedsNode?
    case Link(t) => pc.InLink?
  }

  function Do(cfg: Config, s: State, step: Step): State
    requires Enabled(cfg, s, step)
  {
    var pc := s.At(step.t);
    match step
    case CheckLimit(t) =>
      if !cfg.testsLocked && s.numAddresses == SLOT_LIMIT then s else s.Goto(t, WantFreeList)
    case LockFreeList(t) =>
      s.Goto(t, if pc.WantFreeList? then InFreeList else InLink(pc.slot)).(freeListMutex := Some(t))
    case TakeCount(t) => s.Goto(t, CountTaken).(numFragmentedFree := s.numFragmentedFree - 1)
    case PopHead(t) => s.Goto(t, Popped(s.freeList[0])).(freeList := s.freeList[1..])
    case UnlockFreeList(t) =>
      s.Goto(t, if pc.InFreeList? then WantTable else if pc.Popped? then Reusing(pc.slot) else Idle).(
        freeListMutex := None)
    case ReserveReused(t) =>
      s.Goto(t, Idle).(table := s.table[pc.slot := Reserved], owner := s.owner[pc.slot := t])
    case LockTable(t) =>
      s.Goto(t, if pc.WantTable? then InTable else InTrim(pc.slot)).(slotAllocationMutex := Some(t))
    case Refuse(t) => s.Goto(t, Idle).(slotAllocationMutex := None)
    case Grow(t, ok) =>
      if ok then s.(numPages := s.numPages + 1)
      else s.Goto(t, Idle).(slotAllocationMutex := if cfg.unlocks then None else s.slotAllocationMutex)
    case Bump(t) => s.Goto(t, Bumped(s.numAddresses)).(numAddresses := s.numAddresses + 1)
    case ReserveBumped(t) => s.Goto(t, Marked(pc.slot)).(table := s.table[pc.slot := Reserved])
    case UnlockTable(t) =>
      if pc.Marked? then
        s.Goto(t, Idle).(slotAllocationMutex := None, owner := s.owner[pc.slot := t])
      else
        s.Goto(t, if pc.Trimmed? then Idle else NeedsNode(pc.slot)).(slotAllocationMutex := None)
    case Store(t, x, a) => s.(table := s.table[x := a])
    case BeginFree(t, x) => s.Goto(t, Clearing(x)).(owner := s.owner - {x})
    case Clear(t) => s.Goto(t, WantTrim(pc.slot)).(table := s.table[pc.slot := Null])
    case TrimOrCount(t) =>
      if pc.slot + 1 == s.numAddresses then
        s.Goto(t, Trimmed).(numAddresses := s.numAddresses - 1)
      else
        s.Goto(t, CountRaised(pc.slot)).(numFragmentedFree := s.numFragmentedFree + 1)
    case AllocateNode(t, ok) =>
      if ok then s.Goto(t, WantLink(pc.slot)) else s.Goto(t, Idle).(lost := s.lost + {pc.slot})
    case Link(t) => s.Goto(t, Linked).(freeList := [pc.slot] + s.freeList)
  }

  ghost predicate Run(cfg: Config, s: State, steps: seq<Step>, end: State)
    decreases |steps|
  {
    if steps == [] then end == s
    else Enabled(cfg, s, steps[0]) && Run(cfg, Do(cfg, s, steps[0]), steps[1..], end)
  }

  // ---------------------------------------------------------------- the partition

  /** The slot a thread is handing back, counted at line 126 and not yet linked. */
  predicate Releasing(pc: Pc) { pc.CountRaised? || pc.NeedsNode? || pc.WantLink? || pc.InLink? }

  /** The slot a thread has popped, claimed or is still freeing: it counts as the thread's own. */
  predicate InHand(pc: Pc) {
    pc.Popped? || pc.Reusing? || pc.Bumped? || pc.Marked? || pc.Clearing? || pc.WantTrim? || pc.InTrim?
  }

  /** The places a slot can be at. */
  datatype Place = Owned(t: Tid) | Held(t: Tid) | Released(t: Tid) | Listed(i: nat) | Lost

  /** List positions count from the tail, so that a push or a pop moves no other node. */
  predicate IsAt(s: State, x: Slot, place: Place) {
    match place
    case Owned(t) => x in s.owner && s.owner[x] == t
    case Held(t) => InHand(s.At(t)) && s.At(t).slot == x
    case Released(t) => Releasing(s.At(t)) && s.At(t).slot == x
    case Listed(i) => i < |s.freeList| && s.freeList[|s.freeList| - 1 - i] == x
    case Lost => x in s.lost
  }

  predicate HoldsFreeList(pc: Pc) {
    pc.InFreeList? || pc.CountTaken? || pc.Popped? || pc.InLink? || pc.Linked?
  }

  predicate HoldsTable(pc: Pc) {
    pc.InTable? || pc.Bumped? || pc.Marked? || pc.InTrim? || pc.Trimmed? || pc.CountRaised?
  }

  /** No slot is at two places. */
  ghost predicate Exclusive(s: State) {
    forall x, p, q :: IsAt(s, x, p) && IsAt(s, x, q) ==> p == q
  }

  ghost predicate Somewhere(s: State, x: Slot) { exists p :: IsAt(s, x, p) }

  /** Exactly the slots 1 .. numAddresses - 1 are at some place. */
  ghost predicate Covered(s: State) {
    forall x: Slot :: Somewhere(s, x) <==> 1 <= x < s.numAddresses
  }

  ghost predicate Locking(s: State) {
    && (forall t: Tid :: HoldsFreeList(s.At(t)) <==> s.freeListMutex == Some(t))
    && (forall t: Tid :: HoldsTable(s.At(t)) ==> s.slotAllocationMutex == Some(t))
    && (forall t: Tid :: s.At(t).CountTaken? ==> s.freeList != [])
  }

  ghost predicate Fits(s: State) { 1 <= s.numAddresses <= s.numPages * ADDR_PER_PAGE }

  /** The points of both functions at which the slot in hand has no address. */
  predicate Unset(pc: Pc) { pc.Popped? || pc.Reusing? || pc.WantTrim? || pc.InTrim? }

  /** Nothing that is free, or on its way there, has an address. */
  ghost predicate Cleared(s: State) {
    && (forall x, p :: IsAt(s, x, p) && !p.Owned? && !p.Held? ==> s.Get(x).Null?)
    && (forall t: Tid :: Unset(s.At(t)) ==> s.Get(s.At(t).slot).Null?)
    && (forall x :: s.numAddresses <= x ==> s.Get(x).Null?)
  }

  function Releasers(s: State): set<Tid> { set t | t in s.pcs && Releasing(s.pcs[t]) }

  /** One while a thread is between lines 80 and 82. */
  function MidPop(s: State): nat {
    if s.freeListMutex.Some? && s.At(s.freeListMutex.value).CountTaken? then 1 else 0
  }

  /** `numFragmentedFree` counts the listed, the released and the lost slots. */
  ghost predicate Counted(s: State) {
    s.numFragmentedFree + MidPop(s) == |s.freeList| + |Releasers(s)| + |s.lost|
  }

  ghost predicate Inv(s: State) {
    Exclusive(s) && Covered(s) && Locking(s) && Fits(s) && Cleared(s) && Counted(s)
  }

  // ---------------------------------------------------------------- the effect of one step

  /** At most slot `x` changes its place, and afterwards it is at `to` alone, or nowhere. */
  ghost predicate Moves(s: State, s': State, x: Slot, to: Option<Place>) {
    && (forall y, p :: y != x ==> (IsAt(s', y, p) <==> IsAt(s, y, p)))
    && (forall p :: IsAt(s', x, p) <==> to == Some(p))
  }

  ghost predicate Stays(s: State, s': State) {
    && (forall y, p :: IsAt(s', y, p) <==> IsAt(s, y, p))
    && s'.numAddresses == s.numAddresses
  }

  predicate MovesSlot(cfg: Config, s: State, step: Step)
    requires Enabled(cfg, s, step)
  {
    match step
    case PopHead(_) => true
    case ReserveReused(_) => true
    case Bump(_) => true
    case UnlockTable(t) => s.At(t).Marked?
    case BeginFree(_, _) => true
    case TrimOrCount(_) => true
    case AllocateNode(_, ok) => !ok
    case Link(_) => true
    case _ => false
  }

  function MovedSlot(cfg: Config, s: State, step: Step): Slot
    requires Enabled(cfg, s, step) && MovesSlot(cfg, s, step)
  {
    if step.PopHead? then s.freeList[0]
    else if step.Bump? then s.numAddresses
    else if step.BeginFree? then step.slot
    else s.At(step.t).slot
  }

  function Destination(cfg: Config, s: State, step: Step): Option<Place>
    requires Enabled(cfg, s, step) && MovesSlot(cfg, s, step)
  {
    match step
    case PopHead(t) => Some(Held(t))
    case Bump(t) => Some(Held(t))
    case BeginFree(t, _) => Some(Held(t))
    case ReserveReused(t) => Some(Owned(t))
    case UnlockTable(t) => Some(Owned(t))
    case TrimOrCount(t) => if s.At(t).slot + 1 == s.numAddresses then None else Some(Released(t))
    case AllocateNode(_, _) => Some(Lost)
    case Link(_) => Some(Listed(|s.freeList|))
  }

  /** Where a step that moves an existing slot takes it from. */
  function Origin(cfg: Config, s: State, step: Step): Place
    requires Enabled(cfg, s, step) && MovesSlot(cfg, s, step) && !step.Bump?
  {
    match step
    case PopHead(_) => Listed(|s.freeList| - 1)
    case BeginFree(t, _) => Owned(t)
    case AllocateNode(t, _) => Released(t)
    case Link(t) => Released(t)
    case _ => Held(step.t)
  }

  lemma MovesFromOrigin(cfg: Config, s: State, step: Step)
    requires Enabled(cfg, s, step) && MovesSlot(cfg, s, step) && !step.Bump?
    ensures IsAt(s, MovedSlot(cfg, s, step), Origin(cfg, s, step))
  {
  }

  lemma ListMovesOnlyOne(cfg: Config, s: State, step: Step, y: Slot, p: Place)
    requires Enabled(cfg, s, step) && (step.PopHead? || step.Link?) && y != MovedSlot(cfg, s, step)
    ensures IsAt(Do(cfg, s, step), y, p) <==> IsAt(s, y, p)
  {
  }

  lemma MovesOnlyOne(cfg: Config, s: State, step: Step, y: Slot, p: Place)
    requires Enabled(cfg, s, step) && MovesSlot(cfg, s, step) && y != MovedSlot(cfg, s, step)
    ensures IsAt(Do(cfg, s, step), y, p) <==> IsAt(s, y, p)
  {
    if step.PopHead? || step.Link? {
      ListMovesOnlyOne(cfg, s, step, y, p);
    } else {
      assert Do(cfg, s, step).freeList == s.freeList;
    }
  }

  lemma ListMovesToDestination(cfg: Config, s: State, step: Step, p: Place)
    requires Exclusive(s) && Enabled(cfg, s, step) && (step.PopHead? || step.Link?)
    ensures IsAt(Do(cfg, s, step), MovedSlot(cfg, s, step), p) <==> Destination(cfg, s, step) == Some(p)
  {
    assert IsAt(s, MovedSlot(cfg, s, step), Origin(cfg, s, step));
    if p != Origin(cfg, s, step) {
      assert !IsAt(s, MovedSlot(cfg, s, step), p);
    }
  }

  lemma BumpMovesToDestination(cfg: Config, s: State, step: Step, p: Place)
    requires Covered(s) && Enabled(cfg, s, step) && step.Bump?
    ensures IsAt(Do(cfg, s, step), MovedSlot(cfg, s, step), p) <==> Destination(cfg, s, step) == Some(p)
  {
    assert !Somewhere(s, s.numAddresses);
    assert !IsAt(s, s.numAddresses, p);
  }

  lemma OtherMovesToDestination(cfg: Config, s: State, step: Step, p: Place)
    requires Exclusive(s) && Enabled(cfg, s, step) && MovesSlot(cfg, s, step)
    requires !step.PopHead? && !step.Link? && !step.Bump?
    ensures IsAt(Do(cfg, s, step), MovedSlot(cfg, s, step), p) <==> Destination(cfg, s, step) == Some(p)
  {
    assert IsAt(s, MovedSlot(cfg, s, step), Origin(cfg, s, step));
    if p != Origin(cfg, s, step) {
      assert !IsAt(s, MovedSlot(cfg, s, step), p);
    }
  }

  lemma MovesToDestination(cfg: Config, s: State, step: Step, p: Place)
    requires Exclusive(s) && Covered(s) && Enabled(cfg, s, step) && MovesSlot(cfg, s, step)
    ensures IsAt(Do(cfg, s, step), MovedSlot(cfg, s, step), p) <==> Destination(cfg, s, step) == Some(p)
  {
    if step.PopHead? || step.Link? {
      ListMovesToDestination(cfg, s, step, p);
    } else if step.Bump? {
      BumpMovesToDestination(cfg, s, step, p);
    } else {
      OtherMovesToDestination(cfg, s, step, p);
    }
  }

  lemma StepMoves(cfg: Config, s: State, step: Step)
    requires Exclusive(s) && Covered(s) && Enabled(cfg, s, step) && MovesSlot(cfg, s, step)
    ensures Moves(s, Do(cfg, s, step), MovedSlot(cfg, s, step), Destination(cfg, s, step))
    ensures !step.Bump? ==> IsAt(s, MovedSlot(cfg, s, step), Origin(cfg, s, step))
  {
    var s', x := Do(cfg, s, step), MovedSlot(cfg, s, step);
    if !step.Bump? { MovesFromOrigin(cfg, s, step); }
    forall y, p | y != x ensures IsAt(s', y, p) <==> IsAt(s, y, p) { MovesOnlyOne(cfg, s, step, y, p); }
    forall p ensures IsAt(s', x, p) <==> Destination(cfg, s, step) == Some(p) { MovesToDestination(cfg, s, step, p); }
  }

  lemma StaysAt(cfg: Config, s: State, step: Step, y: Slot, p: Place)
    requires Enabled(cfg, s, step) && !MovesSlot(cfg, s, step)
    ensures IsAt(Do(cfg, s, step), y, p) <==> IsAt(s, y, p)
  {
    assert Do(cfg, s, step).freeList == s.freeList && Do(cfg, s, step).lost == s.lost;
    if p.Held? || p.Released? {
      if p.t != step.t { OthersKeepPc(cfg, s, step, p.t); }
    }
  }

  lemma StepStays(cfg: Config, s: State, step: Step)
    requires Enabled(cfg, s, step) && !MovesSlot(cfg, s, step)
    ensures Stays(s, Do(cfg, s, step))
  {
    forall y, p ensures IsAt(Do(cfg, s, step), y, p) <==> IsAt(s, y, p) { StaysAt(cfg, s, step, y, p); }
  }

  // ---------------------------------------------------------------- preservation

  lemma FreeListLockAt(cfg: Config, s: State, step: Step, t: Tid)
    requires Locking(s) && Enabled(cfg, s, step)
    ensures HoldsFreeList(Do(cfg, s, step).At(t)) <==> Do(cfg, s, step).freeListMutex == Some(t)
  {
    assert HoldsFreeList(s.At(step.t)) <==> s.freeListMutex == Some(step.t);
    if t == step.t {
      OwnFreeListLock(cfg, s, step);
    } else {
      assert HoldsFreeList(s.At(t)) <==> s.freeListMutex == Some(t);
      OthersKeepPc(cfg, s, step, t);
      OthersFreeListLock(cfg, s, step, t);
    }
  }

  lemma OwnFreeListLock(cfg: Config, s: State, step: Step)
    requires Enabled(cfg, s, step) && (HoldsFreeList(s.At(step.t)) <==> s.freeListMutex == Some(step.t))
    ensures HoldsFreeList(Do(cfg, s, step).At(step.t)) <==> Do(cfg, s, step).freeListMutex == Some(step.t)
  {
  }

  lemma OthersFreeListLock(cfg: Config, s: State, step: Step, t: Tid)
    requires Enabled(cfg, s, step) && (HoldsFreeList(s.At(step.t)) <==> s.freeListMutex == Some(step.t)) && t != step.t
    ensures Do(cfg, s, step).freeListMutex == Some(t) <==> s.freeListMutex == Some(t)
  {
  }

  lemma OthersKeepPc(cfg: Config, s: State, step: Step, t: Tid)
    requires Enabled(cfg, s, step) && t != step.t
    ensures Do(cfg, s, step).At(t) == s.At(t)
  {
  }

  predicate Unlocks(cfg: Config, step: Step) {
    step.UnlockTable? || step.Refuse? || (step.Grow? && !step.ok && cfg.unlocks)
  }

  lemma TableMutexChanges(cfg: Config, s: State, step: Step)
    requires Enabled(cfg, s, step)
    ensures Do(cfg, s, step).slotAllocationMutex ==
      if step.LockTable? then Some(step.t) else if Unlocks(cfg, step) then None else s.slotAllocationMutex
  {
  }

  lemma TableLockAt(cfg: Config, s: State, step: Step, t: Tid)
    requires Locking(s) && Enabled(cfg, s, step)
    ensures HoldsTable(Do(cfg, s, step).At(t)) ==> Do(cfg, s, step).slotAllocationMutex == Some(t)
  {
    TableMutexChanges(cfg, s, step);
    assert HoldsTable(s.At(t)) ==> s.slotAllocationMutex == Some(t);
    if t != step.t {
      OthersKeepPc(cfg, s, step, t);
      assert Unlocks(cfg, step) ==> HoldsTable(s.At(step.t));
    } else if !step.LockTable? && HoldsTable(Do(cfg, s, step).At(t)) {
      assert !Unlocks(cfg, step) && HoldsTable(s.At(t));
    }
  }

  lemma HeadStaysAt(cfg: Config, s: State, step: Step, t: Tid)
    requires Locking(s) && Enabled(cfg, s, step)
    ensures Do(cfg, s, step).At(t).CountTaken? ==> Do(cfg, s, step).freeList != []
  {
    assert HoldsFreeList(s.At(t)) <==> s.freeListMutex == Some(t);
    assert HoldsFreeList(s.At(step.t)) <==> s.freeListMutex == Some(step.t);
    if t != step.t {
      OthersKeepPc(cfg, s, step, t);
    }
  }

  lemma LockingStep(cfg: Config, s: State, step: Step)
    requires Locking(s) && Enabled(cfg, s, step)
    ensures Locking(Do(cfg, s, step))
  {
    forall t: Tid { FreeListLockAt(cfg, s, step, t); }
    forall t: Tid { TableLockAt(cfg, s, step, t); }
    forall t: Tid { HeadStaysAt(cfg, s, step, t); }
  }

  lemma FitsStep(cfg: Config, s: State, step: Step)
    requires Inv(s) && Enabled(cfg, s, step)
    ensures Fits(Do(cfg, s, step))
  {
    if step.TrimOrCount? {
      assert IsAt(s, s.At(step.t).slot, Held(step.t));
      assert Somewhere(s, s.At(step.t).slot);
    }
  }

  lemma ExclusiveStep(cfg: Config, s: State, step: Step)
    requires Inv(s) && Enabled(cfg, s, step)
    ensures Exclusive(Do(cfg, s, step))
  {
    if MovesSlot(cfg, s, step) {
      StepMoves(cfg, s, step);
    } else {
      StepStays(cfg, s, step);
    }
  }

  lemma CoveredStep(cfg: Config, s: State, step: Step)
    requires Inv(s) && Enabled(cfg, s, step)
    ensures Covered(Do(cfg, s, step))
  {
    var s' := Do(cfg, s, step);
    if MovesSlot(cfg, s, step) {
      StepMoves(cfg, s, step);
      var x := MovedSlot(cfg, s, step);
      forall y: Slot | y != x ensures Somewhere(s', y) <==> Somewhere(s, y) {
        if Somewhere(s, y) { var p :| IsAt(s, y, p); assert IsAt(s', y, p); }
        if Somewhere(s', y) { var p :| IsAt(s', y, p); assert IsAt(s, y, p); }
      }
      assert Somewhere(s', x) <==> Destination(cfg, s, step).Some?;
      assert step.Bump? || Somewhere(s, x);
    } else {
      StepStays(cfg, s, step);
      forall y: Slot ensures Somewhere(s', y) <==> Somewhere(s, y) {
        if Somewhere(s, y) { var p :| IsAt(s, y, p); assert IsAt(s', y, p); }
        if Somewhere(s', y) { var p :| IsAt(s', y, p); assert IsAt(s, y, p); }
      }
    }
  }

  /** The change a step makes to the set of releasing threads. */
  predicate StartsRelease(cfg: Config, s: State, step: Step)
    requires Enabled(cfg, s, step)
  {
    step.TrimOrCount? && s.At(step.t).slot + 1 != s.numAddresses
  }

  predicate EndsRelease(step: Step) { step.Link? || (step.AllocateNode? && !step.ok) }

  lemma ReleasersChange(cfg: Config, s: State, step: Step)
    requires Enabled(cfg, s, step)
    ensures Releasers(Do(cfg, s, step)) ==
      if StartsRelease(cfg, s, step) then Releasers(s) + {step.t}
      else if EndsRelease(step) then Releasers(s) - {step.t}
      else Releasers(s)
  {
  }

  predicate TouchesList(step: Step) {
    step.LockFreeList? || step.TakeCount? || step.PopHead? || step.UnlockFreeList? || step.Link?
  }

  lemma CountedListStep(cfg: Config, s: State, step: Step)
    requires Counted(s) && Locking(s) && Enabled(cfg, s, step) && TouchesList(step)
    ensures Counted(Do(cfg, s, step))
  {
    ReleasersChange(cfg, s, step);
    assert HoldsFreeList(s.At(step.t)) <==> s.freeListMutex == Some(step.t);
  }

  lemma MidPopUnchanged(cfg: Config, s: State, step: Step)
    requires Locking(s) && Enabled(cfg, s, step) && !TouchesList(step)
    ensures MidPop(Do(cfg, s, step)) == MidPop(s) && Do(cfg, s, step).freeList == s.freeList
  {
  }

  lemma CountersElsewhere(cfg: Config, s: State, step: Step)
    requires Enabled(cfg, s, step) && !TouchesList(step)
    ensures Do(cfg, s, step).numFragmentedFree == s.numFragmentedFree + if StartsRelease(cfg, s, step) then 1 else 0
    ensures Do(cfg, s, step).lost == if EndsRelease(step) then s.lost + {s.At(step.t).slot} else s.lost
    ensures StartsRelease(cfg, s, step) ==> step.t !in Releasers(s)
    ensures EndsRelease(step) ==> step.t in Releasers(s)
  {
  }

  lemma CountedOtherStep(cfg: Config, s: State, step: Step)
    requires Inv(s) && Enabled(cfg, s, step) && !TouchesList(step)
    ensures Counted(Do(cfg, s, step))
  {
    ReleasersChange(cfg, s, step);
    MidPopUnchanged(cfg, s, step);
    CountersElsewhere(cfg, s, step);
    if EndsRelease(step) {
      assert IsAt(s, s.At(step.t).slot, Released(step.t)) && !IsAt(s, s.At(step.t).slot, Lost);
    }
  }

  lemma CountedStep(cfg: Config, s: State, step: Step)
    requires Inv(s) && Enabled(cfg, s, step)
    ensures Counted(Do(cfg, s, step))
  {
    if TouchesList(step) {
      CountedListStep(cfg, s, step);
    } else {
      CountedOtherStep(cfg, s, step);
    }
  }

  predicate Writes(step: Step) {
    step.ReserveReused? || step.ReserveBumped? || step.Store? || step.Clear?
  }

  function WrittenSlot(cfg: Config, s: State, step: Step): Slot
    requires Enabled(cfg, s, step) && Writes(step)
  {
    if step.Store? then step.slot else s.At(step.t).slot
  }

  /** A thread writes only to slots it owns or has in hand. */
  lemma WritesOwnSlots(cfg: Config, s: State, step: Step)
    requires Exclusive(s) && Enabled(cfg, s, step)
    ensures !Writes(step) ==> Do(cfg, s, step).table == s.table
    ensures Writes(step) ==>
      forall y :: y != WrittenSlot(cfg, s, step) ==> Do(cfg, s, step).Get(y) == s.Get(y)
    ensures Writes(step) ==> forall p :: IsAt(s, WrittenSlot(cfg, s, step), p) ==>
      p == Owned(step.t) || p == Held(step.t)
    ensures Writes(step) ==> Somewhere(s, WrittenSlot(cfg, s, step))
  {
    if Writes(step) {
      assert IsAt(s, WrittenSlot(cfg, s, step), if step.Store? then Owned(step.t) else Held(step.t));
    }
  }

  lemma ClearedPlace(cfg: Config, s: State, step: Step, x: Slot, p: Place)
    requires Inv(s) && Enabled(cfg, s, step)
    requires IsAt(Do(cfg, s, step), x, p) && !p.Owned? && !p.Held?
    ensures Do(cfg, s, step).Get(x).Null?
  {
    WritesOwnSlots(cfg, s, step);
    if MovesSlot(cfg, s, step) { StepMoves(cfg, s, step); } else { StepStays(cfg, s, step); }
    if IsAt(s, x, p) {
      assert s.Get(x).Null?;
    } else {
      assert x == MovedSlot(cfg, s, step);
      assert step.Link? || step.AllocateNode? || step.TrimOrCount?;
      assert s.Get(x).Null? by {
        assert step.TrimOrCount? || IsAt(s, x, Released(step.t));
      }
    }
  }

  lemma ClearedOtherHand(cfg: Config, s: State, step: Step, t: Tid)
    requires Inv(s) && Enabled(cfg, s, step) && t != step.t
    requires Unset(s.At(t))
    ensures Do(cfg, s, step).Get(s.At(t).slot).Null? && Do(cfg, s, step).At(t) == s.At(t)
  {
    OthersKeepPc(cfg, s, step, t);
    WritesOwnSlots(cfg, s, step);
    assert IsAt(s, s.At(t).slot, Held(t));
    assert s.Get(s.At(t).slot).Null?;
  }

  lemma ClearedOwnHand(cfg: Config, s: State, step: Step)
    requires Inv(s) && Enabled(cfg, s, step) && Unset(Do(cfg, s, step).At(step.t))
    ensures Do(cfg, s, step).Get(Do(cfg, s, step).At(step.t).slot).Null?
  {
    if step.PopHead? {
      assert IsAt(s, s.freeList[0], Listed(|s.freeList| - 1));
    } else if !step.Clear? {
      assert Unset(s.At(step.t));
    }
  }

  lemma ClearedHand(cfg: Config, s: State, step: Step, t: Tid)
    requires Inv(s) && Enabled(cfg, s, step)
    requires Unset(Do(cfg, s, step).At(t))
    ensures Do(cfg, s, step).Get(Do(cfg, s, step).At(t).slot).Null?
  {
    if t == step.t {
      ClearedOwnHand(cfg, s, step);
    } else {
      assert Do(cfg, s, step).At(t) == s.At(t);
      ClearedOtherHand(cfg, s, step, t);
    }
  }

  lemma ClearedAbove(cfg: Config, s: State, step: Step, x: Slot)
    requires Inv(s) && Enabled(cfg, s, step)
    requires Do(cfg, s, step).numAddresses <= x
    ensures Do(cfg, s, step).Get(x).Null?
  {
    WritesOwnSlots(cfg, s, step);
    if Writes(step) {
      assert WrittenSlot(cfg, s, step) < s.numAddresses;
    } else if x < s.numAddresses {
      assert step.TrimOrCount? && Unset(s.At(step.t)) && s.At(step.t).slot == x;
      assert s.Get(x).Null?;
    } else {
      assert s.Get(x).Null?;
    }
  }

  lemma ClearedStep(cfg: Config, s: State, step: Step)
    requires Inv(s) && Enabled(cfg, s, step)
    ensures Cleared(Do(cfg, s, step))
  {
    var s' := Do(cfg, s, step);
    forall x, p | IsAt(s', x, p) && !p.Owned? && !p.Held? ensures s'.Get(x).Null? { ClearedPlace(cfg, s, step, x, p); }
    forall t: Tid | Unset(s'.At(t)) ensures s'.Get(s'.At(t).slot).Null? { ClearedHand(cfg, s, step, t); }
    forall x: Slot | s'.numAddresses <= x ensures s'.Get(x).Null? { ClearedAbove(cfg, s, step, x); }
  }

  lemma InvStep(cfg: Config, s: State, step: Step)
    requires Inv(s) && Enabled(cfg, s, step)
    ensures Inv(Do(cfg, s, step))
  {
    ExclusiveStep(cfg, s, step);
    CoveredStep(cfg, s, step);
    LockingStep(cfg, s, step);
    FitsStep(cfg, s, step);
    ClearedStep(cfg, s, step);
    CountedStep(cfg, s, step);
  }

  lemma {:induction false} InvRun(cfg: Config, s: State, steps: seq<Step>, end: State)
    requires Inv(s) && Run(cfg, s, steps, end)
    ensures Inv(end)
    decreases |steps|
  {
    if steps != [] {
      InvStep(cfg, s, steps[0]);
      InvRun(cfg, Do(cfg, s, steps[0]), steps[1..], end);
    }
  }

  lemma InitInv()
    ensures Inv(Init())
  {
    forall x: Slot ensures !Somewhere(Init(), x) {}
  }

  // ---------------------------------------------------------------- results over whole runs

  /**
    In every run, whatever the interleaving, the slots 1 .. numAddresses - 1 are partitioned:
    each is at exactly one place, and no other number, 0 included, is at any.
   */
  lemma SlotsArePartitioned(cfg: Config, steps: seq<Step>, s: State)
    requires Run(cfg, Init(), steps, s)
    ensures forall x: Slot :: Somewhere(s, x) <==> 1 <= x < s.numAddresses
    ensures forall x, p, q :: IsAt(s, x, p) && IsAt(s, x, q) ==> p == q
    ensures s.numAddresses <= s.numPages * ADDR_PER_PAGE
  {
    InitInv();
    InvRun(cfg, Init(), steps, s);
  }

  /**
    In every run the fragment counter is the number of listed, released and lost slots, one
    less only while some thread stands between the two halves of a pop; and none of these
    slots holds an address.
   */
  lemma FragmentsAreCounted(cfg: Config, steps: seq<Step>, s: State)
    requires Run(cfg, Init(), steps, s)
    ensures s.numFragmentedFree + MidPop(s) == |s.freeList| + |Releasers(s)| + |s.lost|
    ensures forall x, p :: IsAt(s, x, p) && (p.Listed? || p.Released? || p.Lost?) ==> s.Get(x).Null?
  {
    InitInv();
    InvRun(cfg, Init(), steps, s);
  }

  lemma {:induction false} RunSnoc(cfg: Config, s: State, steps: seq<Step>, mid: State, step: Step)
    requires Run(cfg, s, steps, mid) && Enabled(cfg, mid, step)
    ensures Run(cfg, s, steps + [step], Do(cfg, mid, step))
    decreases |steps|
  {
    if steps != [] {
      RunSnoc(cfg, Do(cfg, s, steps[0]), steps[1..], mid, step);
      assert (steps + [step])[1..] == steps[1..] + [step];
    }
  }

  // ---------------------------------------------------------------- the failed growth at line 96

  /** The table mutex is held, and nobody is between taking and releasing it. */
  ghost predicate Frozen(s: State) {
    s.slotAllocationMutex.Some? && forall t: Tid :: !HoldsTable(s.At(t))
  }

  /** The table mutex is held exactly by the thread that stands between taking and releasing it. */
  ghost predicate Orderly(s: State) {
    forall t: Tid :: HoldsTable(s.At(t)) <==> s.slotAllocationMutex == Some(t)
  }

  predicate GrowthFails(steps: seq<Step>) {
    exists i :: 0 <= i < |steps| && steps[i].Grow? && !steps[i].ok
  }

  predicate Leaks(cfg: Config, step: Step) { step.Grow? && !step.ok && !cfg.unlocks }

  lemma FrozenStep(cfg: Config, s: State, step: Step)
    requires Frozen(s) && Enabled(cfg, s, step)
    ensures Frozen(Do(cfg, s, step))
    ensures Do(cfg, s, step).numAddresses == s.numAddresses
    ensures Do(cfg, s, step).slotAllocationMutex == s.slotAllocationMutex
  {
    assert !HoldsTable(s.At(step.t));
    var s' := Do(cfg, s, step);
    forall t: Tid ensures !HoldsTable(s'.At(t)) {
      assert !HoldsTable(s.At(t));
      assert t != step.t ==> s'.At(t) == s.At(t);
    }
  }

  lemma OrderlyStep(cfg: Config, s: State, step: Step)
    requires Orderly(s) && Enabled(cfg, s, step)
    ensures if Leaks(cfg, step) then Frozen(Do(cfg, s, step)) else Orderly(Do(cfg, s, step))
  {
    forall t: Tid { OrderlyAt(cfg, s, step, t); }
  }

  lemma OrderlyAt(cfg: Config, s: State, step: Step, t: Tid)
    requires Orderly(s) && Enabled(cfg, s, step)
    ensures var s' := Do(cfg, s, step);
      if Leaks(cfg, step) then s'.slotAllocationMutex.Some? && !HoldsTable(s'.At(t))
      else HoldsTable(s'.At(t)) <==> s'.slotAllocationMutex == Some(t)
  {
    TableMutexChanges(cfg, s, step);
    assert HoldsTable(s.At(step.t)) <==> s.slotAllocationMutex == Some(step.t);
    assert HoldsTable(s.At(t)) <==> s.slotAllocationMutex == Some(t);
    if t != step.t { OthersKeepPc(cfg, s, step, t); }
  }

  lemma {:induction false} FrozenRun(cfg: Config, s: State, steps: seq<Step>, end: State)
    requires Frozen(s) && Run(cfg, s, steps, end)
    ensures Frozen(end) && end.numAddresses == s.numAddresses
    decreases |steps|
  {
    if steps != [] {
      FrozenStep(cfg, s, steps[0]);
      FrozenRun(cfg, Do(cfg, s, steps[0]), steps[1..], end);
    }
  }

  lemma GrowthFailsCons(steps: seq<Step>)
    requires steps != []
    ensures GrowthFails(steps) <==> (steps[0].Grow? && !steps[0].ok) || GrowthFails(steps[1..])
  {
    if GrowthFails(steps[1..]) {
      var i :| 0 <= i < |steps[1..]| && steps[1..][i].Grow? && !steps[1..][i].ok;
      assert steps[i + 1] == steps[1..][i];
    }
    if GrowthFails(steps) && !(steps[0].Grow? && !steps[0].ok) {
      var i :| 0 <= i < |steps| && steps[i].Grow? && !steps[i].ok;
      assert steps[1..][i - 1] == steps[i];
    }
  }

  lemma {:induction false} OrderlyRun(cfg: Config, s: State, steps: seq<Step>, end: State)
    requires Orderly(s) && Run(cfg, s, steps, end)
    ensures if GrowthFails(steps) && !cfg.unlocks then Frozen(end) else Orderly(end)
    decreases |steps|
  {
    if steps != [] {
      OrderlyStep(cfg, s, steps[0]);
      GrowthFailsCons(steps);
      if Leaks(cfg, steps[0]) {
        FrozenRun(cfg, Do(cfg, s, steps[0]), steps[1..], end);
      } else {
        OrderlyRun(cfg, Do(cfg, s, steps[0]), steps[1..], end);
      }
    }
  }

  /**
    Line 96 leaves with the mutex held.  In every run, the mutex is held by nobody inside
    its critical section if and only if, as written, some growth has failed; and from then
    on, in every continuation, no thread enters that section again and the table never
    changes size.
   */
  lemma FailedGrowthLeaksTheMutex(cfg: Config, steps: seq<Step>, s: State, after: seq<Step>, end: State)
    requires Run(cfg, Init(), steps, s) && Run(cfg, s, after, end)
    ensures Frozen(s) <==> GrowthFails(steps) && !cfg.unlocks
    ensures Frozen(s) ==> Frozen(end) && end.numAddresses == s.numAddresses
  {
    OrderlyRun(cfg, Init(), steps, s);
    if GrowthFails(steps) && !cfg.unlocks {
      FrozenRun(cfg, s, after, end);
    }
  }

  // ---------------------------------------------------------------- schedules

  predicate By(threads: set<Tid>, steps: seq<Step>) { forall step :: step in steps ==> step.t in threads }

  /** A run from `s0` of these threads alone. */
  ghost predicate RunBy(cfg: Config, threads: set<Tid>, s0: State, steps: seq<Step>, s: State) {
    Run(cfg, s0, steps, s) && By(threads, steps)
  }

  lemma Extend(cfg: Config, threads: set<Tid>, s0: State, steps: seq<Step>, s: State, step: Step)
    returns (steps': seq<Step>, s': State)
    requires RunBy(cfg, threads, s0, steps, s) && Enabled(cfg, s, step) && step.t in threads
    ensures steps' == steps + [step] && s' == Do(cfg, s, step) && RunBy(cfg, threads, s0, steps', s')
  {
    RunSnoc(cfg, s0, steps, s, step);
    steps', s' := steps + [step], Do(cfg, s, step);
  }

  lemma FindListEmpty(threads: set<Tid>, s0: State, steps1: seq<Step>, s1: State, t: Tid)
    returns (steps: seq<Step>, s: State)
    requires RunBy(AS_WRITTEN, threads, s0, steps1, s1) && t in threads
    requires s1.At(t).WantFreeList? && s1.freeList == [] && s1.freeListMutex.None?
    ensures RunBy(AS_WRITTEN, threads, s0, steps, s)
    ensures s == s1.(pcs := s.pcs) && s.At(t) == WantTable
    ensures forall u: Tid :: u != t ==> s.At(u) == s1.At(u)
  {
    steps, s := Extend(AS_WRITTEN, threads, s0, steps1, s1, LockFreeList(t));
    steps, s := Extend(AS_WRITTEN, threads, s0, steps, s, UnlockFreeList(t));
  }

  /** The table is mapped up to the page that `numAddresses` falls in, or ends at. */
  predicate Tight(s: State) {
    1 <= s.numAddresses && (s.numPages - 1) * ADDR_PER_PAGE < s.numAddresses <= s.numPages * ADDR_PER_PAGE
  }

  /** Lines 91-99, when the kernel grants a page that is needed. */
  lemma EnterTable(threads: set<Tid>, s0: State, steps1: seq<Step>, s1: State, t: Tid)
    returns (steps: seq<Step>, s: State)
    requires RunBy(AS_WRITTEN, threads, s0, steps1, s1) && t in threads
    requires s1.At(t) == WantTable && s1.slotAllocationMutex.None? && Tight(s1)
    ensures RunBy(AS_WRITTEN, threads, s0, steps, s)
    ensures s == s1.(pcs := s.pcs, slotAllocationMutex := Some(t), numPages := s.numPages)
    ensures s.At(t) == InTable && (s.numPages - 1) * ADDR_PER_PAGE <= s.numAddresses < s.numPages * ADDR_PER_PAGE
    ensures forall u: Tid :: u != t ==> s.At(u) == s1.At(u)
  {
    steps, s := Extend(AS_WRITTEN, threads, s0, steps1, s1, LockTable(t));
    if s.numAddresses == s.numPages * ADDR_PER_PAGE {
      steps, s := Extend(AS_WRITTEN, threads, s0, steps, s, Grow(t, true));
    }
  }

  /** Lines 100-103. */
  lemma Claim(threads: set<Tid>, s0: State, steps1: seq<Step>, s1: State, t: Tid) returns (steps: seq<Step>, s: State)
    requires RunBy(AS_WRITTEN, threads, s0, steps1, s1) && t in threads
    requires s1.At(t) == InTable && s1.slotAllocationMutex == Some(t) && s1.numAddresses < s1.numPages * ADDR_PER_PAGE
    ensures RunBy(AS_WRITTEN, threads, s0, steps, s)
    ensures s == s1.(pcs := s.pcs, slotAllocationMutex := None, numAddresses := s1.numAddresses + 1,
                     table := s1.table[s1.numAddresses := Reserved], owner := s1.owner[s1.numAddresses := t])
    ensures s.At(t) == Idle
    ensures forall u: Tid :: u != t ==> s.At(u) == s1.At(u)
  {
    steps, s := Mark(threads, s0, steps1, s1, t);
    steps, s := Extend(AS_WRITTEN, threads, s0, steps, s, UnlockTable(t));
  }

  lemma Mark(threads: set<Tid>, s0: State, steps1: seq<Step>, s1: State, t: Tid) returns (steps: seq<Step>, s: State)
    requires RunBy(AS_WRITTEN, threads, s0, steps1, s1) && t in threads
    requires s1.At(t) == InTable && s1.numAddresses < s1.numPages * ADDR_PER_PAGE
    ensures RunBy(AS_WRITTEN, threads, s0, steps, s)
    ensures s == s1.(pcs := s.pcs, numAddresses := s1.numAddresses + 1, table := s1.table[s1.numAddresses := Reserved])
    ensures s.At(t) == Marked(s1.numAddresses)
    ensures forall u: Tid :: u != t ==> s.At(u) == s1.At(u)
  {
    steps, s := Extend(AS_WRITTEN, threads, s0, steps1, s1, Bump(t));
    steps, s := Extend(AS_WRITTEN, threads, s0, steps, s, ReserveBumped(t));
  }

  /** Nothing to reuse, both mutexes free, and no more mapped than needed. */
  predicate Open(s: State) { s.freeList == [] && s.freeListMutex.None? && s.slotAllocationMutex.None? && Tight(s) }

  /** A thread past the limit test that finds the free list empty claims the next slot. */
  lemma ClaimFresh(threads: set<Tid>, s0: State, steps1: seq<Step>, s1: State, t: Tid)
    returns (steps: seq<Step>, s: State)
    requires RunBy(AS_WRITTEN, threads, s0, steps1, s1) && t in threads && s1.At(t).WantFreeList? && Open(s1)
    ensures RunBy(AS_WRITTEN, threads, s0, steps, s) && Open(s)
    ensures s.numAddresses == s1.numAddresses + 1
    ensures s1.numAddresses in s.owner && s.owner[s1.numAddresses] == t
    ensures forall u: Tid :: s.At(u) == if u == t then Idle else s1.At(u)
  {
    steps, s := FindListEmpty(threads, s0, steps1, s1, t);
    steps, s := EnterTable(threads, s0, steps, s, t);
    steps, s := Claim(threads, s0, steps, s, t);
  }

  // ---------------------------------------------------------------- the limit test at line 75

  /** Threads between the limit test and the increment it guards. */
  predicate PastCheck(pc: Pc) {
    pc.WantFreeList? || pc.InFreeList? || pc.WantTable? || pc.InTable?
  }

  ghost predicate Limited(s: State, t: Tid) {
    s.numAddresses <= SLOT_LIMIT && (PastCheck(s.At(t)) ==> s.numAddresses < SLOT_LIMIT)
  }

  lemma LimitedStep(s: State, step: Step)
    requires Limited(s, step.t) && Enabled(AS_WRITTEN, s, step)
    ensures Limited(Do(AS_WRITTEN, s, step), step.t)
  {
  }

  /** A single thread never exceeds the limit, and so never needs a second page. */
  lemma {:induction false} LimitedRun(s: State, steps: seq<Step>, end: State, t: Tid)
    requires Inv(s) && Limited(s, t) && RunBy(AS_WRITTEN, {t}, s, steps, end)
    ensures end.numAddresses <= SLOT_LIMIT && !GrowthFails(steps)
    decreases |steps|
  {
    if steps != [] {
      assert steps[0] in steps;
      InvStep(AS_WRITTEN, s, steps[0]);
      LimitedStep(s, steps[0]);
      forall step | step in steps[1..] ensures step.t in {t} { assert step in steps; }
      LimitedRun(Do(AS_WRITTEN, s, steps[0]), steps[1..], end, t);
      GrowthFailsCons(steps);
    }
  }

  /** No call in progress, nothing to reuse, `n` addresses. */
  ghost predicate Quiet(s: State, n: nat) {
    Open(s) && s.numAddresses == n && (forall t: Tid :: s.At(t) == Idle)
  }

  lemma {:induction false} FillUpTo(threads: set<Tid>, t: Tid, n: nat) returns (steps: seq<Step>, s: State)
    requires t in threads && 1 <= n <= SLOT_LIMIT
    ensures RunBy(AS_WRITTEN, threads, Init(), steps, s) && Quiet(s, n)
  {
    if n == 1 {
      steps, s := [], Init();
    } else {
      steps, s := FillUpTo(threads, t, n - 1);
      steps, s := OneMore(threads, steps, s, t, n - 1);
    }
  }

  lemma OneMore(threads: set<Tid>, steps1: seq<Step>, s1: State, t: Tid, n: nat) returns (steps: seq<Step>, s: State)
    requires RunBy(AS_WRITTEN, threads, Init(), steps1, s1) && t in threads && Quiet(s1, n) && n != SLOT_LIMIT
    ensures RunBy(AS_WRITTEN, threads, Init(), steps, s) && Quiet(s, n + 1)
  {
    steps, s := Extend(AS_WRITTEN, threads, Init(), steps1, s1, CheckLimit(t));
    assert forall u: Tid :: s.At(u) == if u == t then WantFreeList else s1.At(u);
    steps, s := ClaimFresh(threads, Init(), steps, s, t);
  }

  /** Both pass the unsynchronised test before either increments. */
  lemma Overshoot(threads: set<Tid>, t: Tid, u: Tid) returns (steps: seq<Step>, s: State)
    requires t in threads && u in threads && t != u
    ensures RunBy(AS_WRITTEN, threads, Init(), steps, s) && Quiet(s, SLOT_LIMIT + 1)
  {
    steps, s := FillUpTo(threads, t, SLOT_LIMIT - 1);
    var quiet := s;
    assert s.At(t) == Idle && s.At(u) == Idle;
    steps, s := Extend(AS_WRITTEN, threads, Init(), steps, s, CheckLimit(t));
    steps, s := Extend(AS_WRITTEN, threads, Init(), steps, s, CheckLimit(u));
    assert forall v: Tid :: s.At(v) == if v == t || v == u then WantFreeList else quiet.At(v);
    steps, s := ClaimFresh(threads, Init(), steps, s, t);
    steps, s := ClaimFresh(threads, Init(), steps, s, u);
  }

  /** The test is for equality: past the limit it never fires again. */
  lemma {:induction false} FillBeyond(threads: set<Tid>, t: Tid, u: Tid, n: nat) returns (steps: seq<Step>, s: State)
    requires t in threads && u in threads && t != u && n > SLOT_LIMIT
    ensures RunBy(AS_WRITTEN, threads, Init(), steps, s) && Quiet(s, n)
    decreases n
  {
    if n == SLOT_LIMIT + 1 {
      steps, s := Overshoot(threads, t, u);
    } else {
      steps, s := FillBeyond(threads, t, u, n - 1);
      steps, s := OneMore(threads, steps, s, t, n - 1);
    }
  }

  lemma TwoOf(threads: set<Tid>) returns (t: Tid, u: Tid)
    requires |threads| > 1
    ensures t in threads && u in threads && t != u
  {
    t :| t in threads;
    assert |threads - {t}| == |threads| - 1;
    u :| u in threads - {t};
  }

  /** Any two threads can come to any number of addresses. */
  lemma NoBoundForTwo(threads: set<Tid>, n: nat) returns (steps: seq<Step>, s: State)
    requires |threads| > 1 && n >= 1
    ensures RunBy(AS_WRITTEN, threads, Init(), steps, s) && Quiet(s, n)
  {
    var t, u := TwoOf(threads);
    if n <= SLOT_LIMIT {
      steps, s := FillUpTo(threads, t, n);
    } else {
      steps, s := FillBeyond(threads, t, u, n);
    }
  }

  lemma OnlyOneOf(threads: set<Tid>) returns (t: Tid)
    requires |threads| <= 1
    ensures threads <= {t}
  {
    t := 0;
    if threads != {} {
      t :| t in threads;
      assert |threads - {t}| == 0;
    }
  }

  lemma ByMore(threads: set<Tid>, more: set<Tid>, steps: seq<Step>)
    requires By(threads, steps) && threads <= more
    ensures By(more, steps)
  {
  }

  lemma AloneIsLimited(threads: set<Tid>, steps: seq<Step>, s: State)
    requires |threads| <= 1 && RunBy(AS_WRITTEN, threads, Init(), steps, s)
    ensures s.numAddresses <= SLOT_LIMIT && !GrowthFails(steps)
  {
    var t := OnlyOneOf(threads);
    ByMore(threads, {t}, steps);
    InitInv();
    LimitedRun(Init(), steps, s, t);
  }

  /** As written the limit holds in all runs of a set of threads if and only if it is a single thread. */
  lemma LimitHoldsIff(threads: set<Tid>)
    ensures (forall steps, s :: RunBy(AS_WRITTEN, threads, Init(), steps, s) ==> s.numAddresses <= SLOT_LIMIT)
      <==> |threads| <= 1
  {
    if |threads| <= 1 {
      forall steps, s | RunBy(AS_WRITTEN, threads, Init(), steps, s) ensures s.numAddresses <= SLOT_LIMIT {
        AloneIsLimited(threads, steps, s);
      }
    } else {
      var steps, s := NoBoundForTwo(threads, SLOT_LIMIT + 1);
    }
  }

  /** Tested under the mutex, the limit holds in all runs of any number of threads. */
  lemma LimitHoldsLocked(cfg: Config, steps: seq<Step>, s: State)
    requires cfg.testsLocked && Run(cfg, Init(), steps, s)
    ensures s.numAddresses <= SLOT_LIMIT
  {
    LockedRun(cfg, Init(), steps, s);
  }

  lemma {:induction false} LockedRun(cfg: Config, s: State, steps: seq<Step>, end: State)
    requires cfg.testsLocked && Run(cfg, s, steps, end) && s.numAddresses <= SLOT_LIMIT
    ensures end.numAddresses <= SLOT_LIMIT
    decreases |steps|
  {
    if steps != [] {
      LockedRun(cfg, Do(cfg, s, steps[0]), steps[1..], end);
    }
  }

  /**
    As written a growth can fail, and leave the table mutex held for ever, if and only if
    there are two threads: alone, the limit keeps the table within its first page.
   */
  lemma GrowthCanFailIff(threads: set<Tid>)
    ensures (exists steps, s :: RunBy(AS_WRITTEN, threads, Init(), steps, s) && GrowthFails(steps) && Frozen(s))
      <==> |threads| > 1
  {
    if |threads| > 1 {
      var steps, s := FailToGrow(threads);
    } else {
      forall steps, s | RunBy(AS_WRITTEN, threads, Init(), steps, s) ensures !GrowthFails(steps) {
        AloneIsLimited(threads, steps, s);
      }
    }
  }

  lemma FailToGrow(threads: set<Tid>) returns (steps: seq<Step>, s: State)
    requires |threads| > 1
    ensures RunBy(AS_WRITTEN, threads, Init(), steps, s) && GrowthFails(steps) && Frozen(s)
  {
    var t :| t in threads;
    steps, s := NoBoundForTwo(threads, ADDR_PER_PAGE);
    assert s.numPages == 1;
    steps, s := Extend(AS_WRITTEN, threads, Init(), steps, s, CheckLimit(t));
    steps, s := FindListEmpty(threads, Init(), steps, s, t);
    steps, s := Extend(AS_WRITTEN, threads, Init(), steps, s, LockTable(t));
    steps, s := Extend(AS_WRITTEN, threads, Init(), steps, s, Grow(t, false));
    assert steps[|steps| - 1].Grow?;
    FailedGrowthLeaksTheMutex(AS_WRITTEN, steps, s, [], s);
  }

  // ---------------------------------------------------------------- one thread, not interrupted

  function View(s: State): Slots { Slots(s.freeList, s.numAddresses, SLOT_LIMIT) }

  predicate Undisturbed(s: State, t: Tid) {
    s.At(t).Idle? && s.freeListMutex.None? && s.slotAllocationMutex.None? && Tight(s)
  }

  lemma PopAlone(s1: State, t: Tid) returns (steps: seq<Step>, s: State)
    requires s1.At(t) == WantFreeList && s1.freeListMutex.None? && s1.freeList != []
    ensures RunBy(AS_WRITTEN, {t}, s1, steps, s)
    ensures s == s1.(pcs := s.pcs, freeList := s1.freeList[1..], numFragmentedFree := s1.numFragmentedFree - 1)
    ensures s.At(t) == Reusing(s1.freeList[0])
  {
    steps, s := Extend(AS_WRITTEN, {t}, s1, [], s1, LockFreeList(t));
    steps, s := Extend(AS_WRITTEN, {t}, s1, steps, s, TakeCount(t));
    steps, s := Extend(AS_WRITTEN, {t}, s1, steps, s, PopHead(t));
    steps, s := Extend(AS_WRITTEN, {t}, s1, steps, s, UnlockFreeList(t));
  }

  lemma {:induction false} RunAppend(cfg: Config, threads: set<Tid>, s: State, first: seq<Step>, mid: State,
                                     second: seq<Step>, end: State)
    requires RunBy(cfg, threads, s, first, mid) && RunBy(cfg, threads, mid, second, end)
    ensures RunBy(cfg, threads, s, first + second, end)
    decreases |first|
  {
    if first == [] {
      assert first + second == second;
    } else {
      assert (first + second)[1..] == first[1..] + second;
      assert By(threads, first[1..]);
      RunAppend(cfg, threads, Do(cfg, s, first[0]), first[1..], mid, second, end);
    }
  }

  /** An allocation that nobody interrupts is the sequential one, when the kernel grants the page it may need. */
  lemma AllocatesAlone(s1: State, t: Tid) returns (steps: seq<Step>, s: State)
    requires Undisturbed(s1, t)
    ensures RunBy(AS_WRITTEN, {t}, s1, steps, s) && s.At(t) == Idle
    ensures var (view, slot) := AllocateSlot(View(s1));
      View(s) == view && (slot != 0 ==> slot in s.owner && s.owner[slot] == t && s.Get(slot) == Reserved)
  {
    steps, s := Extend(AS_WRITTEN, {t}, s1, [], s1, CheckLimit(t));
    if s1.numAddresses != SLOT_LIMIT {
      if s1.freeList == [] {
        steps, s := FindListEmpty({t}, s1, steps, s, t);
        steps, s := EnterTable({t}, s1, steps, s, t);
        steps, s := Claim({t}, s1, steps, s, t);
      } else {
        var more, mid := PopAlone(s, t);
        RunAppend(AS_WRITTEN, {t}, s1, steps, s, more, mid);
        steps, s := Extend(AS_WRITTEN, {t}, s1, steps + more, mid, ReserveReused(t));
      }
    }
  }

  lemma ClearAlone(s1: State, t: Tid, slot: Slot) returns (steps: seq<Step>, s: State)
    requires Undisturbed(s1, t) && slot in s1.owner && s1.owner[slot] == t
    ensures RunBy(AS_WRITTEN, {t}, s1, steps, s)
    ensures s ==
      s1.(pcs := s.pcs, owner := s1.owner - {slot}, table := s1.table[slot := Null], slotAllocationMutex := Some(t))
    ensures s.At(t) == InTrim(slot)
  {
    steps, s := Extend(AS_WRITTEN, {t}, s1, [], s1, BeginFree(t, slot));
    steps, s := Extend(AS_WRITTEN, {t}, s1, steps, s, Clear(t));
    steps, s := Extend(AS_WRITTEN, {t}, s1, steps, s, LockTable(t));
  }

  lemma TrimAlone(s1: State, t: Tid) returns (steps: seq<Step>, s: State)
    requires s1.At(t).InTrim? && s1.numAddresses > 0
    ensures RunBy(AS_WRITTEN, {t}, s1, steps, s)
    ensures var top := s1.At(t).slot + 1 == s1.numAddresses;
      && s.At(t) == (if top then Idle else NeedsNode(s1.At(t).slot))
      && s.numAddresses == (if top then s1.numAddresses - 1 else s1.numAddresses)
      && s.freeList == s1.freeList && s.freeListMutex == s1.freeListMutex
  {
    steps, s := Extend(AS_WRITTEN, {t}, s1, [], s1, TrimOrCount(t));
    steps, s := Extend(AS_WRITTEN, {t}, s1, steps, s, UnlockTable(t));
  }

  lemma LinkAlone(s1: State, t: Tid) returns (steps: seq<Step>, s: State)
    requires s1.At(t).NeedsNode? && s1.freeListMutex.None?
    ensures RunBy(AS_WRITTEN, {t}, s1, steps, s)
    ensures s.At(t) == Idle && s.freeList == [s1.At(t).slot] + s1.freeList && s.numAddresses == s1.numAddresses
  {
    steps, s := Extend(AS_WRITTEN, {t}, s1, [], s1, AllocateNode(t, true));
    steps, s := Extend(AS_WRITTEN, {t}, s1, steps, s, LockFreeList(t));
    steps, s := Extend(AS_WRITTEN, {t}, s1, steps, s, Link(t));
    steps, s := Extend(AS_WRITTEN, {t}, s1, steps, s, UnlockFreeList(t));
  }

  /** So is a release, when there is memory for its node. */
  lemma FreesAlone(s1: State, t: Tid, slot: Slot) returns (steps: seq<Step>, s: State)
    requires Undisturbed(s1, t) && slot in s1.owner && s1.owner[slot] == t && slot != 0
    ensures RunBy(AS_WRITTEN, {t}, s1, steps, s) && s.At(t) == Idle
    ensures View(s) == FreeSlot(View(s1), slot)
  {
    steps, s := ClearAlone(s1, t, slot);
    var more, mid := TrimAlone(s, t);
    RunAppend(AS_WRITTEN, {t}, s1, steps, s, more, mid);
    steps, s := steps + more, mid;
    if s.At(t) != Idle {
      more, mid := LinkAlone(s, t);
      RunAppend(AS_WRITTEN, {t}, s1, steps, s, more, mid);
      steps, s := steps + more, mid;
    }
  }
}
