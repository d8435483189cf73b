/**
  What `compactAddressTable` (indirection.c) promises its client, the commented-out loop at
  gc.c:147-176: the relocation list, and what applying it to every reference does.
 */
module Compaction {
  import opened SlotTypes
  import opened Wrappers

  /** One `compact_res_t`: what was at `oldSlot` is now at `newSlot`. */
  datatype Move = Move(oldSlot: Slot, newSlot: Slot)

  // ---------------------------------------------------------------- the relocation relation

  predicate IsOld(moves: seq<Move>, x: Slot) { exists i :: 0 <= i < |moves| && moves[i].oldSlot == x }

  predicate IsNew(moves: seq<Move>, x: Slot) { exists i :: 0 <= i < |moves| && moves[i].newSlot == x }

  predicate Untouched(moves: seq<Move>, x: Slot) { !IsOld(moves, x) && !IsNew(moves, x) }

  /** How one turn of the outer loop ends. */
  datatype Turn = Moved | OutOfMemory | Finished

  /** Two fingers: later moves (nearer the head) have a larger target and a smaller source. */
  predicate Nested(moves: seq<Move>) {
    && (forall i :: 0 <= i < |moves| ==> 1 <= moves[i].newSlot < moves[i].oldSlot)
    && (forall i, j :: 0 <= i < j < |moves| ==>
          moves[j].newSlot < moves[i].newSlot && moves[i].oldSlot < moves[j].oldSlot)
  }

  /** `u` is `t` with the entries of `moves` carried over, and nothing else changed. */
  ghost predicate Relocates(t: seq<Address>, u: seq<Address>, n: nat, moves: seq<Move>) {
    && n <= |t| == |u|
    && Nested(moves)
    && (forall i :: 0 <= i < |moves| ==>
          && moves[i].oldSlot < n
          && t[moves[i].newSlot].Null? && !t[moves[i].oldSlot].Null?
          && u[moves[i].newSlot] == t[moves[i].oldSlot] && u[moves[i].oldSlot].Null?)
    && (forall x {:trigger Untouched(moves, x)} :: 0 <= x < |t| && Untouched(moves, x) ==> u[x] == t[x])
  }

  /** The live slots are 1, 2, .. without a gap. */
  ghost predicate LivePrefix(t: seq<Address>, n: nat)
    requires n <= |t|
  {
    forall x, y :: 1 <= x < y < n && !t[y].Null? ==> !t[x].Null?
  }

  /** The two fingers have moved past every entry that was touched. */
  lemma FingersUntouched(t: seq<Address>, u: seq<Address>, n: nat, moves: seq<Move>, start: Slot, end: Slot)
    requires Relocates(t, u, n, moves)
    requires 1 <= start < end < n && u[start].Null? && !u[end].Null?
    requires moves != [] ==> moves[0].newSlot <= start && end <= moves[0].oldSlot
    ensures Nested([Move(end, start)] + moves)
    ensures !IsOld(moves, start) && !IsNew(moves, start) && !IsOld(moves, end) && !IsNew(moves, end)
  {
    if moves != [] {
      assert moves[0].newSlot < start && end < moves[0].oldSlot;
    }
  }

  lemma MentionedCons(m: Move, moves: seq<Move>, x: Slot)
    ensures IsOld([m] + moves, x) <==> m.oldSlot == x || IsOld(moves, x)
    ensures IsNew([m] + moves, x) <==> m.newSlot == x || IsNew(moves, x)
  {
    var more := [m] + moves;
    assert more[0] == m;
    if IsOld(moves, x) { var i :| 0 <= i < |moves| && moves[i].oldSlot == x; assert more[i + 1].oldSlot == x; }
    if IsNew(moves, x) { var i :| 0 <= i < |moves| && moves[i].newSlot == x; assert more[i + 1].newSlot == x; }
  }

  /** One turn of the outer loop: the entry under the right finger goes to the hole under the left one. */
  lemma RelocateOne(t: seq<Address>, u: seq<Address>, n: nat, moves: seq<Move>, start: Slot, end: Slot)
    requires Relocates(t, u, n, moves)
    requires 1 <= start < end < n && u[start].Null? && !u[end].Null?
    requires moves != [] ==> moves[0].newSlot <= start && end <= moves[0].oldSlot
    ensures Relocates(t, u[start := u[end]][end := Null], n, [Move(end, start)] + moves)
  {
    FingersUntouched(t, u, n, moves, start, end);
    assert Untouched(moves, start) && Untouched(moves, end);
    var more, v := [Move(end, start)] + moves, u[start := u[end]][end := Null];
    forall i | 0 <= i < |more|
      ensures more[i].oldSlot < n && t[more[i].newSlot].Null? && !t[more[i].oldSlot].Null?
      ensures v[more[i].newSlot] == t[more[i].oldSlot] && v[more[i].oldSlot].Null?
    {
      if i > 0 {
        assert more[i] == moves[i - 1];
      }
    }
    forall x | 0 <= x < |t| && Untouched(more, x) ensures v[x] == t[x] {
      MentionedCons(Move(end, start), moves, x);
      assert Untouched(moves, x);
    }
  }

  /** Where the fingers meet when the loop runs to its end. */
  lemma FingersMeet(t: seq<Address>, u: seq<Address>, n: nat, moves: seq<Move>, start: Slot, end: nat)
    requires Relocates(t, u, n, moves) && 1 <= n
    requires end < n && 1 <= start && (start == end || (start == 1 && end == 0 && n == 1))
    requires forall x :: 1 <= x < start ==> !u[x].Null?
    requires forall x :: end < x < n ==> u[x].Null?
    requires start < n - 1 ==> u[start].Null?
    ensures LivePrefix(u, n)
    ensures n - 1 - end == Retreats(LiveCount(t, n), n)
  {
    LiveCountKept(t, u, n, moves);
    assert LivePrefix(u, n);
    if end > 0 {
      PrefixEnds(u, n, end);
      if u[end].Null? {
        if end > 1 { PrefixEnds(u, n, end - 1); }
        assert LiveCount(u, n) == end - 1;
      } else {
        assert LiveCount(u, n) == end == n - 1;
      }
    }
  }

  predicate NullFrom(t: seq<Address>, n: nat) { forall x :: n <= x < |t| ==> t[x].Null? }

  /** What holds between two turns of the outer loop. */
  ghost predicate Fingers(t: seq<Address>, u: seq<Address>, n: nat, moves: seq<Move>, start: Slot, end: nat) {
    && Relocates(t, u, n, moves)
    && 1 <= start && end < n && (start <= end || (start == 1 && end == 0 && n == 1))
    && (forall x :: 1 <= x < start ==> !u[x].Null?)
    && (forall x :: end < x < n ==> u[x].Null?)
    && (moves != [] ==> moves[0].newSlot <= start && end <= moves[0].oldSlot)
  }

  /** The fingers move inwards over live entries on the left and over holes on the right. */
  predicate Scanned(u: seq<Address>, start0: Slot, end0: nat, start: Slot, end: nat) {
    && end0 < |u|
    && (if start0 <= end0 then start0 <= start <= end <= end0 else start == start0 && end == end0)
    && (forall x :: start0 <= x < start ==> !u[x].Null?)
    && (forall x :: end < x <= end0 ==> u[x].Null?)
    && (start < end ==> u[start].Null? && !u[end].Null?)
    && (start < end0 ==> u[start].Null?)
  }

  lemma FingersStart(t: seq<Address>, n: nat)
    requires 1 <= n <= |t|
    ensures Fingers(t, t, n, [], 1, n - 1)
  {
  }

  lemma FingersScan(t: seq<Address>, u: seq<Address>, n: nat, moves: seq<Move>,
                    start0: Slot, end0: nat, start: Slot, end: nat)
    requires Fingers(t, u, n, moves, start0, end0) && Scanned(u, start0, end0, start, end)
    ensures Fingers(t, u, n, moves, start, end)
  {
  }

  lemma FingersMove(t: seq<Address>, u: seq<Address>, n: nat, moves: seq<Move>, start: Slot, end: nat)
    requires Fingers(t, u, n, moves, start, end) && start < end && u[start].Null? && !u[end].Null?
    ensures Fingers(t, u[start := u[end]][end := Null], n, [Move(end, start)] + moves, start, end)
  {
    RelocateOne(t, u, n, moves, start, end);
  }

  /** Nothing is left at or above what line 247 stored. */
  lemma NullAbove(t: seq<Address>, u: seq<Address>, n: nat, moves: seq<Move>, start: Slot, end: nat)
    requires Fingers(t, u, n, moves, start, end)
    requires NullFrom(t, n)
    ensures 1 <= AddressesAfter(moves, n) <= n
    ensures NullFrom(u, AddressesAfter(moves, n))
  {
    forall x | AddressesAfter(moves, n) <= x < |u| ensures u[x].Null? {
      if x >= n {
        assert Untouched(moves, x);
      } else {
        assert x > end || x == moves[0].oldSlot;
      }
    }
  }

  lemma FingersDone(t: seq<Address>, u: seq<Address>, n: nat, moves: seq<Move>,
                    start0: Slot, end0: nat, start: Slot, end: nat)
    requires Fingers(t, u, n, moves, start0, end0) && Scanned(u, start0, end0, start, end)
    requires !(start < end) && (end0 < n - 1 ==> u[end0].Null?)
    ensures LivePrefix(u, n)
    ensures n - 1 - end == Retreats(LiveCount(t, n), n)
  {
    FingersScan(t, u, n, moves, start0, end0, start, end);
    assert start < n - 1 ==> u[start].Null?;
    FingersMeet(t, u, n, moves, start, end);
  }

  /** Line 230 ends with the right finger on the last live slot, or on the hole next to it. */
  predicate EndsAtLive(u: seq<Address>, end: nat)
    requires end < |u|
  {
    end <= 1 || !u[end].Null? || !u[end - 1].Null?
  }

  /** The loop of line 230 after `|moves|` moves: `removed` is what the fragment count has lost so far. */
  ghost predicate Progress(t: seq<Address>, u: seq<Address>, n: nat, moves: seq<Move>, start: Slot, end: nat,
                           turn: Turn, removed: int, budget: nat) {
    && Fingers(t, u, n, moves, start, end)
    && removed == |moves| + (n - 1 - end)
    && |moves| <= budget
    && (turn.Moved? && end < n - 1 ==> u[end].Null?)
    && (turn.OutOfMemory? ==> |moves| == budget < Gaps(t, LiveCount(t, n)))
    && (turn.Finished? ==> LivePrefix(u, n) && n - 1 - end == Retreats(LiveCount(t, n), n))
    && (!turn.Moved? ==> EndsAtLive(u, end))
  }

  /** There is a node for every gap in front of the live entries, so no allocation fails. */
  predicate Enough(t: seq<Address>, n: nat, budget: nat)
    requires 1 <= n <= |t|
  {
    Gaps(t, LiveCount(t, n)) <= budget
  }

  /** What a compaction with memory for `budget` nodes has done to the table when it returns. */
  ghost predicate Compacted(t: seq<Address>, u: seq<Address>, n: nat, moves: seq<Move>, budget: nat) {
    && Relocates(t, u, n, moves)
    && 1 <= AddressesAfter(moves, n) <= n && NullFrom(u, AddressesAfter(moves, n))
    && |moves| == (if Enough(t, n, budget) then Gaps(t, LiveCount(t, n)) else budget)
    && (Enough(t, n, budget) ==> LivePrefix(u, n))
  }

  /**
    What it has taken off the fragment count, and the top it has left.  `countsOnce` false is
    the code as written; true stores the top behind the last live slot and takes off what
    that cuts away.
   */
  ghost predicate Accounts(t: seq<Address>, u: seq<Address>, n: nat, moves: seq<Move>, budget: nat,
                           countsOnce: bool, top: nat, removed: int)
    requires 1 <= n <= |t| == |u|
  {
    if countsOnce then
      removed == n - top && 1 <= top <= n && NullFrom(u, top) && (top > 1 ==> !u[top - 1].Null?)
    else
      top == AddressesAfter(moves, n) && (Enough(t, n, budget) ==> removed == |moves| + Retreats(LiveCount(t, n), n))
  }

  function TopBehind(u: seq<Address>, end: nat): nat
    requires end < |u|
  {
    if end > 0 && u[end].Null? then end else end + 1
  }

  lemma ProgressDone(t: seq<Address>, u: seq<Address>, n: nat, moves: seq<Move>, start: Slot, end: nat,
                     turn: Turn, removed: int, budget: nat)
    requires Progress(t, u, n, moves, start, end, turn, removed, budget) && !turn.Moved? && NullFrom(t, n)
    ensures Compacted(t, u, n, moves, budget)
    ensures Accounts(t, u, n, moves, budget, false, AddressesAfter(moves, n), removed)
    ensures Accounts(t, u, n, moves, budget, true, TopBehind(u, end), n - TopBehind(u, end))
  {
    NullAbove(t, u, n, moves, start, end);
    TopIsTight(t, u, n, moves, start, end);
    if turn.Finished? { MovesAreGaps(t, u, n, moves); }
  }

  /** An allocation fails only when there is another gap and another live entry behind it. */
  lemma AnotherGap(t: seq<Address>, u: seq<Address>, n: nat, moves: seq<Move>, start: Slot, end: nat)
    requires Fingers(t, u, n, moves, start, end) && start < end && u[start].Null? && !u[end].Null?
    ensures |moves| < Gaps(t, LiveCount(t, n))
  {
    LiveCountKept(t, u, n, moves);
    AllFilled(t, u, n, moves, start, end);
    LiveBehind(u, n, start, end);
    GapsGrow(t, start, LiveCount(t, n));
  }

  lemma AllFilled(t: seq<Address>, u: seq<Address>, n: nat, moves: seq<Move>, start: Slot, end: nat)
    requires Fingers(t, u, n, moves, start, end) && start < end && u[start].Null?
    ensures Gaps(t, start) == |moves| + 1
  {
    forall i | 0 <= i < |moves| ensures moves[i].newSlot < start + 1 <= moves[i].oldSlot {
      assert moves[i].newSlot <= moves[0].newSlot && moves[0].oldSlot <= moves[i].oldSlot;
    }
    MovesFill(t, u, n, moves, start + 1);
    AllLive(u, start);
  }

  lemma LiveBehind(u: seq<Address>, n: nat, start: Slot, end: nat)
    requires 1 <= start < end < n <= |u| && !u[end].Null? && forall x :: 1 <= x < start ==> !u[x].Null?
    ensures start <= LiveCount(u, n)
  {
    AllLive(u, start);
    LiveCountBelow(u, start, end);
    LiveCountBelow(u, end + 1, n);
  }

  lemma {:induction false} LiveCountBelow(t: seq<Address>, m: nat, n: nat)
    requires m <= n <= |t|
    ensures LiveCount(t, m) <= LiveCount(t, n)
  {
    if m < n { LiveCountBelow(t, m, n - 1); }
  }

  lemma {:induction false} GapsGrow(t: seq<Address>, a: nat, b: nat)
    requires a <= b < |t|
    ensures Gaps(t, a) <= Gaps(t, b)
  {
    if a < b { GapsGrow(t, a, b - 1); }
  }

  lemma TopIsTight(t: seq<Address>, u: seq<Address>, n: nat, moves: seq<Move>, start: Slot, end: nat)
    requires Fingers(t, u, n, moves, start, end) && EndsAtLive(u, end) && NullFrom(t, n)
    ensures var top := TopBehind(u, end); 1 <= top <= n && NullFrom(u, top) && (top > 1 ==> !u[top - 1].Null?)
  {
    forall x | n <= x < |u| ensures u[x].Null? {
      assert Untouched(moves, x);
    }
  }

  lemma NestedApart(moves: seq<Move>)
    requires Nested(moves)
    ensures forall i, j :: 0 <= i < |moves| && 0 <= j < |moves| ==> moves[i].newSlot < moves[j].oldSlot
    ensures forall x :: !(IsOld(moves, x) && IsNew(moves, x))
  {
    forall i, j | 0 <= i < |moves| && 0 <= j < |moves| ensures moves[i].newSlot < moves[j].oldSlot {
      var k := if i < j then i else j;
      assert moves[i].newSlot <= moves[k].newSlot < moves[k].oldSlot <= moves[j].oldSlot;
    }
  }

  // ---------------------------------------------------------------- substitution

  /** Simultaneous substitution: a source goes to its target, everything else stays. */
  function Remap(moves: seq<Move>, x: Slot): Slot {
    if moves == [] then x
    else if moves[0].oldSlot == x then moves[0].newSlot
    else Remap(moves[1..], x)
  }

  /** One pass of the client over one reference field, node after node. */
  function ApplyAll(order: seq<Move>, x: Slot): Slot {
    if order == [] then x
    else ApplyAll(order[1..], if x == order[0].oldSlot then order[0].newSlot else x)
  }

  lemma {:induction false} RemapCases(moves: seq<Move>, x: Slot)
    ensures !IsOld(moves, x) ==> Remap(moves, x) == x
    ensures IsOld(moves, x) ==> exists i :: 0 <= i < |moves| && moves[i] == Move(x, Remap(moves, x))
  {
    if moves != [] && moves[0].oldSlot != x {
      RemapCases(moves[1..], x);
      if IsOld(moves, x) {
        var i :| 0 <= i < |moves| && moves[i].oldSlot == x;
        assert moves[1..][i - 1].oldSlot == x;
        var j :| 0 <= j < |moves[1..]| && moves[1..][j] == Move(x, Remap(moves[1..], x));
        assert moves[j + 1] == Move(x, Remap(moves, x));
      }
    } else if moves != [] {
      assert moves[0] == Move(x, Remap(moves, x));
    }
  }

  /** A slot that is no source passes through the whole list unchanged. */
  lemma {:induction false} NotASource(order: seq<Move>, x: Slot)
    requires forall m :: m in order ==> m.oldSlot != x
    ensures ApplyAll(order, x) == x
  {
    if order != [] {
      assert order[0] in order;
      NotASource(order[1..], x);
    }
  }

  /** In any list without chains, the node that names `x` decides alone. */
  lemma {:induction false} TheSourceDecides(order: seq<Move>, m: Move)
    requires m in order
    requires forall a :: a in order && a.oldSlot == m.oldSlot ==> a == m
    requires forall a :: a in order ==> a.oldSlot != m.newSlot
    ensures ApplyAll(order, m.oldSlot) == m.newSlot
  {
    assert order[0] in order;
    if order[0] == m {
      NotASource(order[1..], m.newSlot);
    } else {
      assert order[0].oldSlot != m.oldSlot;
      TheSourceDecides(order[1..], m);
    }
  }

  /**
    Whatever the order in which the client takes the nodes, one pass over a reference is the
    simultaneous substitution.
   */
  lemma OrderDoesNotMatter(moves: seq<Move>, order: seq<Move>, x: Slot)
    requires Nested(moves) && multiset(order) == multiset(moves)
    ensures ApplyAll(order, x) == Remap(moves, x)
  {
    NestedApart(moves);
    RemapCases(moves, x);
    forall m: Move ensures m in order <==> m in moves {
      assert m in order <==> m in multiset(order);
    }
    if IsOld(moves, x) {
      var i :| 0 <= i < |moves| && moves[i] == Move(x, Remap(moves, x));
      forall a | a in order && a.oldSlot == x ensures a == moves[i] {
        var j :| 0 <= j < |moves| && moves[j] == a;
      }
      TheSourceDecides(order, moves[i]);
    } else {
      forall m | m in order ensures m.oldSlot != x {
        var j :| 0 <= j < |moves| && moves[j] == m;
      }
      NotASource(order, x);
    }
  }

  // ---------------------------------------------------------------- meaning

  /** Every live slot's address is found at its remapped slot. */
  lemma LiveSlotFollows(t: seq<Address>, u: seq<Address>, n: nat, moves: seq<Move>, x: Slot)
    requires Relocates(t, u, n, moves) && x < n
    requires x == 0 || !t[x].Null?
    ensures Remap(moves, x) <= x && u[Remap(moves, x)] == t[x]
  {
    RemapCases(moves, x);
    if IsOld(moves, x) {
      var i :| 0 <= i < |moves| && moves[i] == Move(x, Remap(moves, x));
    } else {
      assert Untouched(moves, x);
    }
  }

  /** No two live slots are merged. */
  lemma RemapIsInjective(t: seq<Address>, u: seq<Address>, n: nat, moves: seq<Move>, x: Slot, y: Slot)
    requires Relocates(t, u, n, moves) && x < n && y < n && x != y
    requires (x == 0 || !t[x].Null?) && (y == 0 || !t[y].Null?)
    ensures Remap(moves, x) != Remap(moves, y)
  {
    LiveIsNoTarget(t, u, n, moves, x);
    LiveIsNoTarget(t, u, n, moves, y);
    RemapApart(moves, x, y);
  }

  lemma LiveIsNoTarget(t: seq<Address>, u: seq<Address>, n: nat, moves: seq<Move>, x: Slot)
    requires Relocates(t, u, n, moves) && x < n && (x == 0 || !t[x].Null?)
    ensures !IsNew(moves, x) && Nested(moves)
  {
  }

  lemma RemapApart(moves: seq<Move>, x: Slot, y: Slot)
    requires Nested(moves) && !IsNew(moves, x) && !IsNew(moves, y) && x != y
    ensures Remap(moves, x) != Remap(moves, y)
  {
    RemapCases(moves, x);
    RemapCases(moves, y);
    if IsOld(moves, x) && IsOld(moves, y) {
      var i :| 0 <= i < |moves| && moves[i] == Move(x, Remap(moves, x));
      var j :| 0 <= j < |moves| && moves[j] == Move(y, Remap(moves, y));
    } else if IsOld(moves, x) {
      var i :| 0 <= i < |moves| && moves[i] == Move(x, Remap(moves, x));
    } else if IsOld(moves, y) {
      var j :| 0 <= j < |moves| && moves[j] == Move(y, Remap(moves, y));
    }
  }

  /** Nothing comes alive: a live slot of the new table is the image of a live slot of the old one. */
  lemma NothingAppears(t: seq<Address>, u: seq<Address>, n: nat, moves: seq<Move>, y: Slot)
    requires Relocates(t, u, n, moves) && y < n && !u[y].Null?
    ensures exists x :: 0 <= x < n && !t[x].Null? && Remap(moves, x) == y
  {
    NestedApart(moves);
    assert !IsOld(moves, y);
    if IsNew(moves, y) {
      var i :| 0 <= i < |moves| && moves[i].newSlot == y;
      var x := moves[i].oldSlot;
      RemapCases(moves, x);
      assert IsOld(moves, x);
      var j :| 0 <= j < |moves| && moves[j] == Move(x, Remap(moves, x));
      assert i == j;
    } else {
      RemapCases(moves, y);
      assert Untouched(moves, y);
    }
  }

  /** The reference fields of every object, as slots. */
  type References = map<nat, seq<Slot>>

  /** The client's loop over all fields of all live objects. */
  function Redirected(refs: References, order: seq<Move>): References {
    map id | id in refs :: seq(|refs[id]|, i requires 0 <= i < |refs[id]| => ApplyAll(order, refs[id][i]))
  }

  /** A reference is the null slot 0 or names a live slot. */
  predicate IsReference(t: seq<Address>, n: nat, x: Slot)
    requires n <= |t|
  {
    x < n && (x == 0 || !t[x].Null?)
  }

  ghost predicate NoDanglingReference(t: seq<Address>, n: nat, refs: References)
    requires n <= |t|
  {
    forall id, i :: id in refs && 0 <= i < |refs[id]| ==> IsReference(t, n, refs[id][i])
  }

  /** What a chain of field accesses, starting from slot `x`, arrives at. */
  function Resolve(t: seq<Address>, refs: References, x: Slot, path: seq<nat>): Option<Address>
    decreases |path|
  {
    if x >= |t| then None
    else if path == [] then Some(t[x])
    else if t[x].Object? && t[x].id in refs && path[0] < |refs[t[x].id]| then
      Resolve(t, refs, refs[t[x].id][path[0]], path[1..])
    else None
  }

  /**
    The reference graph is the same before and after: every chain of field accesses from
    every reference arrives at the same address, in whatever order the list was applied.
   */
  lemma {:induction false} GraphIsPreserved(t: seq<Address>, u: seq<Address>, n: nat, moves: seq<Move>,
                                            order: seq<Move>, refs: References, x: Slot, path: seq<nat>)
    requires Relocates(t, u, n, moves) && multiset(order) == multiset(moves)
    requires NoDanglingReference(t, n, refs) && IsReference(t, n, x)
    ensures Resolve(u, Redirected(refs, order), ApplyAll(order, x), path) == Resolve(t, refs, x, path)
    decreases |path|
  {
    OrderDoesNotMatter(moves, order, x);
    LiveSlotFollows(t, u, n, moves, x);
    if path != [] && t[x].Object? && t[x].id in refs && path[0] < |refs[t[x].id]| {
      GraphIsPreserved(t, u, n, moves, order, refs, refs[t[x].id][path[0]], path[1..]);
    }
  }

  /** Line 149: after its move each object is told its slot, which is read through the table. */
  function Relabelled(u: seq<Address>, own: map<nat, Slot>, order: seq<Move>): map<nat, Slot>
    requires forall m :: m in order ==> m.newSlot < |u|
    decreases |order|
  {
    if order == [] then own
    else
      assert order[0] in order;
      var a := u[order[0].newSlot];
      Relabelled(u, if a.Object? then own[a.id := order[0].newSlot] else own, order[1..])
  }

  /** Every object in the table knows the slot it is found under. */
  ghost predicate KnowTheirSlots(t: seq<Address>, own: map<nat, Slot>) {
    forall x :: 0 <= x < |t| && t[x].Object? ==> t[x].id in own && own[t[x].id] == x
  }

  /**
    With a node for every gap, line 149 never dereferences the reservation mark if and only if
    no reserved entry was behind the place of the last live one.
   */
  lemma NoReservedIsRead(t: seq<Address>, u: seq<Address>, n: nat, moves: seq<Move>, budget: nat)
    requires Compacted(t, u, n, moves, budget) && Enough(t, n, budget)
    ensures (forall i :: 0 <= i < |moves| ==> u[moves[i].newSlot].Object?)
      <==> forall x :: LiveCount(t, n) < x < n ==> !t[x].Reserved?
  {
    if forall i :: 0 <= i < |moves| ==> u[moves[i].newSlot].Object? {
      forall x | LiveCount(t, n) < x < n ensures !t[x].Reserved? {
        LiveCountKept(t, u, n, moves);
        PrefixEnds(u, n, x);
        NullNowWasOld(t, u, n, moves, x);
        if IsOld(moves, x) {
          var i :| 0 <= i < |moves| && moves[i].oldSlot == x;
          assert u[moves[i].newSlot].Object?;
        }
      }
    } else {
      var i :| 0 <= i < |moves| && !u[moves[i].newSlot].Object?;
      OldsAreAbove(t, u, n, moves, i);
      assert t[moves[i].oldSlot].Reserved?;
    }
  }

  lemma {:induction false} RelabelledAt(u: seq<Address>, own: map<nat, Slot>, order: seq<Move>, id: nat, y: Slot)
    requires forall m :: m in order ==> m.newSlot < |u|
    requires forall m :: m in order && u[m.newSlot] == Object(id) ==> m.newSlot == y
    ensures var after := Relabelled(u, own, order);
      if exists m :: m in order && u[m.newSlot] == Object(id) then id in after && after[id] == y
      else (id in after <==> id in own) && (id in own ==> after[id] == own[id])
    decreases |order|
  {
    if order != [] {
      assert order[0] in order;
      var a, rest := u[order[0].newSlot], order[1..];
      RelabelledAt(u, if a.Object? then own[a.id := order[0].newSlot] else own, rest, id, y);
      forall m | m in order ensures m == order[0] || m in rest {
        var i :| 0 <= i < |order| && order[i] == m;
        assert i > 0 ==> rest[i - 1] == m;
      }
    }
  }

  /** Afterwards every object knows its new slot, whatever the order of the list. */
  lemma OwnSlotsFollow(t: seq<Address>, u: seq<Address>, n: nat, moves: seq<Move>, order: seq<Move>,
                       own: map<nat, Slot>)
    requires Relocates(t, u, n, moves) && multiset(order) == multiset(moves)
    requires KnowTheirSlots(t, own)
    ensures forall m :: m in order ==> m.newSlot < |u|
    ensures KnowTheirSlots(u, Relabelled(u, own, order))
  {
    forall m: Move ensures m in order <==> m in moves { assert m in order <==> m in multiset(order); }
    forall m | m in order ensures m.newSlot < |u| { var i :| 0 <= i < |moves| && moves[i] == m; }
    forall y | 0 <= y < |u| && u[y].Object?
      ensures u[y].id in Relabelled(u, own, order) && Relabelled(u, own, order)[u[y].id] == y
    {
      OwnSlotFollows(t, u, n, moves, order, own, y);
    }
  }

  /** Before, an object knew the slot it was moved from, or the one it is still at. */
  lemma OwnSlotBefore(t: seq<Address>, u: seq<Address>, n: nat, moves: seq<Move>, own: map<nat, Slot>, y: Slot)
    requires Relocates(t, u, n, moves) && KnowTheirSlots(t, own) && y < |u| && u[y].Object? && !IsOld(moves, y)
    ensures u[y].id in own
    ensures IsNew(moves, y) ==> exists i :: 0 <= i < |moves| && moves[i] == Move(own[u[y].id], y)
    ensures !IsNew(moves, y) ==> own[u[y].id] == y
  {
    if IsNew(moves, y) {
      var j :| 0 <= j < |moves| && moves[j].newSlot == y;
      assert moves[j] == Move(own[u[y].id], y);
    } else {
      assert Untouched(moves, y);
    }
  }

  lemma OwnSlotFollows(t: seq<Address>, u: seq<Address>, n: nat, moves: seq<Move>, order: seq<Move>,
                       own: map<nat, Slot>, y: Slot)
    requires Relocates(t, u, n, moves) && KnowTheirSlots(t, own) && y < |u| && u[y].Object?
    requires forall m: Move :: m in order <==> m in moves
    requires forall m :: m in order ==> m.newSlot < |u|
    ensures u[y].id in Relabelled(u, own, order) && Relabelled(u, own, order)[u[y].id] == y
  {
    NestedApart(moves);
    var id := u[y].id;
    assert !IsOld(moves, y);
    OwnSlotBefore(t, u, n, moves, own, y);
    forall m | m in order && u[m.newSlot] == Object(id) ensures m.newSlot == y {
      var i :| 0 <= i < |moves| && moves[i] == m;
      assert own[id] == m.oldSlot;
    }
    RelabelledAt(u, own, order, id, y);
    if IsNew(moves, y) {
      var j :| 0 <= j < |moves| && moves[j].newSlot == y;
      assert moves[j] in order;
    } else {
      assert Untouched(moves, y);
    }
  }

  // ---------------------------------------------------------------- counting

  /** The number of entries from 1 up to `n` that are not NULL. */
  function LiveCount(t: seq<Address>, n: nat): (c: nat)
    requires n <= |t|
    ensures c < n || c == 0
  {
    if n <= 1 then 0 else LiveCount(t, n - 1) + if t[n - 1].Null? then 0 else 1
  }

  lemma {:induction false} LiveCountUpdate(t: seq<Address>, n: nat, x: Slot, a: Address)
    requires n <= |t| && 1 <= x < n
    ensures LiveCount(t[x := a], n) ==
      LiveCount(t, n) - (if t[x].Null? then 0 else 1) + (if a.Null? then 0 else 1)
  {
    if x < n - 1 {
      LiveCountUpdate(t, n - 1, x, a);
    } else {
      LiveCountAgree(t, t[x := a], n - 1);
    }
  }

  lemma {:induction false} LiveCountAgree(t: seq<Address>, u: seq<Address>, n: nat)
    requires n <= |t| && n <= |u| && forall x :: 1 <= x < n ==> t[x] == u[x]
    ensures LiveCount(t, n) == LiveCount(u, n)
  {
    if n > 1 { LiveCountAgree(t, u, n - 1); }
  }

  /** In a gap-free table the live slots are those up to their number. */
  lemma {:induction false} PrefixEnds(t: seq<Address>, n: nat, x: Slot)
    requires n <= |t| && LivePrefix(t, n) && 1 <= x < n
    ensures !t[x].Null? <==> x <= LiveCount(t, n)
  {
    if n > 2 {
      if x < n - 1 {
        PrefixEnds(t, n - 1, x);
        if !t[n - 1].Null? { AllLive(t, n - 1); }
      } else if !t[n - 1].Null? {
        AllLive(t, n - 1);
      }
    }
  }

  lemma {:induction false} AllLive(t: seq<Address>, n: nat)
    requires 1 <= n <= |t| && forall x :: 1 <= x < n ==> !t[x].Null?
    ensures LiveCount(t, n) == n - 1
  {
    if n > 1 { AllLive(t, n - 1); }
  }

  // ---------------------------------------------------------------- the counters as written

  /** How often line 234 retreats over a NULL entry when every move gets its node. */
  function Retreats(live: nat, n: nat): nat
    requires live < n
  {
    if live == n - 1 then 0 else n - 2 - live
  }

  /** What lines 229 and 247 leave in `numAddresses`. */
  function AddressesAfter(moves: seq<Move>, n: nat): nat {
    if moves == [] then n else moves[0].oldSlot
  }

  /** What lines 235, 248 and 254 leave in `numFragmentedFree`, a `size_t`. */
  function FragmentsAfter(before: nat, removed: int): nat { Wrapped(before - removed) }

  /** A number as a `size_t` holds it. */
  function Wrapped(x: int): nat
    decreases if x < 0 then SIZE_MODULUS - x else x
  {
    if x < 0 then Wrapped(x + SIZE_MODULUS) else if x >= SIZE_MODULUS then Wrapped(x - SIZE_MODULUS) else x
  }

  lemma {:induction false} WrappedFits(x: int)
    ensures Wrapped(x) < SIZE_MODULUS && (0 <= x < SIZE_MODULUS ==> Wrapped(x) == x)
    decreases if x < 0 then SIZE_MODULUS - x else x
  {
    if x < 0 { WrappedFits(x + SIZE_MODULUS); } else if x >= SIZE_MODULUS { WrappedFits(x - SIZE_MODULUS); }
  }

  /** Compaction moves the live set, so it changes neither its size nor what is past the end. */
  lemma {:induction false} LiveCountKept(t: seq<Address>, u: seq<Address>, n: nat, moves: seq<Move>)
    requires Relocates(t, u, n, moves)
    ensures LiveCount(u, n) == LiveCount(t, n)
    decreases |moves|
  {
    NestedApart(moves);
    if moves == [] {
      forall x | 1 <= x < n ensures t[x] == u[x] {
        assert Untouched(moves, x);
      }
      LiveCountAgree(t, u, n);
    } else {
      var m, rest := moves[0], moves[1..];
      var v := u[m.oldSlot := u[m.newSlot]][m.newSlot := Null];
      UndoMove(t, u, n, moves);
      LiveCountKept(t, v, n, rest);
      LiveCountUpdate(u, n, m.oldSlot, u[m.newSlot]);
      LiveCountUpdate(u[m.oldSlot := u[m.newSlot]], n, m.newSlot, Null);
    }
  }

  lemma UndoMove(t: seq<Address>, u: seq<Address>, n: nat, moves: seq<Move>)
    requires Relocates(t, u, n, moves) && moves != []
    ensures var m := moves[0];
      Relocates(t, u[m.oldSlot := u[m.newSlot]][m.newSlot := Null], n, moves[1..])
  {
    NestedApart(moves);
    var m, rest := moves[0], moves[1..];
    var v := u[m.oldSlot := u[m.newSlot]][m.newSlot := Null];
    forall x | 0 <= x < |t| && Untouched(rest, x) ensures v[x] == t[x] {
      if x != m.oldSlot && x != m.newSlot {
        assert Untouched(moves, x);
      }
    }
  }

  /**
    `numAddresses` as written ends right after the last live slot if and only if the entry
    after the live prefix was occupied before, or the table had no hole at all: a trailing
    run of NULL entries that no move follows is not given back.
   */
  lemma TopIsTightIff(t: seq<Address>, u: seq<Address>, n: nat, moves: seq<Move>)
    requires Relocates(t, u, n, moves) && LivePrefix(u, n) && 1 <= n
    ensures var live := LiveCount(t, n);
      AddressesAfter(moves, n) == live + 1 <==> live + 1 == n || !t[live + 1].Null?
  {
    var live := LiveCount(t, n);
    LiveCountKept(t, u, n, moves);
    NestedApart(moves);
    if moves != [] {
      OldsAreAbove(t, u, n, moves, 0);
    }
    if live + 1 < n {
      PastThePrefix(t, u, n, moves);
    }
  }

  /** The entry after the live prefix was occupied before exactly when it was the last one moved. */
  lemma PastThePrefix(t: seq<Address>, u: seq<Address>, n: nat, moves: seq<Move>)
    requires Relocates(t, u, n, moves) && LivePrefix(u, n) && LiveCount(t, n) + 1 < n
    ensures !t[LiveCount(t, n) + 1].Null? <==> moves != [] && moves[0].oldSlot == LiveCount(t, n) + 1
  {
    var next := LiveCount(t, n) + 1;
    LiveCountKept(t, u, n, moves);
    PrefixEnds(u, n, next);
    NullNowWasOld(t, u, n, moves, next);
    if IsOld(moves, next) {
      OldsAreAbove(t, u, n, moves, 0);
      FirstIsLowest(moves, next);
    }
  }

  /** A slot that is NULL now held something before exactly when it was moved away. */
  lemma NullNowWasOld(t: seq<Address>, u: seq<Address>, n: nat, moves: seq<Move>, x: Slot)
    requires Relocates(t, u, n, moves) && x < n && u[x].Null?
    ensures !t[x].Null? <==> IsOld(moves, x)
    ensures moves != [] ==> IsOld(moves, moves[0].oldSlot)
  {
    if !IsOld(moves, x) {
      assert !IsNew(moves, x);
      assert Untouched(moves, x);
    }
  }

  lemma FirstIsLowest(moves: seq<Move>, x: Slot)
    requires Nested(moves) && IsOld(moves, x)
    ensures moves != [] && moves[0].oldSlot <= x
  {
    var i :| 0 <= i < |moves| && moves[i].oldSlot == x;
  }

  lemma OldsAreAbove(t: seq<Address>, u: seq<Address>, n: nat, moves: seq<Move>, i: nat)
    requires Relocates(t, u, n, moves) && LivePrefix(u, n) && i < |moves|
    ensures LiveCount(t, n) < moves[i].oldSlot
  {
    LiveCountKept(t, u, n, moves);
    PrefixEnds(u, n, moves[i].oldSlot);
  }

  /** The number of NULL entries among the slots 1 .. live. */
  function Gaps(t: seq<Address>, live: nat): int
    requires live < |t|
  {
    live - LiveCount(t, live + 1)
  }

  /** Every move fills one of the gaps that the live prefix had. */
  lemma {:induction false} MovesFill(t: seq<Address>, u: seq<Address>, n: nat, moves: seq<Move>, m: nat)
    requires Relocates(t, u, n, moves) && m <= n
    requires forall i :: 0 <= i < |moves| ==> moves[i].newSlot < m <= moves[i].oldSlot
    ensures LiveCount(u, m) == LiveCount(t, m) + |moves|
    decreases |moves|
  {
    if moves == [] {
      forall x | 1 <= x < m ensures t[x] == u[x] {
        assert Untouched(moves, x);
      }
      LiveCountAgree(t, u, m);
    } else {
      var first := moves[0];
      UndoMove(t, u, n, moves);
      MovesFill(t, u[first.oldSlot := u[first.newSlot]][first.newSlot := Null], n, moves[1..], m);
      OneGap(u, m, first);
    }
  }

  lemma OneGap(u: seq<Address>, m: nat, move: Move)
    requires 1 <= move.newSlot < m <= move.oldSlot < |u| && !u[move.newSlot].Null?
    ensures LiveCount(u[move.oldSlot := u[move.newSlot]][move.newSlot := Null], m) == LiveCount(u, m) - 1
  {
    var w := u[move.oldSlot := u[move.newSlot]];
    LiveCountAgree(u, w, m);
    LiveCountUpdate(w, m, move.newSlot, Null);
  }

  lemma MovesAreGaps(t: seq<Address>, u: seq<Address>, n: nat, moves: seq<Move>)
    requires Relocates(t, u, n, moves) && LivePrefix(u, n) && 1 <= n
    ensures |moves| == Gaps(t, LiveCount(t, n))
  {
    MovesCrossLive(t, u, n, moves, LiveCount(t, n));
    LiveUpTo(t, u, n, moves, LiveCount(t, n));
    GapsFilled(t, u, n, moves, LiveCount(t, n));
  }

  lemma GapsFilled(t: seq<Address>, u: seq<Address>, n: nat, moves: seq<Move>, live: nat)
    requires Relocates(t, u, n, moves) && live < n && LiveCount(u, live + 1) == live
    requires forall i :: 0 <= i < |moves| ==> moves[i].newSlot < live + 1 <= moves[i].oldSlot
    ensures |moves| == Gaps(t, live)
  {
    MovesFill(t, u, n, moves, live + 1);
  }

  lemma MovesCrossLive(t: seq<Address>, u: seq<Address>, n: nat, moves: seq<Move>, live: nat)
    requires Relocates(t, u, n, moves) && LivePrefix(u, n) && live == LiveCount(t, n)
    ensures forall i :: 0 <= i < |moves| ==> moves[i].newSlot < live + 1 <= moves[i].oldSlot
  {
    LiveCountKept(t, u, n, moves);
    forall i | 0 <= i < |moves| ensures moves[i].newSlot < live + 1 <= moves[i].oldSlot {
      OldsAreAbove(t, u, n, moves, i);
      PrefixEnds(u, n, moves[i].newSlot);
    }
  }

  lemma LiveUpTo(t: seq<Address>, u: seq<Address>, n: nat, moves: seq<Move>, live: nat)
    requires Relocates(t, u, n, moves) && LivePrefix(u, n) && live == LiveCount(t, n) && 1 <= n
    ensures LiveCount(u, live + 1) == live
  {
    LiveCountKept(t, u, n, moves);
    forall x | 1 <= x < live + 1 ensures !u[x].Null? { PrefixEnds(u, n, x); }
    AllLive(u, live + 1);
  }

  /**
    As written each vacated slot is taken off the fragment count twice.  Starting from an
    exact count, the count is the number of holes left below `numAddresses` if and only if
    there was no hole, or one hole behind all live slots, or exactly one gap among the first
    `live` slots and an occupied slot right behind them.
   */
  lemma FragmentCountIsExactIff(t: seq<Address>, u: seq<Address>, n: nat, moves: seq<Move>, budget: nat, removed: int)
    requires 1 <= n < SIZE_MODULUS && Compacted(t, u, n, moves, budget) && Enough(t, n, budget)
    requires Accounts(t, u, n, moves, budget, false, AddressesAfter(moves, n), removed)
    ensures var live := LiveCount(t, n);
      var holes, gaps := n - 1 - live, Gaps(t, live);
      FragmentsAfter(holes, removed) == AddressesAfter(moves, n) - 1 - live <==>
        (holes == 0 || (gaps == 0 && holes == 1) || (gaps == 1 && live + 1 < n && !t[live + 1].Null?))
  {
    var live := LiveCount(t, n);
    MovesAreGaps(t, u, n, moves);
    TopIsTightIff(t, u, n, moves);
    if moves != [] {
      MovesBound(t, u, n, moves);
      FragmentArithmetic(n, live, |moves|, moves[0].oldSlot);
    } else {
      FragmentArithmeticNoMove(n, live);
    }
  }

  lemma MovesBound(t: seq<Address>, u: seq<Address>, n: nat, moves: seq<Move>)
    requires Relocates(t, u, n, moves) && LivePrefix(u, n) && moves != []
    ensures 1 <= |moves| <= LiveCount(t, n) < moves[0].oldSlot < n
  {
    LiveCountKept(t, u, n, moves);
    MovesFit(moves, n);
    OldsAreAbove(t, u, n, moves, 0);
    PrefixEnds(u, n, moves[0].newSlot);
  }

  lemma FragmentArithmeticNoMove(n: nat, live: nat)
    requires live < n < SIZE_MODULUS
    ensures FragmentsAfter(n - 1 - live, Retreats(live, n)) == n - 1 - live <==> n - 1 - live <= 1
  {
  }

  lemma FragmentArithmetic(n: nat, live: nat, k: nat, top: nat)
    requires 1 <= k <= live < top < n < SIZE_MODULUS
    ensures FragmentsAfter(n - 1 - live, k + Retreats(live, n)) == top - 1 - live <==> k == 1 && top == live + 1
  {
    assert (n - 1 - live) - (k + Retreats(live, n)) == 1 - k;
    assert Wrapped(1 - k) == if k == 1 then 0 else SIZE_MODULUS + 1 - k;
  }

  lemma {:induction false} MovesFit(moves: seq<Move>, n: nat)
    requires Nested(moves) && forall i :: 0 <= i < |moves| ==> moves[i].oldSlot < n
    ensures moves != [] ==> |moves| <= moves[0].newSlot && |moves| < n
  {
    if |moves| > 1 {
      MovesFit(moves[1..], n);
    }
  }

  /**
    Two live slots above two holes: every compaction with two nodes or more leaves no hole,
    and a fragment count of the largest `size_t`.
   */
  lemma FragmentCountUnderflows(a: nat, b: nat, u: seq<Address>, moves: seq<Move>, budget: nat, removed: int)
    requires Compacted([Null, Null, Null, Object(a), Object(b)], u, 5, moves, budget) && 2 <= budget
    requires Accounts([Null, Null, Null, Object(a), Object(b)], u, 5, moves, budget, false,
                      AddressesAfter(moves, 5), removed)
    ensures AddressesAfter(moves, 5) == 3 && LivePrefix(u, 3) && LiveCount(u, 3) == 2
    ensures FragmentsAfter(2, removed) == SIZE_MODULUS - 1
  {
    var t := [Null, Null, Null, Object(a), Object(b)];
    assert LiveCount(t, 2) == 0;
    assert LiveCount(t, 3) == 0;
    assert LiveCount(t, 4) == 1;
    MovesAreGaps(t, u, 5, moves);
    TopIsTightIff(t, u, 5, moves);
    LiveCountKept(t, u, 5, moves);
    PrefixEnds(u, 5, 1);
    PrefixEnds(u, 5, 2);
    AllLive(u, 3);
  }

  /** A table whose last slot is free, and no other: it is not given back. */
  lemma TopStaysHigh(a: nat, u: seq<Address>, moves: seq<Move>, budget: nat)
    requires Compacted([Null, Object(a), Null], u, 3, moves, budget)
    ensures AddressesAfter(moves, 3) == 3 && LiveCount(u, 3) == 1
  {
    var t := [Null, Object(a), Null];
    assert LiveCount(t, 2) == 1;
    MovesAreGaps(t, u, 3, moves);
    LiveCountKept(t, u, 3, moves);
  }

  /**
    Counted once, an exact fragment count stays exact in every compaction, even in one that
    runs out of nodes.
   */
  lemma CountedOnceIsExact(t: seq<Address>, u: seq<Address>, n: nat, moves: seq<Move>, budget: nat, top: nat,
                           removed: int)
    requires 1 <= n < SIZE_MODULUS && Compacted(t, u, n, moves, budget)
    requires Accounts(t, u, n, moves, budget, true, top, removed)
    ensures FragmentsAfter(n - 1 - LiveCount(t, n), removed) == top - 1 - LiveCount(u, top)
  {
    LiveCountKept(t, u, n, moves);
    CutIsExact(u, n, top);
  }

  lemma CutIsExact(u: seq<Address>, n: nat, top: nat)
    requires 1 <= top <= n <= |u| && n < SIZE_MODULUS && NullFrom(u, top)
    ensures FragmentsAfter(n - 1 - LiveCount(u, n), n - top) == top - 1 - LiveCount(u, top)
  {
    LiveCountCut(u, top, n);
  }

  lemma {:induction false} LiveCountCut(u: seq<Address>, top: nat, n: nat)
    requires 1 <= top <= n <= |u| && forall x :: top <= x < n ==> u[x].Null?
    ensures LiveCount(u, n) == LiveCount(u, top)
    decreases n
  {
    if top < n { LiveCountCut(u, top, n - 1); }
  }
}
