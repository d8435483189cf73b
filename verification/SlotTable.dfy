/**
  The slot table of indirection.c as one object, with its operations run one at a time:
  allocation and release of a slot, the free-list rebuild and the two-finger compaction.

  `table` is the mapped memory, so its length is what is mapped; `numPages` is the field the
  code keeps, which lines 151-155 and 257-260 leave alone when they unmap pages.  The linked
  list of `free_slot_t` nodes is the sequence of their slots, head first.  `budget` is the
  number of node allocations that succeed before `malloc` starts to return NULL.

  Three switches select the variant, all false for the code as written:
    - `advances`: the rebuild moves `curSlot` on once it has used it (lines 166-171, 193-203).
    - `lowersPages`: `numPages` is lowered when pages are unmapped (lines 151-155, 257-260).
    - `countsOnce`: a compaction takes each slot it cuts off off the fragment count once, and
      leaves the top right behind the last live slot (lines 233-254).
 */
module SlotTable {
  import opened SlotTypes
  import opened Compaction

  datatype Config = Config(advances: bool, lowersPages: bool, countsOnce: bool) {
    /** What is added to `curSlot` after it was used. */
    function Advance(): nat { if advances then 1 else 0 }
  }

  // ---------------------------------------------------------------- specification of the scans

  /** `numAddresses` after the trailing NULL entries are trimmed; entry 0 always stays. */
  function Trimmed(t: seq<Address>, n: nat): (r: nat)
    requires 1 <= n <= |t|
    ensures 1 <= r <= n
    ensures forall x :: r <= x < n ==> t[x].Null?
    ensures r == 1 || !t[r - 1].Null?
  {
    if n > 1 && t[n - 1].Null? then Trimmed(t, n - 1) else n
  }

  /** The NULL entries from `lo` up to `hi`, in increasing order. */
  function Holes(t: seq<Address>, lo: nat, hi: nat): seq<Slot>
    requires hi <= |t|
    decreases hi - lo
  {
    if lo >= hi then [] else if t[lo].Null? then [lo] + Holes(t, lo + 1, hi) else Holes(t, lo + 1, hi)
  }

  function Reverse(s: seq<Slot>): (r: seq<Slot>)
    ensures |r| == |s|
  {
    if s == [] then [] else Reverse(s[1..]) + [s[0]]
  }

  function Repeat(x: Slot, n: nat): (r: seq<Slot>)
    ensures |r| == n && forall i :: 0 <= i < n ==> r[i] == x
  {
    seq(n, _ => x)
  }

  function Min(a: nat, b: nat): nat { if a < b then a else b }

  /**
    The free list after a rebuild, from the holes, the number of nodes already in the list
    and the number of nodes that can still be allocated.  `advance` is what the code adds to
    `curSlot` after using it: 0 as written, 1 in the evident intent.
   */
  function Rebuilt(advance: nat, holes: seq<Slot>, nodes: nat, budget: nat): seq<Slot> {
    if holes == [] then []
    else if advance == 0 then Repeat(holes[0], nodes + budget)
    else
      var reused := Min(nodes, |holes|);
      var added := Min(budget, |holes| - reused);
      Reverse(holes[reused..reused + added]) + holes[..reused]
  }

  /** The nodes prepended for the holes `rest` that no old node was left for. */
  function Added(advance: nat, rest: seq<Slot>, budget: nat): seq<Slot> {
    if rest == [] then []
    else if advance == 0 then Repeat(rest[0], budget)
    else Reverse(rest[..Min(budget, |rest|)])
  }

  /** The list and the holes still ahead of `curSlot` once the old nodes are used up. */
  predicate AfterReuse(advance: nat, holes: seq<Slot>, nodes: nat, list: seq<Slot>, rest: seq<Slot>) {
    if advance == 0 && holes != [] then
      list == Repeat(holes[0], nodes) && rest == holes
    else
      var reused := Min(nodes, |holes|);
      list == holes[..reused] && rest == holes[reused..]
  }

  /** The loop that adds nodes after `m` of them: the holes `ahead` are still to come. */
  predicate Adding(advance: nat, rest: seq<Slot>, m: nat, ahead: seq<Slot>, list: seq<Slot>, before: seq<Slot>) {
    && list == Added(advance, rest, m) + before
    && (if advance == 0 then ahead == rest else m <= |rest| && ahead == rest[m..])
  }

  lemma AddingOne(advance: nat, rest: seq<Slot>, m: nat, ahead: seq<Slot>, list: seq<Slot>, before: seq<Slot>)
    requires Adding(advance, rest, m, ahead, list, before) && ahead != []
    ensures Adding(advance, rest, m + 1, if advance == 0 then ahead else ahead[1..], [ahead[0]] + list, before)
  {
    assert [ahead[0]] + (Added(advance, rest, m) + before) == ([ahead[0]] + Added(advance, rest, m)) + before;
    if advance != 0 {
      assert rest[..m + 1] == rest[..m] + [ahead[0]];
      ReverseSnoc(rest[..m], ahead[0]);
    } else {
      assert Repeat(rest[0], m + 1) == [rest[0]] + Repeat(rest[0], m);
    }
  }

  lemma AddingDone(advance: nat, rest: seq<Slot>, m: nat, ahead: seq<Slot>, list: seq<Slot>, before: seq<Slot>,
                   budget: nat)
    requires Adding(advance, rest, m, ahead, list, before) && m <= budget && (ahead == [] || m == budget)
    ensures list == Added(advance, rest, budget) + before
  {
  }

  lemma TwoPhases(advance: nat, holes: seq<Slot>, nodes: nat, budget: nat, list: seq<Slot>, rest: seq<Slot>)
    requires AfterReuse(advance, holes, nodes, list, rest)
    ensures Added(advance, rest, budget) + list == Rebuilt(advance, holes, nodes, budget)
  {
    if holes != [] && advance != 0 {
      var reused := Min(nodes, |holes|);
      var added := Min(budget, |holes| - reused);
      assert rest[..added] == holes[reused..reused + added];
    }
  }

  /** The smallest number of pages that holds `n` entries, and their entries. */
  function PagesFor(n: nat): nat { (n + ADDR_PER_PAGE - 1) / ADDR_PER_PAGE }

  function RoundedUp(n: nat): nat { PagesFor(n) * ADDR_PER_PAGE }

  /** No page is unmapped above `n`, or `numPages` is lowered with it. */
  predicate PagesStayRight(cfg: Config, numPages: nat, n: nat) {
    cfg.lowersPages || (numPages - 1) * ADDR_PER_PAGE < n
  }

  class AddressTable {
    const cfg: Config
    var table: array<Address>
    var freeList: seq<Slot>
    var numFragmentedFree: nat
    var numPages: nat
    var numAddresses: nat

    /** What `allocateSlot` needs in order to stay inside the mapping. */
    ghost predicate Mapped()
      reads this, table
    {
      && 1 <= numAddresses <= numPages * ADDR_PER_PAGE == table.Length
      && (forall i :: 0 <= i < |freeList| ==> 1 <= freeList[i] < numAddresses)
      && |freeList| <= numFragmentedFree
    }

    /** The state `createAddressIndirectionInfo` sets up and allocation and release keep. */
    ghost predicate Valid()
      reads this, table
    {
      && Mapped()
      && table[0].Null?
      && (forall i :: 0 <= i < |freeList| ==> table[freeList[i]].Null?)
      && (forall i, j :: 0 <= i < j < |freeList| ==> freeList[i] != freeList[j])
      && NullFrom(table[..], numAddresses)
    }

    function View(): Slots
      reads this
    {
      Slots(freeList, numAddresses, SLOT_LIMIT)
    }

    constructor (cfg: Config)
      ensures Valid() && fresh(table) && this.cfg == cfg
      ensures numAddresses == 1 && freeList == [] && numFragmentedFree == 0 && numPages == 1
    {
      this.cfg := cfg;
      table := new Address[ADDR_PER_PAGE](_ => Null);
      freeList := [];
      numFragmentedFree := 0;
      numPages := 1;
      numAddresses := 1;
    }

    function MaxNumAddresses(): nat
      reads this
    {
      numPages * ADDR_PER_PAGE
    }

    method GetRawAddress(slot: Slot) returns (a: Address)
      requires Valid()
      ensures a == if slot < table.Length then table[slot] else Null
    {
      if slot >= MaxNumAddresses() { return Null; }
      a := table[slot];
    }

    method SetRawAddress(slot: Slot, a: Address)
      requires Valid()
      modifies table
      ensures (slot < numAddresses && slot !in freeList) || a.Null? || table[..] == old(table[..]) ==> Valid()
      ensures table[..] == if slot == 0 || slot >= table.Length then old(table[..]) else old(table[..])[slot := a]
    {
      if slot == 0 || slot >= MaxNumAddresses() { return; }
      table[slot] := a;
    }

    /** Lines 93-98: the kernel grants one more page, zero-filled. */
    method AddPage()
      requires Mapped()
      modifies this`table, this`numPages
      ensures Mapped() && (old(Valid()) ==> Valid()) && fresh(table) && numPages == old(numPages) + 1
      ensures table[..] == old(table[..]) + seq(ADDR_PER_PAGE, _ => Null)
    {
      var small := table;
      table := new Address[small.Length + ADDR_PER_PAGE](i requires 0 <= i reads small =>
        if i < small.Length then small[i] else Null);
      numPages := numPages + 1;
    }

    /**
      Hands out the head of the free list, or the next entry of the table.  `grown` says
      whether the kernel would grant another page.  The list is not looked through, so a
      slot that is listed twice is handed out twice.
     */
    method AllocateSlot(grown: bool) returns (slot: Slot)
      requires Mapped()
      modifies this, table
      ensures Mapped() && (old(Valid()) ==> Valid()) && (table == old(table) || fresh(table))
      ensures grown ==> (View(), slot) == SlotTypes.AllocateSlot(old(View()))
      ensures slot == 0 <==>
        (old(numAddresses) == SLOT_LIMIT || (old(freeList) == [] && old(numAddresses) == old(table.Length) && !grown))
      ensures slot == 0 ==> table == old(table) && table[..] == old(table[..])
      ensures slot == 0 ==> freeList == old(freeList) && numAddresses == old(numAddresses)
      ensures slot != 0 ==> 1 <= slot < numAddresses && table[slot] == Reserved
      ensures slot != 0 && old(Valid()) ==>
        slot !in freeList && (slot >= old(table.Length) || old(table[..])[slot].Null?)
      ensures slot != 0 && old(freeList) != [] ==>
        (slot == old(freeList[0]) && freeList == old(freeList[1..])
         && numFragmentedFree == old(numFragmentedFree) - 1 && numAddresses == old(numAddresses))
      ensures slot != 0 && old(freeList) == [] ==>
        (slot == old(numAddresses) && freeList == []
         && numFragmentedFree == old(numFragmentedFree) && numAddresses == old(numAddresses) + 1)
      ensures old(table.Length) <= table.Length
      ensures forall x :: 0 <= x < old(table.Length) && x != slot ==> table[x] == old(table[x])
    {
      if numAddresses == SLOT_LIMIT { return 0; }
      if freeList != [] {
        slot := freeList[0];
        numFragmentedFree := numFragmentedFree - 1;
        freeList := freeList[1..];
        table[slot] := Reserved;
        return;
      }
      if numAddresses == MaxNumAddresses() {
        if !grown { return 0; }
        AddPage();
      }
      slot := numAddresses;
      numAddresses := numAddresses + 1;
      table[slot] := Reserved;
    }

    /**
      Gives a slot back; -1 when no node could be allocated for it.  The table stays as it
      should be if the slot was issued and not given back before.
     */
    method FreeSlot(slot: Slot, nodeAllocated: bool) returns (result: int)
      requires Valid()
      modifies this, table
      ensures slot < old(numAddresses) && slot !in old(freeList) ==> Valid()
      ensures nodeAllocated ==> View() == SlotTypes.FreeSlot(old(View()), slot)
      ensures table == old(table) && numPages == old(numPages)
      ensures result == 0 || result == -1
      ensures result == -1 <==> slot != 0 && slot + 1 != old(numAddresses) && !nodeAllocated
      ensures table[..] ==
        if slot == 0 || slot >= table.Length then old(table[..]) else old(table[..])[slot := Null]
      ensures numAddresses ==
        if slot != 0 && slot + 1 == old(numAddresses) then old(numAddresses) - 1 else old(numAddresses)
      ensures numFragmentedFree ==
        old(numFragmentedFree) + if slot != 0 && slot + 1 != old(numAddresses) then 1 else 0
      ensures freeList == if slot != 0 && slot + 1 != old(numAddresses) && nodeAllocated
                          then [slot] + old(freeList) else old(freeList)
    {
      if slot == 0 { return 0; }
      SetRawAddress(slot, Null);
      if slot + 1 == numAddresses {
        numAddresses := numAddresses - 1;
        return 0;
      }
      numFragmentedFree := numFragmentedFree + 1;
      if !nodeAllocated { return -1; }
      freeList := [slot] + freeList;
      return 0;
    }

    /** Unmaps whole pages above `numAddresses`; as written `numPages` keeps its old value. */
    method ReleasePages()
      requires 1 <= numAddresses <= table.Length
      requires table.Length == numPages * ADDR_PER_PAGE
      modifies this`table, this`numPages
      ensures numAddresses <= table.Length == RoundedUp(numAddresses) <= old(table.Length)
      ensures table.Length == numPages * ADDR_PER_PAGE <==> PagesStayRight(cfg, old(numPages), numAddresses)
      ensures numPages == if cfg.lowersPages then PagesFor(numAddresses) else old(numPages)
      ensures table[..] == old(table[..])[..table.Length]
      ensures table == old(table) || fresh(table)
    {
      var newSize := RoundedUp(numAddresses);
      if newSize < numPages * ADDR_PER_PAGE {
        var mapped := table;
        table := new Address[newSize](i requires 0 <= i < newSize reads mapped => mapped[i]);
        if cfg.lowersPages {
          numPages := PagesFor(numAddresses);
        }
      }
    }

    /** Lines 147-149. */
    method TrimTop()
      requires 1 <= numAddresses <= table.Length
      modifies this`numAddresses
      ensures numAddresses == Trimmed(table[..], old(numAddresses))
    {
      while table[numAddresses - 1].Null? && numAddresses > 1
        invariant 1 <= numAddresses <= old(numAddresses)
        invariant Trimmed(table[..], numAddresses) == Trimmed(table[..], old(numAddresses))
      {
        numAddresses := numAddresses - 1;
      }
    }

    /** Lines 157-185: writes holes into the nodes of the list, and drops the nodes left over. */
    method ReuseNodes(advance: nat) returns (curSlot: Slot)
      requires 1 <= numAddresses <= table.Length && advance <= 1
      modifies this`freeList
      ensures var holes, nodes := Holes(table[..], 1, numAddresses), |old(freeList)|;
        && 1 <= curSlot
        && AfterReuse(advance, holes, nodes, freeList, Holes(table[..], curSlot, numAddresses))
    {
      var n := numAddresses;
      ghost var t, nodes := table[..], |freeList|;
      ghost var holes := Holes(t, 1, n);
      curSlot := 1;
      var i := 0;
      while i < |freeList|
        invariant 1 <= curSlot && i <= |freeList| <= nodes
        invariant |freeList| == nodes || (i == |freeList| && Holes(t, curSlot, n) == [])
        invariant advance == 1 ==> holes == freeList[..i] + Holes(t, curSlot, n)
        invariant advance == 0 ==> holes == Holes(t, curSlot, n)
        invariant advance == 0 && 0 < i ==> holes != [] && freeList[..i] == Repeat(holes[0], i)
        decreases |freeList| - i
      {
        ghost var rest := Holes(t, curSlot, n);
        while curSlot < n && !table[curSlot].Null?
          invariant 1 <= curSlot
          invariant Holes(t, curSlot, n) == rest
        {
          curSlot := curSlot + 1;
        }
        if curSlot < n {
          freeList := freeList[i := curSlot];
          i := i + 1;
          curSlot := curSlot + advance;
        } else {
          freeList := freeList[..i];
        }
      }
    }

    /** Lines 187-205: allocates a node for every hole that is left, while memory lasts. */
    method AddNodes(advance: nat, budget: nat, start: Slot)
      requires 1 <= numAddresses <= table.Length && advance <= 1
      modifies this`freeList
      ensures var rest := Holes(table[..], start, numAddresses);
        && freeList == Added(advance, rest, budget) + old(freeList)
    {
      var n, curSlot := numAddresses, start;
      var left: nat := budget;
      ghost var t := table[..];
      ghost var rest, m: nat := Holes(t, start, n), 0;
      while curSlot < n
        invariant m + left == budget
        invariant Adding(advance, rest, m, Holes(t, curSlot, n), freeList, old(freeList))
        decreases n - curSlot, left
      {
        if !table[curSlot].Null? {
          curSlot := curSlot + 1;
        } else {
          if left == 0 { break; }
          AddingOne(advance, rest, m, Holes(t, curSlot, n), freeList, old(freeList));
          assert Holes(t, curSlot, n)[1..] == Holes(t, curSlot + 1, n);
          left := left - 1;
          freeList := [curSlot] + freeList;
          m := m + 1;
          curSlot := curSlot + advance;
        }
      }
      AddingDone(advance, rest, m, Holes(t, curSlot, n), freeList, old(freeList), budget);
    }

    /**
      Rebuilds the free list in place.  Afterwards the table is fit for allocation and release
      if and only if `numPages` is still right, and the list does not name a slot twice: as
      written, there is no hole or at most one node.
     */
    method RebuildFreeList(budget: nat)
      requires Valid()
      modifies this
      ensures numAddresses == Trimmed(old(table[..]), old(numAddresses))
      ensures table.Length == RoundedUp(numAddresses) && table[..] == old(table[..])[..table.Length]
      ensures table == old(table) || fresh(table)
      ensures numPages == if cfg.lowersPages then PagesFor(numAddresses) else old(numPages)
      ensures freeList == Rebuilt(cfg.Advance(), Holes(old(table[..]), 1, numAddresses), |old(freeList)|, budget)
      ensures numFragmentedFree == |freeList|
      ensures Mapped() <==> PagesStayRight(cfg, old(numPages), numAddresses)
      ensures Valid() <==>
        PagesStayRight(cfg, old(numPages), numAddresses)
        && (cfg.advances || Holes(old(table[..]), 1, numAddresses) == [] || |old(freeList)| + budget <= 1)
    {
      ghost var t := table[..];
      TrimTop();
      ReleasePages();
      HolesAgree(t, table[..], 1, numAddresses);
      ghost var nodes := |freeList|;
      var curSlot := ReuseNodes(cfg.Advance());
      ghost var list := freeList;
      AddNodes(cfg.Advance(), budget, curSlot);
      TwoPhases(cfg.Advance(), Holes(t, 1, numAddresses), nodes, budget, list, Holes(table[..], curSlot, numAddresses));
      numFragmentedFree := |freeList|;
      RebuiltIsValid(t, old(numAddresses), old(numPages), nodes, budget);
    }

    /** When a rebuilt table is fit for use. */
    lemma RebuiltIsValid(t: seq<Address>, n: nat, pages: nat, nodes: nat, budget: nat)
      requires 1 <= n <= |t| && t[0].Null? && NullFrom(t, n)
      requires numAddresses == Trimmed(t, n) && table.Length == RoundedUp(numAddresses) <= |t|
      requires numAddresses <= table.Length && table[..] == t[..table.Length]
      requires table.Length == numPages * ADDR_PER_PAGE <==> PagesStayRight(cfg, pages, numAddresses)
      requires freeList == Rebuilt(cfg.Advance(), Holes(t, 1, numAddresses), nodes, budget)
      requires numFragmentedFree == |freeList|
      ensures Mapped() <==> PagesStayRight(cfg, pages, numAddresses)
      ensures Valid() <==>
        PagesStayRight(cfg, pages, numAddresses)
        && (cfg.advances || Holes(t, 1, numAddresses) == [] || nodes + budget <= 1)
    {
      RebuiltFits(cfg.Advance(), t, numAddresses, nodes, budget);
      forall x | 0 <= x < table.Length ensures table[x] == t[x] { assert table[..][x] == t[x]; }
    }

    /** A rebuild and the next two allocations: as written they can hand out the same slot. */
    method RebuildAndAllocateTwice(budget: nat) returns (a: Slot, b: Slot)
      requires Valid() && PagesStayRight(cfg, numPages, Trimmed(table[..], numAddresses))
      modifies this, table
      ensures var top := Trimmed(old(table[..]), old(numAddresses));
        a == b != 0 <==>
          top != SLOT_LIMIT && !cfg.advances && Holes(old(table[..]), 1, top) != [] && |old(freeList)| + budget >= 2
    {
      RebuildFreeList(budget);
      a := AllocateSlot(true);
      b := AllocateSlot(true);
    }

    /** Lines 231-236: both fingers move until they stand at a hole and at a live entry, or meet. */
    method ScanFingers(start0: Slot, end0: nat) returns (start: Slot, end: nat)
      requires 1 <= start0 && end0 < table.Length
      ensures Scanned(table[..], start0, end0, start, end)
    {
      start, end := start0, end0;
      while start < end && !table[start].Null?
        invariant start0 <= start && (if start0 <= end0 then start <= end else start == start0)
        invariant forall x :: start0 <= x < start ==> !table[x].Null?
      {
        start := start + 1;
      }
      while start < end && table[end].Null?
        invariant end <= end0 && (if start0 <= end0 then start <= end else end == end0)
        invariant forall x :: end < x <= end0 ==> table[x].Null?
        decreases end
      {
        end := end - 1;
      }
    }

    /** Lines 241-242. */
    method MoveEntry(start: Slot, end: Slot)
      requires start < table.Length && end < table.Length && start != end
      modifies table
      ensures table[..] == old(table[..])[start := old(table[end])][end := Null]
    {
      table[start] := table[end];
      table[end] := Null;
    }

    /** Lines 231-251: one turn of the outer loop; `removed` is what it takes off the fragment count. */
    method TakeTurn(start0: Slot, end0: nat, nodeAvailable: bool,
                    ghost t: seq<Address>, ghost n: nat, ghost moves: seq<Move>, ghost removed0: int, ghost budget: nat)
      returns (start: Slot, end: nat, turn: Turn, removed: int)
      requires n <= table.Length && Progress(t, table[..], n, moves, start0, end0, Moved, removed0, budget)
      requires nodeAvailable <==> |moves| < budget
      modifies table
      ensures Progress(t, table[..], n, if turn.Moved? then [Move(end, start)] + moves else moves,
                       start, end, turn, removed0 + removed, budget)
      ensures turn.Moved? ==> nodeAvailable
    {
      ghost var u := table[..];
      start, end := ScanFingers(start0, end0);
      removed := end0 - end;
      FingersScan(t, u, n, moves, start0, end0, start, end);
      if start < end && table[start].Null? && !table[end].Null? {
        if !nodeAvailable {
          AnotherGap(t, u, n, moves, start, end);
          return start, end, OutOfMemory, removed;
        }
        FingersMove(t, u, n, moves, start, end);
        MoveEntry(start, end);
        return start, end, Moved, removed + 1;
      } else {
        FingersDone(t, u, n, moves, start0, end0, start, end);
        return start, end, Finished, removed;
      }
    }

    /** Lines 225-252: the two fingers. */
    method CompactEntries(budget: nat) returns (moves: seq<Move>, removed: int)
      requires 1 <= numAddresses <= table.Length && NullFrom(table[..], numAddresses)
      modifies table, this`numAddresses
      ensures Compacted(old(table[..]), table[..], old(numAddresses), moves, budget)
      ensures Accounts(old(table[..]), table[..], old(numAddresses), moves, budget, cfg.countsOnce, numAddresses,
        removed)
    {
      ghost var t := table[..];
      var n := numAddresses;
      moves, removed := [], 0;
      var start: Slot, end: nat, turn := 1, n - 1, Moved;
      FingersStart(t, n);
      while turn.Moved?
        invariant Progress(t, table[..], n, moves, start, end, turn, removed, budget)
        invariant numAddresses == AddressesAfter(moves, n)
        decreases budget - |moves|, turn.Moved?
      {
        var more: int;
        start, end, turn, more := TakeTurn(start, end, |moves| < budget, t, n, moves, removed, budget);
        removed := removed + more;
        if turn.Moved? {
          moves := [Move(end, start)] + moves;
          numAddresses := end;
        }
      }
      ProgressDone(t, table[..], n, moves, start, end, turn, removed, budget);
      removed := SettleTop(n, end, removed);
    }

    /** The variant that counts once: the top goes right behind the last live slot. */
    method SettleTop(n: nat, end: nat, removed0: int) returns (removed: int)
      requires end < table.Length
      modifies this`numAddresses
      ensures numAddresses == if cfg.countsOnce then TopBehind(table[..], end) else old(numAddresses)
      ensures removed == if cfg.countsOnce then n - numAddresses else removed0
    {
      removed := removed0;
      if cfg.countsOnce {
        numAddresses := if end > 0 && table[end].Null? then end else end + 1;
        removed := n - numAddresses;
      }
    }

    /**
      Compacts the table and returns the relocation list, newest node first, and what it
      took off the fragment count.  The table is cut to whole pages afterwards, so the
      entries it lost are read as NULL.
     */
    method CompactAddressTable(budget: nat) returns (moves: seq<Move>, removed: int)
      requires Valid()
      modifies this, table
      ensures table.Length == RoundedUp(numAddresses) <= old(table.Length)
      ensures numPages == if cfg.lowersPages then PagesFor(numAddresses) else old(numPages)
      ensures Compacted(old(table[..]), Padded(table[..], old(table.Length)), old(numAddresses), moves, budget)
      ensures Accounts(old(table[..]), Padded(table[..], old(table.Length)), old(numAddresses), moves, budget,
                       cfg.countsOnce, numAddresses, removed)
      ensures numFragmentedFree == FragmentsAfter(old(numFragmentedFree), removed)
      ensures freeList == []
      ensures Valid() <==> PagesStayRight(cfg, old(numPages), numAddresses)
    {
      ghost var t := table[..];
      moves, removed := CompactEntries(budget);
      numFragmentedFree := FragmentsAfter(numFragmentedFree, removed);
      ghost var u := table[..];
      assert u[0].Null? by { assert Untouched(moves, 0); }
      ReleasePages();
      assert Padded(table[..], |t|) == u;
      freeList := [];
    }
  }

  /** A table cut short, with NULL for the entries it lost. */
  function Padded(t: seq<Address>, n: nat): (r: seq<Address>)
    requires |t| <= n
    ensures |r| == n
  {
    t + seq(n - |t|, _ => Null)
  }

  lemma {:induction false} ReverseSnoc(s: seq<Slot>, x: Slot)
    ensures Reverse(s + [x]) == [x] + Reverse(s)
  {
    if s != [] {
      ReverseSnoc(s[1..], x);
      assert (s + [x])[1..] == s[1..] + [x];
    }
  }

  /** The scan sees only the entries in its range. */
  lemma {:induction false} HolesAgree(t: seq<Address>, u: seq<Address>, lo: nat, hi: nat)
    requires hi <= |t| && hi <= |u|
    requires forall x :: lo <= x < hi ==> t[x] == u[x]
    ensures Holes(t, lo, hi) == Holes(u, lo, hi)
    decreases hi - lo
  {
    if lo < hi {
      HolesAgree(t, u, lo + 1, hi);
    }
  }

  predicate Increasing(s: seq<Slot>) { forall i, j :: 0 <= i < j < |s| ==> s[i] < s[j] }

  lemma {:induction false} HolesInRange(t: seq<Address>, lo: nat, hi: nat)
    requires hi <= |t|
    ensures forall x :: x in Holes(t, lo, hi) <==> lo <= x < hi && t[x].Null?
    ensures Increasing(Holes(t, lo, hi))
    decreases hi - lo
  {
    if lo < hi {
      HolesInRange(t, lo + 1, hi);
      if t[lo].Null? { IncreasingCons(lo, Holes(t, lo + 1, hi)); }
    }
  }

  lemma IncreasingCons(x: Slot, s: seq<Slot>)
    requires Increasing(s) && forall y :: y in s ==> x < y
    ensures Increasing([x] + s)
    ensures forall y :: y in [x] + s <==> y == x || y in s
  {
    var h := [x] + s;
    forall i, j | 0 <= i < j < |h| ensures h[i] < h[j] {
      assert h[j] == s[j - 1] && s[j - 1] in s;
    }
  }

  // ---------------------------------------------------------------- what a rebuild achieves

  /** The list holds each NULL slot below `n` exactly once. */
  ghost predicate ListsEachHoleOnce(list: seq<Slot>, t: seq<Address>, n: nat)
    requires n <= |t|
  {
    && (forall x :: x in list <==> 1 <= x < n && t[x].Null?)
    && (forall i, j :: 0 <= i < j < |list| ==> list[i] != list[j])
  }

  lemma {:induction false} ReverseAt(s: seq<Slot>, k: nat)
    requires k < |s|
    ensures Reverse(s)[k] == s[|s| - 1 - k]
  {
    if k < |s| - 1 {
      ReverseAt(s[1..], k);
    }
  }

  /** The rebuilt list: the holes for which nodes were added, in reverse, and then those for the old nodes. */
  lemma AdvancingRebuildAt(holes: seq<Slot>, nodes: nat, budget: nat, k: nat)
    requires var reused := Min(nodes, |holes|); k < reused + Min(budget, |holes| - reused)
    ensures var reused := Min(nodes, |holes|);
      var added, list := Min(budget, |holes| - reused), Rebuilt(1, holes, nodes, budget);
      |list| == reused + added && list[k] == holes[if k < added then reused + added - 1 - k else k - added]
  {
    var r := Min(nodes, |holes|);
    var rest := holes[r..r + Min(budget, |holes| - r)];
    assert Rebuilt(1, holes, nodes, budget) == Reverse(rest) + holes[..r];
    if k < |rest| { ReverseAt(rest, k); }
  }

  /** Every variant lists holes only, and names one of them twice only without advancing. */
  lemma RebuiltFits(advance: nat, t: seq<Address>, n: nat, nodes: nat, budget: nat)
    requires n <= |t| && advance <= 1
    ensures var list := Rebuilt(advance, Holes(t, 1, n), nodes, budget);
      && (forall i :: 0 <= i < |list| ==> 1 <= list[i] < n && t[list[i]].Null?)
      && ((forall i, j :: 0 <= i < j < |list| ==> list[i] != list[j]) <==>
            advance == 1 || Holes(t, 1, n) == [] || nodes + budget <= 1)
  {
    var holes := Holes(t, 1, n);
    if holes != [] {
      HolesInRange(t, 1, n);
      if advance == 0 { WrittenRebuildFits(holes, nodes, budget); } else { AdvancingRebuildFits(holes, nodes, budget); }
      InHoles(t, n, Rebuilt(advance, holes, nodes, budget));
    }
  }

  lemma InHoles(t: seq<Address>, n: nat, list: seq<Slot>)
    requires n <= |t| && forall i :: 0 <= i < |list| ==> list[i] in Holes(t, 1, n)
    ensures forall i :: 0 <= i < |list| ==> 1 <= list[i] < n && t[list[i]].Null?
  {
    HolesInRange(t, 1, n);
  }

  lemma WrittenRebuildFits(holes: seq<Slot>, nodes: nat, budget: nat)
    requires holes != []
    ensures var list := Rebuilt(0, holes, nodes, budget);
      && (forall i :: 0 <= i < |list| ==> list[i] in holes)
      && ((forall i, j :: 0 <= i < j < |list| ==> list[i] != list[j]) <==> nodes + budget <= 1)
  {
    var list := Rebuilt(0, holes, nodes, budget);
    forall i | 0 <= i < |list| ensures list[i] in holes { assert list[i] == holes[0]; }
    if nodes + budget > 1 { assert list[0] == list[1]; }
  }

  lemma AdvancingRebuildFits(holes: seq<Slot>, nodes: nat, budget: nat)
    requires holes != [] && Increasing(holes)
    ensures var list := Rebuilt(1, holes, nodes, budget);
      && (forall i :: 0 <= i < |list| ==> list[i] in holes)
      && (forall i, j :: 0 <= i < j < |list| ==> list[i] != list[j])
  {
    var list := Rebuilt(1, holes, nodes, budget);
    var r := Min(nodes, |holes|);
    assert |list| == r + Min(budget, |holes| - r);
    forall i | 0 <= i < |list| ensures list[i] in holes { AdvancingRebuildAt(holes, nodes, budget, i); }
    forall i, j | 0 <= i < j < |list| ensures list[i] != list[j] {
      AdvancingRebuildAt(holes, nodes, budget, i);
      AdvancingRebuildAt(holes, nodes, budget, j);
    }
  }

  /** The evident intent: with enough memory the rebuilt list is exactly the set of holes. */
  lemma AdvancingRebuildIsExact(t: seq<Address>, n: nat, nodes: nat, budget: nat)
    requires n <= |t| && |Holes(t, 1, n)| <= nodes + budget
    ensures ListsEachHoleOnce(Rebuilt(1, Holes(t, 1, n), nodes, budget), t, n)
    ensures |Rebuilt(1, Holes(t, 1, n), nodes, budget)| == |Holes(t, 1, n)|
  {
    var holes := Holes(t, 1, n);
    HolesInRange(t, 1, n);
    if holes != [] {
      var list, added := Rebuilt(1, holes, nodes, budget), |holes| - Min(nodes, |holes|);
      AdvancingRebuildAt(holes, nodes, budget, 0);
      forall x | x in list ensures x in holes {
        var k :| 0 <= k < |list| && list[k] == x;
        AdvancingRebuildAt(holes, nodes, budget, k);
      }
      forall x | x in holes ensures x in list {
        var i :| 0 <= i < |holes| && holes[i] == x;
        AdvancingRebuildAt(holes, nodes, budget, if i < |holes| - added then i + added else |holes| - 1 - i);
      }
      forall i, j | 0 <= i < j < |list| ensures list[i] != list[j] {
        AdvancingRebuildAt(holes, nodes, budget, i);
        AdvancingRebuildAt(holes, nodes, budget, j);
      }
    }
  }

  /**
    The code as written.  `curSlot` is never moved past a hole, so the list is as long as
    memory allows and names one slot only; it is the list of the holes if and only if there
    is no hole, or there is one hole and exactly one node to put it in.
   */
  lemma RebuildAsWritten(t: seq<Address>, n: nat, nodes: nat, budget: nat)
    requires n <= |t|
    ensures var holes, list := Holes(t, 1, n), Rebuilt(0, Holes(t, 1, n), nodes, budget);
      && |list| == (if holes == [] then 0 else nodes + budget)
      && (ListsEachHoleOnce(list, t, n) <==> holes == [] || (|holes| == 1 && nodes + budget == 1))
  {
    var holes := Holes(t, 1, n);
    HolesInRange(t, 1, n);
    if holes != [] {
      var list := Rebuilt(0, holes, nodes, budget);
      assert holes[0] in holes;
      if nodes + budget == 0 {
        assert holes[0] !in list;
      } else {
        assert list[0] == holes[0];
        if |holes| > 1 { assert holes[1] in holes && holes[1] !in list; }
        if nodes + budget > 1 { assert list[0] == list[1]; }
      }
    }
  }

  /** A table with one hole, no nodes and memory for two: the hole is listed twice. */
  lemma RebuildRepeatsAHole()
    ensures var t := [Null, Null, Object(7)];
      Rebuilt(0, Holes(t, 1, 3), 0, 2) == [1, 1] && !ListsEachHoleOnce([1, 1], t, 3)
  {
    var t := [Null, Null, Object(7)];
    assert Holes(t, 3, 3) == [];
    assert Holes(t, 2, 3) == [];
    assert Holes(t, 1, 3) == [1];
    assert Rebuilt(0, [1], 0, 2) == [1, 1];
    RebuildAsWritten(t, 3, 0, 2);
  }

  /** Trimming drops no live and no reserved entry. */
  lemma TrimKeepsLive(t: seq<Address>, n: nat)
    requires 1 <= n <= |t|
    ensures forall x :: 1 <= x < n && !t[x].Null? ==> x < Trimmed(t, n)
  {
  }

  /**
    A table of two pages of which one is enough: the rebuild unmaps the other, and as written
    `numPages` stays two.  With the limit of 15 one thread alone never gets a second page; any
    two threads can (SlotConcurrency.NoBoundForTwo).
   */
  method PageCountGoesWrong(cfg: Config) returns (a: AddressTable)
    requires !cfg.lowersPages
    ensures fresh(a) && a.numAddresses == 1 && a.table.Length == ADDR_PER_PAGE && a.numPages == 2
    ensures !a.Mapped() && !a.Valid()
  {
    a := new AddressTable(cfg);
    a.AddPage();
    a.RebuildFreeList(0);
  }
}
