/**
  `newObject` and `newArray` (mm.c:15-78): an object is a slot, an extent of eden, and an
  entry of the address table that leads from the one to the other; an array of arrays is
  created from the outside in.

  Slots come from the free list and then from behind the last address, as in
  indirection.c:74-105; extents come from the bump allocator of the module Heap.  One thread
  is followed at a time.
 */
module ObjectCreation {
  import opened Collections
  import opened Heap
  import opened SlotTypes
  import opened Wrappers

  /** `sizeof(object_t)` on x86-64 with glibc: a pointer, a jlock_t of 96 bytes, a slot and a length. */
  const HEADER: Word := 112

  // ---------------------------------------------------------------- the supply of slots

  /** The slots that `allocateSlot` will hand out if none is freed, in order. */
  function Supply(s: Slots): seq<Slot>
    decreases |s.freeList| + s.limit - s.numAddresses
  {
    if s.numAddresses >= s.limit then []
    else
      var (s', slot) := AllocateSlot(s);
      [slot] + Supply(s')
  }

  /** The free list holds issued slots, each once. */
  predicate ListFits(freeList: seq<Slot>, numAddresses: nat) {
    freeList != [] ==>
      && 1 <= freeList[0] < numAddresses && freeList[0] !in freeList[1..]
      && ListFits(freeList[1..], numAddresses)
  }

  predicate SlotsFit(s: Slots) { 1 <= s.numAddresses <= s.limit && ListFits(s.freeList, s.numAddresses) }

  /** Allocating takes the head of the supply, and fails exactly when there is none. */
  lemma AllocateTakesHead(s: Slots)
    requires SlotsFit(s)
    ensures var (s', slot) := AllocateSlot(s);
      && (slot == 0 <==> Supply(s) == [])
      && (slot != 0 ==> SlotsFit(s') && s'.limit == s.limit && Supply(s) == [slot] + Supply(s'))
  {
  }

  /** How many there are: all of the free list and all above, unless the limit is reached. */
  lemma {:induction false} SupplySize(s: Slots)
    requires s.numAddresses <= s.limit
    ensures |Supply(s)| == if s.numAddresses == s.limit then 0 else |s.freeList| + s.limit - s.numAddresses
    decreases |s.freeList| + s.limit - s.numAddresses
  {
    if s.numAddresses < s.limit {
      SupplySize(AllocateSlot(s).0);
    }
  }

  lemma {:induction false} ListBounded(freeList: seq<Slot>, numAddresses: nat, x: Slot)
    requires ListFits(freeList, numAddresses) && x in freeList
    ensures 1 <= x < numAddresses
  {
    if x != freeList[0] {
      ListBounded(freeList[1..], numAddresses, x);
    }
  }

  lemma {:induction false} SupplyFrom(s: Slots, x: Slot)
    requires SlotsFit(s) && x in Supply(s)
    ensures x in s.freeList || x >= s.numAddresses
    decreases |s.freeList| + s.limit - s.numAddresses
  {
    AllocateTakesHead(s);
    var (s', slot) := AllocateSlot(s);
    if x != slot {
      SupplyFrom(s', x);
    }
  }

  /** No slot is handed out twice, and 0 never. */
  lemma {:induction false} SupplyDistinct(s: Slots)
    requires SlotsFit(s)
    ensures Distinct(Supply(s)) && 0 !in Supply(s)
    decreases |s.freeList| + s.limit - s.numAddresses
  {
    if s.numAddresses < s.limit {
      AllocateTakesHead(s);
      var (s', slot) := AllocateSlot(s);
      SupplyDistinct(s');
      forall x | x in Supply(s') ensures x != slot {
        SupplyFrom(s', x);
        if x in s'.freeList { ListBounded(s'.freeList, s'.numAddresses, x); }
      }
      HeadDistinct(slot, Supply(s'));
    }
  }

  lemma HeadDistinct(x: Slot, s: seq<Slot>)
    requires Distinct(s) && x !in s
    ensures Distinct([x] + s)
  {
  }

  // ---------------------------------------------------------------- array classes

  function Brackets(n: nat): (b: string)
    ensures |b| == n && forall i :: 0 <= i < n ==> b[i] == '['
  {
    if n == 0 then "" else "[" + Brackets(n - 1)
  }

  predicate IsArrayClass(name: string) { name != [] && name[0] == '[' }

  predicate IsPrimitiveClass(name: string) { |name| == 1 }

  /** Lines 40-47: the name of the class of arrays with `n` dimensions over `cls`. */
  function ArrayName(n: nat, cls: string): string {
    Brackets(n) + if IsArrayClass(cls) || IsPrimitiveClass(cls) then cls else "L" + cls + ";"
  }

  /** `arrayElementSize` (classfile.c:42-60). */
  function ElementSize(name: string): nat {
    if !IsArrayClass(name) || |name| < 2 then 0
    else
      match name[1]
      case 'Z' => 1
      case 'B' => 1
      case 'C' => 2
      case 'S' => 2
      case 'I' => 4
      case 'F' => 4
      case 'L' => 4
      case '[' => 4
      case 'J' => 8
      case 'D' => 8
      case _ => 0
  }

  // ---------------------------------------------------------------- creating arrays

  datatype ArrayObject = ArrayObject(name: string, slot: Slot, length: int, elements: seq<Slot>)

  /** `table` leads from slots to places in eden, `objects` says what lies there. */
  datatype Memory = Memory(slots: Slots, eden: Eden, table: map<Slot, Word>, objects: map<Word, ArrayObject>)

  /** The classes that `loadClass` finds, and whether a failing allocation gives its mutex back. */
  datatype Config = Config(cls: string, loads: set<string>, releases: bool)

  /** The byte counts are within `int`, as line 78 of heap.c needs. */
  predicate InRange(sizes: seq<int>, cls: string) {
    sizes != [] ==>
      && -INT_LIMIT <= ElementSize(ArrayName(|sizes|, cls)) * sizes[0] < INT_LIMIT
      && InRange(sizes[1..], cls)
  }

  /** `newArray`; 0 when it fails. */
  function NewArray(m: Memory, sizes: seq<int>, c: Config): (Memory, Slot)
    requires InRange(sizes, c.cls)
    decreases |sizes|, 1, 0
  {
    if sizes == [] then (m, 0)
    else
      var (slots, slot) := AllocateSlot(m.slots);
      if slot == 0 then (m, 0)
      else
        var name := ArrayName(|sizes|, c.cls);
        if name !in c.loads then (m.(slots := FreeSlot(slots, slot), table := m.table - {slot}), 0)
        else
          var (eden, place) := Allocate(m.eden, ArrayBytes(HEADER, ElementSize(name), sizes[0]), c.releases);
          if place.None? then (m.(slots := FreeSlot(slots, slot), eden := eden, table := m.table - {slot}), 0)
          else
            var m1 := Memory(slots, eden, m.table[slot := place.value], m.objects);
            if |sizes| == 1 then (Write(m1, place.value, ArrayObject(name, slot, sizes[0], [])), slot)
            else
              var (m2, elements, ok) := NewArrays(m1, sizes[0], sizes[1..], c);
              (Write(m2, place.value, ArrayObject(name, slot, sizes[0], elements)), if ok then slot else 0)
  }

  /** The loop at lines 64-70; the elements created before a failure stay. */
  function NewArrays(m: Memory, n: int, sizes: seq<int>, c: Config): (Memory, seq<Slot>, bool)
    requires InRange(sizes, c.cls)
    decreases |sizes|, 2, n
  {
    if n <= 0 then (m, [], true)
    else
      var (m1, slot) := NewArray(m, sizes, c);
      if slot == 0 then (m1, [], false)
      else
        var (m2, rest, ok) := NewArrays(m1, n - 1, sizes, c);
        (m2, [slot] + rest, ok)
  }

  function Write(m: Memory, place: Word, o: ArrayObject): Memory { m.(objects := m.objects[place := o]) }

  // ---------------------------------------------------------------- what a call needs

  predicate NonNegative(sizes: seq<int>) { forall i :: 0 <= i < |sizes| ==> sizes[i] >= 0 }

  /** The number of arrays in a rectangular tree: 1 + s0 + s0 * s1 + ... over all sizes but the last. */
  function Count(sizes: seq<int>): nat
    decreases |sizes|, 1, 0
  {
    if sizes == [] then 0 else if |sizes| == 1 then 1 else 1 + CountAll(sizes[0], sizes[1..])
  }

  function CountAll(n: int, sizes: seq<int>): nat
    decreases |sizes|, 2, n
  {
    if n <= 0 then 0 else Count(sizes) + CountAll(n - 1, sizes)
  }

  lemma {:induction false} CountAllIsProduct(n: nat, sizes: seq<int>)
    ensures CountAll(n, sizes) == n * Count(sizes)
  {
    if n > 0 {
      CountAllIsProduct(n - 1, sizes);
      assert n * Count(sizes) == Count(sizes) + (n - 1) * Count(sizes);
    }
  }

  function Round(n: nat): nat { (n + 7) / 8 * 8 }

  /** The bytes of eden the tree takes. */
  function Bytes(sizes: seq<int>, cls: string): nat
    requires NonNegative(sizes)
    decreases |sizes|, 1, 0
  {
    if sizes == [] then 0
    else
      Round(HEADER + ElementSize(ArrayName(|sizes|, cls)) * sizes[0])
        + if |sizes| == 1 then 0 else BytesAll(sizes[0], sizes[1..], cls)
  }

  function BytesAll(n: int, sizes: seq<int>, cls: string): nat
    requires NonNegative(sizes)
    decreases |sizes|, 2, n
  {
    if n <= 0 then 0 else Bytes(sizes, cls) + BytesAll(n - 1, sizes, cls)
  }

  /** The array classes of the levels that occur can be loaded. */
  predicate LevelsLoad(sizes: seq<int>, c: Config) {
    sizes != [] ==>
      && ArrayName(|sizes|, c.cls) in c.loads
      && (|sizes| > 1 && sizes[0] > 0 ==> LevelsLoad(sizes[1..], c))
  }

  function Free(m: Memory): int { m.eden.size - m.eden.next }

  predicate Enough(m: Memory, sizes: seq<int>, c: Config)
    requires NonNegative(sizes)
  {
    LevelsLoad(sizes, c) && Count(sizes) <= |Supply(m.slots)| && Bytes(sizes, c.cls) <= Free(m)
  }

  predicate EnoughAll(m: Memory, n: int, sizes: seq<int>, c: Config)
    requires NonNegative(sizes)
  {
    && (n > 0 ==> LevelsLoad(sizes, c))
    && CountAll(n, sizes) <= |Supply(m.slots)| && BytesAll(n, sizes, c.cls) <= Free(m)
  }

  // ---------------------------------------------------------------- what a call leaves

  /** No slot that leads to an object is still to be handed out. */
  predicate Fresh(m: Memory) { forall s :: s in m.table ==> s !in Supply(m.slots) }

  predicate Ready(m: Memory) { SlotsFit(m.slots) && Inv(m.eden) && !m.eden.held && Fresh(m) }

  /**
    At `slot` hangs a rectangular tree of arrays whose slots, outermost first, are `taken`,
    and whose objects lie from `lo` on.
   */
  predicate Built(m: Memory, slot: Slot, sizes: seq<int>, cls: string, taken: seq<Slot>, lo: int)
    decreases |sizes|, 1, 0
  {
    && sizes != [] && taken != [] && taken[0] == slot && slot in m.table
    && var place := m.table[slot];
       && lo <= place < m.eden.next && place in m.objects
       && var o := m.objects[place];
          && o.slot == slot && o.length == sizes[0] && o.name == ArrayName(|sizes|, cls)
          && (|sizes| == 1 ==> taken == [slot])
          && (|sizes| > 1 ==> |o.elements| == sizes[0] && BuiltAll(m, o.elements, sizes[1..], cls, taken[1..], lo))
  }

  predicate BuiltAll(m: Memory, elements: seq<Slot>, sizes: seq<int>, cls: string, taken: seq<Slot>, lo: int)
    decreases |sizes|, 2, |elements|
  {
    if elements == [] then taken == []
    else
      && Count(sizes) <= |taken|
      && Built(m, elements[0], sizes, cls, taken[..Count(sizes)], lo)
      && BuiltAll(m, elements[1..], sizes, cls, taken[Count(sizes)..], lo)
  }

  predicate EntryStays(m: Memory, m': Memory, s: Slot) {
    s in m.table ==> s in m'.table && m'.table[s] == m.table[s]
  }

  predicate EntryIsNew(m: Memory, m': Memory, taken: seq<Slot>, s: Slot) {
    s in m'.table ==> s in m.table || s in taken
  }

  predicate ObjectStays(m: Memory, m': Memory, a: Word) {
    a in m.objects && a < m.eden.next ==> a in m'.objects && m'.objects[a] == m.objects[a]
  }

  /** Every entry and every object that was there stays; the slots taken are the only new keys. */
  ghost predicate Keeps(m: Memory, m': Memory, taken: seq<Slot>) {
    && m.eden.next <= m'.eden.next
    && (forall s {:trigger EntryStays(m, m', s)} :: EntryStays(m, m', s))
    && (forall s {:trigger EntryIsNew(m, m', taken, s)} :: EntryIsNew(m, m', taken, s))
    && (forall a {:trigger ObjectStays(m, m', a)} :: ObjectStays(m, m', a))
  }

  /** The slots taken lead, in order, to the extents that were added to eden. */
  predicate Placed(m: Memory, m': Memory, taken: seq<Slot>) {
    && |m'.eden.objects| == |m.eden.objects| + |taken|
    && (forall i :: 0 <= i < |m.eden.objects| ==> m'.eden.objects[i] == m.eden.objects[i])
    && (forall i :: 0 <= i < |taken| ==>
          taken[i] in m'.table && m'.table[taken[i]] == m'.eden.objects[|m.eden.objects| + i].at)
  }

  /** `taken` slots and `bytes` bytes were used up. */
  ghost predicate Uses(m: Memory, m': Memory, taken: seq<Slot>, bytes: nat) {
    && Ready(m') && m'.slots.limit == m.slots.limit
    && Supply(m.slots) == taken + Supply(m'.slots) && Free(m) == Free(m') + bytes
    && Keeps(m, m', taken) && Placed(m, m', taken)
  }

  // ---------------------------------------------------------------- trees stay built

  lemma {:induction false} BuiltStays(m: Memory, m': Memory, slot: Slot, sizes: seq<int>, cls: string,
                                      taken: seq<Slot>, lo: int, other: seq<Slot>)
    requires Built(m, slot, sizes, cls, taken, lo) && Keeps(m, m', other)
    ensures Built(m', slot, sizes, cls, taken, lo)
    decreases |sizes|, 1, 0
  {
    assert slot == taken[0];
    assert EntryStays(m, m', slot) && ObjectStays(m, m', m.table[slot]);
    if |sizes| > 1 {
      BuiltAllStays(m, m', m.objects[m.table[slot]].elements, sizes[1..], cls, taken[1..], lo, other);
    }
  }

  lemma {:induction false} BuiltAllStays(m: Memory, m': Memory, elements: seq<Slot>, sizes: seq<int>, cls: string,
                                         taken: seq<Slot>, lo: int, other: seq<Slot>)
    requires BuiltAll(m, elements, sizes, cls, taken, lo) && Keeps(m, m', other)
    ensures BuiltAll(m', elements, sizes, cls, taken, lo)
    decreases |sizes|, 2, |elements|
  {
    if elements != [] {
      BuiltStays(m, m', elements[0], sizes, cls, taken[..Count(sizes)], lo, other);
      BuiltAllStays(m, m', elements[1..], sizes, cls, taken[Count(sizes)..], lo, other);
    }
  }

  /** Writing an object below a tree leaves the tree. */
  lemma {:induction false} BuiltAbove(m: Memory, place: Word, o: ArrayObject, slot: Slot, sizes: seq<int>,
                                      cls: string, taken: seq<Slot>, lo: int)
    requires Built(m, slot, sizes, cls, taken, lo) && place < lo
    ensures Built(Write(m, place, o), slot, sizes, cls, taken, lo)
    decreases |sizes|, 1, 0
  {
    if |sizes| > 1 {
      BuiltAllAbove(m, place, o, m.objects[m.table[slot]].elements, sizes[1..], cls, taken[1..], lo);
    }
  }

  lemma {:induction false} BuiltAllAbove(m: Memory, place: Word, o: ArrayObject, elements: seq<Slot>, sizes: seq<int>,
                                         cls: string, taken: seq<Slot>, lo: int)
    requires BuiltAll(m, elements, sizes, cls, taken, lo) && place < lo
    ensures BuiltAll(Write(m, place, o), elements, sizes, cls, taken, lo)
    decreases |sizes|, 2, |elements|
  {
    if elements != [] {
      BuiltAbove(m, place, o, elements[0], sizes, cls, taken[..Count(sizes)], lo);
      BuiltAllAbove(m, place, o, elements[1..], sizes, cls, taken[Count(sizes)..], lo);
    }
  }

  /** A tree that lies higher up also lies from `lo` on. */
  lemma {:induction false} BuiltLower(m: Memory, slot: Slot, sizes: seq<int>, cls: string, taken: seq<Slot>, lo: int,
                                      lo': int)
    requires Built(m, slot, sizes, cls, taken, lo) && lo' <= lo
    ensures Built(m, slot, sizes, cls, taken, lo')
    decreases |sizes|, 1, 0
  {
    if |sizes| > 1 {
      BuiltAllLower(m, m.objects[m.table[slot]].elements, sizes[1..], cls, taken[1..], lo, lo');
    }
  }

  lemma {:induction false} BuiltAllLower(m: Memory, elements: seq<Slot>, sizes: seq<int>, cls: string,
                                         taken: seq<Slot>, lo: int, lo': int)
    requires BuiltAll(m, elements, sizes, cls, taken, lo) && lo' <= lo
    ensures BuiltAll(m, elements, sizes, cls, taken, lo')
    decreases |sizes|, 2, |elements|
  {
    if elements != [] {
      BuiltLower(m, elements[0], sizes, cls, taken[..Count(sizes)], lo, lo');
      BuiltAllLower(m, elements[1..], sizes, cls, taken[Count(sizes)..], lo, lo');
    }
  }

  // ---------------------------------------------------------------- success

  /** The extent of one object. */
  lemma OneExtent(e: Eden, size: Word, releases: bool)
    requires Inv(e) && !e.held && 0 < size && Round(size) <= e.size - e.next
    ensures var (e', place) := Allocate(e, size, releases);
      && place == Some(e.next) && Inv(e') && !e'.held && e'.size == e.size
      && e'.next == e.next + Round(size) && e.next < e'.next
      && e'.objects == e.objects + [Extent(e.next, size)]
  {
    AllocateKeeps(e, size, releases);
    AlignFits(e.size - e.next, size);
  }

  /** One object: a slot, an extent, and the entry between them. */
  lemma OneObject(m: Memory, size: Word, releases: bool)
    requires Ready(m) && Supply(m.slots) != [] && 0 < size && Round(size) <= Free(m)
    ensures var (slots, slot) := AllocateSlot(m.slots);
      var (eden, place) := Allocate(m.eden, size, releases);
      && slot != 0 && place == Some(m.eden.next)
      && Uses(m, Memory(slots, eden, m.table[slot := m.eden.next], m.objects), [slot], Round(size))
      && m.eden.next < eden.next
  {
    AllocateTakesHead(m.slots);
    OneExtent(m.eden, size, releases);
    var (slots, slot) := AllocateSlot(m.slots);
    SupplyDistinct(m.slots);
    HeadApart(slot, Supply(slots));
    assert slot in Supply(m.slots);
  }

  lemma HeadApart(x: Slot, rest: seq<Slot>)
    requires Distinct([x] + rest)
    ensures x !in rest
  {
    var s := [x] + rest;
    forall j | 0 <= j < |rest| ensures rest[j] != x { assert s[0] == x && s[j + 1] == rest[j]; }
  }

  lemma UsesTrans(m: Memory, m1: Memory, m2: Memory, t1: seq<Slot>, t2: seq<Slot>, b1: nat, b2: nat)
    requires Uses(m, m1, t1, b1) && Uses(m1, m2, t2, b2)
    ensures Uses(m, m2, t1 + t2, b1 + b2)
  {
    var rest := Supply(m2.slots);
    assert t1 + (t2 + rest) == (t1 + t2) + rest;
    KeepsTrans(m, m1, m2, t1, t2);
    PlacedTrans(m, m1, m2, t1, t2);
  }

  lemma KeepsTrans(m: Memory, m1: Memory, m2: Memory, t1: seq<Slot>, t2: seq<Slot>)
    requires Keeps(m, m1, t1) && Keeps(m1, m2, t2)
    ensures Keeps(m, m2, t1 + t2)
  {
    forall s ensures EntryStays(m, m2, s) { assert EntryStays(m, m1, s) && EntryStays(m1, m2, s); }
    forall s ensures EntryIsNew(m, m2, t1 + t2, s) { assert EntryIsNew(m, m1, t1, s) && EntryIsNew(m1, m2, t2, s); }
    forall a ensures ObjectStays(m, m2, a) { assert ObjectStays(m, m1, a) && ObjectStays(m1, m2, a); }
  }

  lemma PlacedTrans(m: Memory, m1: Memory, m2: Memory, t1: seq<Slot>, t2: seq<Slot>)
    requires Placed(m, m1, t1) && Placed(m1, m2, t2) && Keeps(m1, m2, t2)
    ensures Placed(m, m2, t1 + t2)
  {
    var t := t1 + t2;
    forall i | 0 <= i < |t| ensures t[i] in m2.table && m2.table[t[i]] == m2.eden.objects[|m.eden.objects| + i].at {
      if i >= |t1| {
        assert t[i] == t2[i - |t1|];
      } else {
        assert t[i] == t1[i] && EntryStays(m1, m2, t1[i]);
      }
    }
  }

  /** Writing an object into new memory does not change what was used. */
  lemma WriteUses(m: Memory, m': Memory, taken: seq<Slot>, bytes: nat, place: Word, o: ArrayObject)
    requires Uses(m, m', taken, bytes) && m.eden.next <= place
    ensures Uses(m, Write(m', place, o), taken, bytes)
  {
    var w := Write(m', place, o);
    forall s ensures EntryStays(m, w, s) { assert EntryStays(m, m', s); }
    forall s ensures EntryIsNew(m, w, taken, s) { assert EntryIsNew(m, m', taken, s); }
    forall a ensures ObjectStays(m, w, a) { assert ObjectStays(m, m', a); }
  }

  /** A successful call uses exactly the next slots of the supply and builds the tree with them. */
  ghost predicate Success(m: Memory, m': Memory, slot: Slot, sizes: seq<int>, cls: string)
    requires NonNegative(sizes)
  {
    && Count(sizes) <= |Supply(m.slots)|
    && var taken := Supply(m.slots)[..Count(sizes)];
       Uses(m, m', taken, Bytes(sizes, cls)) && Built(m', slot, sizes, cls, taken, m.eden.next)
  }

  ghost predicate SuccessAll(m: Memory, m': Memory, elements: seq<Slot>, n: nat, sizes: seq<int>, cls: string)
    requires NonNegative(sizes)
  {
    && |elements| == n && CountAll(n, sizes) <= |Supply(m.slots)|
    && var taken := Supply(m.slots)[..CountAll(n, sizes)];
       Uses(m, m', taken, BytesAll(n, sizes, cls)) && BuiltAll(m', elements, sizes, cls, taken, m.eden.next)
  }

  /** The call fails at once when there is no slot, no class or no room. */
  lemma FailsWithoutSlot(m: Memory, sizes: seq<int>, c: Config)
    requires Ready(m) && sizes != [] && NonNegative(sizes) && InRange(sizes, c.cls) && Supply(m.slots) == []
    ensures NewArray(m, sizes, c).1 == 0 && !Enough(m, sizes, c)
  {
    AllocateTakesHead(m.slots);
    assert Count(sizes) > 0;
  }

  lemma FailsWithoutClass(m: Memory, sizes: seq<int>, c: Config)
    requires Ready(m) && sizes != [] && NonNegative(sizes) && InRange(sizes, c.cls)
    requires ArrayName(|sizes|, c.cls) !in c.loads
    ensures NewArray(m, sizes, c).1 == 0 && !Enough(m, sizes, c)
  {
  }

  lemma FailsWithoutRoom(m: Memory, sizes: seq<int>, c: Config)
    requires Ready(m) && sizes != [] && NonNegative(sizes) && InRange(sizes, c.cls)
    requires Round(ElementBytes(sizes, c.cls)) > Free(m)
    ensures NewArray(m, sizes, c).1 == 0 && !Enough(m, sizes, c)
  {
    NoExtent(m.eden, ElementBytes(sizes, c.cls), c.releases);
    assert Bytes(sizes, c.cls) >= Round(ElementBytes(sizes, c.cls));
  }

  lemma NoExtent(e: Eden, size: Word, releases: bool)
    requires Inv(e) && Round(size) > e.size - e.next
    ensures Allocate(e, size, releases).1.None?
  {
    RoundFits(size, e.size - e.next);
  }

  lemma RoundFits(size: nat, free: nat)
    requires free % 8 == 0
    ensures Round(size) <= free <==> size <= free
  {
    assert free == 8 * (free / 8) && size <= Round(size);
    if size <= free {
      assert (size + 7) / 8 <= free / 8;
    }
  }

  /** The bytes of the outermost array. */
  function ElementBytes(sizes: seq<int>, cls: string): (b: Word)
    requires sizes != [] && sizes[0] >= 0 && InRange(sizes, cls)
    ensures b == ArrayBytes(HEADER, ElementSize(ArrayName(|sizes|, cls)), sizes[0])
    ensures b == HEADER + ElementSize(ArrayName(|sizes|, cls)) * sizes[0] && b > 0
  {
    ArrayFits(HEADER, 1, 0);
    HEADER + ElementSize(ArrayName(|sizes|, cls)) * sizes[0]
  }

  /** The memory after the outermost array has its slot and its place. */
  function Outermost(m: Memory, sizes: seq<int>, c: Config): Memory
    requires sizes != [] && sizes[0] >= 0 && InRange(sizes, c.cls)
  {
    var (slots, slot) := AllocateSlot(m.slots);
    var (eden, _) := Allocate(m.eden, ElementBytes(sizes, c.cls), c.releases);
    Memory(slots, eden, m.table[slot := m.eden.next], m.objects)
  }

  /** What `newArray` does once the outermost array has them. */
  lemma GoesOn(m: Memory, sizes: seq<int>, c: Config)
    requires Ready(m) && sizes != [] && NonNegative(sizes) && InRange(sizes, c.cls)
    requires Supply(m.slots) != [] && ArrayName(|sizes|, c.cls) in c.loads
    requires Round(ElementBytes(sizes, c.cls)) <= Free(m)
    ensures var slot, name := AllocateSlot(m.slots).1, ArrayName(|sizes|, c.cls);
      var m1 := Outermost(m, sizes, c);
      && slot != 0 && Uses(m, m1, [slot], Round(ElementBytes(sizes, c.cls)))
      && m.eden.next < m1.eden.next && slot in m1.table && m1.table[slot] == m.eden.next
      && NewArray(m, sizes, c) ==
           if |sizes| == 1 then (Write(m1, m.eden.next, ArrayObject(name, slot, sizes[0], [])), slot)
           else
             var (m2, elements, ok) := NewArrays(m1, sizes[0], sizes[1..], c);
             (Write(m2, m.eden.next, ArrayObject(name, slot, sizes[0], elements)), if ok then slot else 0)
  {
    OneObject(m, ElementBytes(sizes, c.cls), c.releases);
  }

  lemma {:induction false} NewArrayWorks(m: Memory, sizes: seq<int>, c: Config)
    requires Ready(m) && sizes != [] && NonNegative(sizes) && InRange(sizes, c.cls)
    ensures var (m', slot) := NewArray(m, sizes, c);
      && (slot != 0 <==> Enough(m, sizes, c))
      && (slot != 0 ==> Success(m, m', slot, sizes, c.cls))
    decreases |sizes|, 1, 0
  {
    var name := ArrayName(|sizes|, c.cls);
    var bytes := Round(ElementBytes(sizes, c.cls));
    if Supply(m.slots) == [] {
      FailsWithoutSlot(m, sizes, c);
    } else if name !in c.loads {
      FailsWithoutClass(m, sizes, c);
    } else if bytes > Free(m) {
      FailsWithoutRoom(m, sizes, c);
    } else {
      GoesOn(m, sizes, c);
      var slot, m1 := AllocateSlot(m.slots).1, Outermost(m, sizes, c);
      if |sizes| == 1 {
        WriteUses(m, m1, [slot], bytes, m.eden.next, ArrayObject(name, slot, sizes[0], []));
      } else {
        NewArraysWorks(m1, sizes[0], sizes[1..], c);
        var (m2, elements, ok) := NewArrays(m1, sizes[0], sizes[1..], c);
        if ok {
          NodeBuilt(m, m1, m2, slot, elements, sizes, c);
        }
      }
    }
  }

  lemma NodeBuilt(m: Memory, m1: Memory, m2: Memory, slot: Slot, elements: seq<Slot>, sizes: seq<int>, c: Config)
    requires Ready(m) && |sizes| > 1 && NonNegative(sizes) && InRange(sizes, c.cls)
    requires Uses(m, m1, [slot], Round(ElementBytes(sizes, c.cls)))
    requires slot in m1.table && m1.table[slot] == m.eden.next < m1.eden.next
    requires SuccessAll(m1, m2, elements, sizes[0], sizes[1..], c.cls)
    ensures var o := ArrayObject(ArrayName(|sizes|, c.cls), slot, sizes[0], elements);
      Success(m, Write(m2, m.eden.next, o), slot, sizes, c.cls)
  {
    var o := ArrayObject(ArrayName(|sizes|, c.cls), slot, sizes[0], elements);
    var below := Supply(m1.slots)[..CountAll(sizes[0], sizes[1..])];
    var bytes, bytesBelow := Round(ElementBytes(sizes, c.cls)), BytesAll(sizes[0], sizes[1..], c.cls);
    UsesTrans(m, m1, m2, [slot], below, bytes, bytesBelow);
    WriteUses(m, m2, [slot] + below, bytes + bytesBelow, m.eden.next, o);
    BranchesBelow(m, m1, m2, o, sizes[1..], c.cls, below);
    TakenTogether(Supply(m.slots), Supply(m1.slots), [slot], CountAll(sizes[0], sizes[1..]));
    assert ([slot] + below)[1..] == below;
  }

  lemma BranchesBelow(m: Memory, m1: Memory, m2: Memory, o: ArrayObject, sizes: seq<int>, cls: string, below: seq<Slot>)
    requires BuiltAll(m2, o.elements, sizes, cls, below, m1.eden.next) && m.eden.next < m1.eden.next
    ensures BuiltAll(Write(m2, m.eden.next, o), o.elements, sizes, cls, below, m.eden.next)
  {
    BuiltAllAbove(m2, m.eden.next, o, o.elements, sizes, cls, below, m1.eden.next);
    BuiltAllLower(Write(m2, m.eden.next, o), o.elements, sizes, cls, below, m1.eden.next, m.eden.next);
  }

  lemma {:induction false} NewArraysWorks(m: Memory, n: int, sizes: seq<int>, c: Config)
    requires Ready(m) && sizes != [] && NonNegative(sizes) && InRange(sizes, c.cls) && n >= 0
    ensures var (m', elements, ok) := NewArrays(m, n, sizes, c);
      && (ok <==> EnoughAll(m, n, sizes, c))
      && (ok ==> SuccessAll(m, m', elements, n, sizes, c.cls))
    decreases |sizes|, 2, n
  {
    if n == 0 {
      NoneBuilt(m, sizes, c);
    } else {
      NewArrayWorks(m, sizes, c);
      var (m1, slot) := NewArray(m, sizes, c);
      if slot == 0 {
        NotEnoughFirst(m, n, sizes, c);
      } else {
        NewArraysWorks(m1, n - 1, sizes, c);
        var (m2, rest, ok) := NewArrays(m1, n - 1, sizes, c);
        assert NewArrays(m, n, sizes, c) == (m2, [slot] + rest, ok);
        if ok {
          AllBuilt(m, m1, m2, slot, rest, n, sizes, c);
        }
      }
    }
  }

  lemma NoneBuilt(m: Memory, sizes: seq<int>, c: Config)
    requires Ready(m) && NonNegative(sizes)
    ensures EnoughAll(m, 0, sizes, c) && SuccessAll(m, m, [], 0, sizes, c.cls)
  {
    assert Supply(m.slots)[..0] == [];
    assert [] + Supply(m.slots) == Supply(m.slots);
  }

  lemma NotEnoughFirst(m: Memory, n: int, sizes: seq<int>, c: Config)
    requires NonNegative(sizes) && n > 0 && !Enough(m, sizes, c)
    ensures !EnoughAll(m, n, sizes, c)
  {
  }

  lemma AllBuilt(m: Memory, m1: Memory, m2: Memory, slot: Slot, rest: seq<Slot>, n: int, sizes: seq<int>, c: Config)
    requires Ready(m) && sizes != [] && NonNegative(sizes) && n > 0
    requires Success(m, m1, slot, sizes, c.cls) && SuccessAll(m1, m2, rest, n - 1, sizes, c.cls)
    ensures SuccessAll(m, m2, [slot] + rest, n, sizes, c.cls)
  {
    var first, others := Supply(m.slots)[..Count(sizes)], Supply(m1.slots)[..CountAll(n - 1, sizes)];
    UsesTrans(m, m1, m2, first, others, Bytes(sizes, c.cls), BytesAll(n - 1, sizes, c.cls));
    BuiltStays(m1, m2, slot, sizes, c.cls, first, m.eden.next, others);
    BuiltAllLower(m2, rest, sizes, c.cls, others, m1.eden.next, m.eden.next);
    ConsBuilt(m2, slot, rest, sizes, c.cls, first, others, m.eden.next);
    TakenTogether(Supply(m.slots), Supply(m1.slots), first, CountAll(n - 1, sizes));
  }

  lemma ConsBuilt(m: Memory, slot: Slot, rest: seq<Slot>, sizes: seq<int>, cls: string,
                  first: seq<Slot>, others: seq<Slot>, lo: int)
    requires Built(m, slot, sizes, cls, first, lo) && BuiltAll(m, rest, sizes, cls, others, lo)
    requires |first| == Count(sizes)
    ensures BuiltAll(m, [slot] + rest, sizes, cls, first + others, lo)
  {
    var all, taken := [slot] + rest, first + others;
    assert all[1..] == rest && taken[..|first|] == first && taken[|first|..] == others;
  }

  lemma TakenTogether(supply: seq<Slot>, left: seq<Slot>, first: seq<Slot>, k: nat)
    requires supply == first + left && k <= |left|
    ensures |first| + k <= |supply| && supply[..|first| + k] == first + left[..k]
  {
  }

  /** The storage of the arrays of a tree: extents of eden, in the order of the slots, pairwise apart. */
  lemma StorageApart(m: Memory, m': Memory, slot: Slot, sizes: seq<int>, cls: string, i: nat, j: nat)
    requires Ready(m) && NonNegative(sizes) && Success(m, m', slot, sizes, cls) && i < j < Count(sizes)
    ensures var taken, extents := Supply(m.slots)[..Count(sizes)], m'.eden.objects[|m.eden.objects|..];
      && |extents| == Count(sizes) && taken[i] != taken[j]
      && taken[i] in m'.table && m'.table[taken[i]] == extents[i].at
      && taken[j] in m'.table && m'.table[taken[j]] == extents[j].at
      && extents[i].at + extents[i].size <= extents[j].at
      && extents[j].at + extents[j].size <= m'.eden.next <= m'.eden.size
  {
    var taken := Supply(m.slots)[..Count(sizes)];
    SupplyDistinct(m.slots);
    PlacedApart(m, m', taken, i, j);
  }

  lemma PlacedApart(m: Memory, m': Memory, taken: seq<Slot>, i: nat, j: nat)
    requires Placed(m, m', taken) && Inv(m'.eden) && i < j < |taken|
    ensures var extents := m'.eden.objects[|m.eden.objects|..];
      && |extents| == |taken|
      && taken[i] in m'.table && m'.table[taken[i]] == extents[i].at
      && taken[j] in m'.table && m'.table[taken[j]] == extents[j].at
      && extents[i].at + extents[i].size <= extents[j].at
      && extents[j].at + extents[j].size <= m'.eden.next <= m'.eden.size
  {
    PlacedAt(m, m', taken, i);
    PlacedAt(m, m', taken, j);
    ExtentsApart(m'.eden, |m.eden.objects| + i, |m.eden.objects| + j);
  }

  lemma PlacedAt(m: Memory, m': Memory, taken: seq<Slot>, k: nat)
    requires Placed(m, m', taken) && k < |taken|
    ensures var extents := m'.eden.objects[|m.eden.objects|..];
      && |extents| == |taken| && extents[k] == m'.eden.objects[|m.eden.objects| + k]
      && taken[k] in m'.table && m'.table[taken[k]] == extents[k].at
  {
  }

  lemma ExtentsApart(e: Eden, i: nat, j: nat)
    requires Inv(e) && i < j < |e.objects|
    ensures e.objects[i].at + e.objects[i].size <= e.objects[j].at
    ensures e.objects[j].at + e.objects[j].size <= e.next <= e.size
  {
    PackedApart(e.objects, i, j);
    assert PackedAt(e.objects, j);
    PackedApart(e.objects, j, |e.objects|);
    assert e.objects[..|e.objects|] == e.objects;
  }

  /** As written the limit on slots is 15, so from the start no more than fourteen arrays can be created in one call. */
  lemma AtMostFourteen(m: Memory, sizes: seq<int>, c: Config)
    requires Ready(m) && m.slots == Slots([], 1, SLOT_LIMIT) && sizes != [] && NonNegative(sizes)
    requires InRange(sizes, c.cls)
    ensures Count(sizes) > 14 ==> NewArray(m, sizes, c).1 == 0
    ensures Count(sizes) <= 14 && LevelsLoad(sizes, c) && Bytes(sizes, c.cls) <= Free(m) ==>
      NewArray(m, sizes, c).1 == 1
  {
    NewArrayWorks(m, sizes, c);
    SupplySize(m.slots);
    AllocateTakesHead(m.slots);
    if NewArray(m, sizes, c).1 != 0 {
      FirstIsNext(m, NewArray(m, sizes, c).0, NewArray(m, sizes, c).1, sizes, c.cls);
    }
  }

  /** The tree hangs at the next slot of the supply. */
  lemma FirstIsNext(m: Memory, m': Memory, slot: Slot, sizes: seq<int>, cls: string)
    requires NonNegative(sizes) && Success(m, m', slot, sizes, cls)
    ensures Supply(m.slots) != [] && Supply(m.slots)[0] == slot
  {
  }

  /** `newObject` for a class of `size` bytes; fields are not followed. */
  function NewObject(m: Memory, size: Word, c: Config): (Memory, Slot) {
    var (slots, slot) := AllocateSlot(m.slots);
    if slot == 0 then (m, 0)
    else
      var (eden, place) := Allocate(m.eden, size, c.releases);
      if place.None? then (m.(slots := FreeSlot(slots, slot), eden := eden, table := m.table - {slot}), 0)
      else
        var objects := m.objects[place.value := ArrayObject(c.cls, slot, 0, [])];
        (Memory(slots, eden, m.table[slot := place.value], objects), slot)
  }

  /** It succeeds exactly when there is a slot and room, and then takes just those. */
  lemma NewObjectWorks(m: Memory, size: Word, c: Config)
    requires Ready(m) && size > 0
    ensures var (m', slot) := NewObject(m, size, c);
      && (slot != 0 <==> Supply(m.slots) != [] && Round(size) <= Free(m))
      && (slot != 0 ==>
            && Uses(m, m', [slot], Round(size))
            && m'.table[slot] in m'.objects && m'.objects[m'.table[slot]] == ArrayObject(c.cls, slot, 0, []))
  {
    AllocateTakesHead(m.slots);
    if Supply(m.slots) != [] {
      if Round(size) <= Free(m) {
        OneObject(m, size, c.releases);
        var (slots, slot) := AllocateSlot(m.slots);
        var (eden, place) := Allocate(m.eden, size, c.releases);
        var m1 := Memory(slots, eden, m.table[slot := m.eden.next], m.objects);
        WriteUses(m, m1, [slot], Round(size), m.eden.next, ArrayObject(c.cls, slot, 0, []));
      } else {
        NoExtent(m.eden, size, c.releases);
      }
    }
  }

  // ---------------------------------------------------------------- whatever happens

  /** A slot of the supply is listed, or lies behind the top, and every such slot is in it. */
  lemma {:induction false} SupplyExact(s: Slots, x: Slot)
    requires SlotsFit(s)
    ensures x in Supply(s) <==> s.numAddresses < s.limit && (x in s.freeList || s.numAddresses <= x < s.limit)
    decreases |s.freeList| + s.limit - s.numAddresses
  {
    if s.numAddresses < s.limit {
      AllocateTakesHead(s);
      var (s', slot) := AllocateSlot(s);
      SupplyExact(s', x);
    }
  }

  lemma {:induction false} ListLowered(freeList: seq<Slot>, n: nat)
    requires ListFits(freeList, n) && n >= 1 && n - 1 !in freeList
    ensures ListFits(freeList, n - 1)
  {
    if freeList != [] {
      assert freeList[0] in freeList;
      ListLowered(freeList[1..], n);
    }
  }

  /** A slot that is given back at once leaves the slots in the supply that were there before. */
  lemma GivenBack(s: Slots)
    requires SlotsFit(s) && AllocateSlot(s).1 != 0
    ensures var s' := FreeSlot(AllocateSlot(s).0, AllocateSlot(s).1);
      SlotsFit(s') && s'.limit == s.limit && forall x :: x in Supply(s') <==> x in Supply(s)
  {
    AllocateTakesHead(s);
    var (s1, slot) := AllocateSlot(s);
    var s' := FreeSlot(s1, slot);
    if s.freeList != [] {
      if slot + 1 == s1.numAddresses {
        ListLowered(s1.freeList, s1.numAddresses);
      } else {
        assert s' == s;
      }
    } else {
      assert s' == s;
    }
    forall x ensures x in Supply(s') <==> x in Supply(s) {
      SupplyExact(s', x);
      SupplyExact(s, x);
    }
  }

  /** What a call keeps, whether it succeeds or not. */
  predicate Survives(m: Memory, m': Memory, releases: bool) {
    && SlotsFit(m'.slots) && m'.slots.limit == m.slots.limit && Inv(m'.eden) && Fresh(m')
    && (releases && !m.eden.held ==> !m'.eden.held)
    && m.eden.next <= m'.eden.next && m'.eden.size == m.eden.size
    && (forall x :: x in Supply(m'.slots) ==> x in Supply(m.slots))
    && (forall s :: s in m.table ==> s in m'.table && m'.table[s] == m.table[s])
    && (forall s :: s in m'.table ==> s in m.table || s in Supply(m.slots))
    && (forall a :: a in m.objects && a < m.eden.next ==> a in m'.objects && m'.objects[a] == m.objects[a])
  }

  lemma SurvivesTrans(m: Memory, m1: Memory, m2: Memory, releases: bool)
    requires Survives(m, m1, releases) && Survives(m1, m2, releases)
    ensures Survives(m, m2, releases)
  {
  }

  lemma WriteSurvives(m: Memory, m': Memory, place: Word, o: ArrayObject, releases: bool)
    requires Survives(m, m', releases) && m.eden.next <= place
    ensures Survives(m, Write(m', place, o), releases)
  {
  }

  predicate Sound(m: Memory) { SlotsFit(m.slots) && Inv(m.eden) && Fresh(m) }

  /** The slot is given back and the table is as it was. */
  lemma FailureSurvives(m: Memory, eden: Eden, releases: bool)
    requires Sound(m) && AllocateSlot(m.slots).1 != 0
    requires Inv(eden) && eden.next == m.eden.next && eden.size == m.eden.size
    requires releases && !m.eden.held ==> !eden.held
    ensures var (slots, slot) := AllocateSlot(m.slots);
      Survives(m, Memory(FreeSlot(slots, slot), eden, m.table - {slot}, m.objects), releases)
  {
    GivenBack(m.slots);
    AllocateTakesHead(m.slots);
    assert AllocateSlot(m.slots).1 in Supply(m.slots);
    assert m.table - {AllocateSlot(m.slots).1} == m.table;
  }

  /** Nothing has been taken: the same slots are to be handed out, and no entry, object or extent is new. */
  ghost predicate TookNothing(m: Memory, m': Memory, held: bool) {
    && (forall x :: x in Supply(m'.slots) <==> x in Supply(m.slots))
    && m'.table == m.table && m'.objects == m.objects && m'.eden == m.eden.(held := held)
  }

  /**
    A call that fails before its first array is there has taken nothing; when there was no
    room, the allocation mutex is left as Heap says.
   */
  lemma FailureTakesNothing(m: Memory, sizes: seq<int>, c: Config)
    requires Sound(m) && !m.eden.held && InRange(sizes, c.cls)
    ensures sizes == [] || Supply(m.slots) == [] ==> NewArray(m, sizes, c) == (m, 0)
    ensures sizes != [] && Supply(m.slots) != [] ==>
      var name := ArrayName(|sizes|, c.cls);
      var (m', slot) := NewArray(m, sizes, c);
      if name !in c.loads then slot == 0 && TookNothing(m, m', false)
      else ArrayBytes(HEADER, ElementSize(name), sizes[0]) > Free(m) ==> slot == 0 && TookNothing(m, m', !c.releases)
  {
    AllocateTakesHead(m.slots);
    if sizes != [] && Supply(m.slots) != [] { SlotGivenBack(m); }
  }

  lemma SlotGivenBack(m: Memory)
    requires Sound(m) && AllocateSlot(m.slots).1 != 0
    ensures var (slots, slot) := AllocateSlot(m.slots);
      && m.table - {slot} == m.table
      && forall x :: x in Supply(FreeSlot(slots, slot)) <==> x in Supply(m.slots)
  {
    GivenBack(m.slots);
    AllocateTakesHead(m.slots);
    assert AllocateSlot(m.slots).1 in Supply(m.slots);
  }

  lemma FailedObjectTakesNothing(m: Memory, size: Word, c: Config)
    requires Sound(m) && !m.eden.held
    ensures Supply(m.slots) == [] ==> NewObject(m, size, c) == (m, 0)
    ensures Supply(m.slots) != [] && size > Free(m) ==>
      var (m', slot) := NewObject(m, size, c); slot == 0 && TookNothing(m, m', !c.releases)
  {
    AllocateTakesHead(m.slots);
    if Supply(m.slots) != [] { SlotGivenBack(m); }
  }

  /** The slot taken was in the supply, and is no longer. */
  lemma TakenSlot(s: Slots)
    requires SlotsFit(s) && AllocateSlot(s).1 != 0
    ensures var (s', slot) := AllocateSlot(s);
      && SlotsFit(s') && s'.limit == s.limit && slot in Supply(s) && slot !in Supply(s')
      && forall x :: x in Supply(s') ==> x in Supply(s)
  {
    AllocateTakesHead(s);
    SupplyDistinct(s);
    var (s', slot) := AllocateSlot(s);
    HeadApart(slot, Supply(s'));
    forall x | x in Supply(s') ensures x in Supply(s) { assert x in [slot] + Supply(s'); }
  }

  /** A failing or succeeding allocation keeps eden in order, and moves its next position up only. */
  lemma EdenSurvives(e: Eden, size: Word, releases: bool)
    requires Inv(e)
    ensures var (e', place) := Allocate(e, size, releases);
      && Inv(e') && e'.size == e.size && e.next <= e'.next
      && (place.None? ==> e'.next == e.next)
      && (place.Some? ==> place.value == e.next)
      && (releases && !e.held ==> !e'.held)
  {
    AllocateKeeps(e, size, releases);
    if size <= e.size - e.next { AlignFits(e.size - e.next, size); }
  }

  lemma TakenSurvives(m: Memory, slots: Slots, slot: Slot, eden: Eden, releases: bool)
    requires Sound(m) && slot != 0 && (slots, slot) == AllocateSlot(m.slots)
    requires Inv(eden) && eden.size == m.eden.size && m.eden.next <= eden.next
    requires releases && !m.eden.held ==> !eden.held
    ensures Survives(m, Memory(slots, eden, m.table[slot := m.eden.next], m.objects), releases)
  {
    TakenSlot(m.slots);
  }

  /**
    Whatever the sizes, and whether the call succeeds or not: every earlier entry and object
    stays, new entries are at slots that were still to be handed out, and no slot that leads
    to an object is handed out again.
   */
  lemma {:induction false} NewArraySurvives(m: Memory, sizes: seq<int>, c: Config)
    requires Sound(m) && InRange(sizes, c.cls)
    ensures Survives(m, NewArray(m, sizes, c).0, c.releases)
    decreases |sizes|, 1, 0
  {
    if sizes != [] && AllocateSlot(m.slots).1 != 0 {
      var name := ArrayName(|sizes|, c.cls);
      if name !in c.loads {
        FailureSurvives(m, m.eden, c.releases);
      } else {
        CreationSurvives(m, sizes, c);
      }
    }
  }

  lemma {:induction false} CreationSurvives(m: Memory, sizes: seq<int>, c: Config)
    requires Sound(m) && InRange(sizes, c.cls) && sizes != [] && AllocateSlot(m.slots).1 != 0
    requires ArrayName(|sizes|, c.cls) in c.loads
    ensures Survives(m, NewArray(m, sizes, c).0, c.releases)
    decreases |sizes|, 0, 0
  {
    var (slots, slot) := AllocateSlot(m.slots);
    var name := ArrayName(|sizes|, c.cls);
    var bytes := ArrayBytes(HEADER, ElementSize(name), sizes[0]);
    var (eden, place) := Allocate(m.eden, bytes, c.releases);
    EdenSurvives(m.eden, bytes, c.releases);
    if place.None? {
      FailureSurvives(m, eden, c.releases);
    } else {
      TakenSurvives(m, slots, slot, eden, c.releases);
      var m1 := Memory(slots, eden, m.table[slot := place.value], m.objects);
      if |sizes| == 1 {
        WriteSurvives(m, m1, place.value, ArrayObject(name, slot, sizes[0], []), c.releases);
      } else {
        NewArraysSurvive(m1, sizes[0], sizes[1..], c);
        var (m2, elements, ok) := NewArrays(m1, sizes[0], sizes[1..], c);
        SurvivesTrans(m, m1, m2, c.releases);
        WriteSurvives(m, m2, place.value, ArrayObject(name, slot, sizes[0], elements), c.releases);
      }
    }
  }

  lemma {:induction false} NewArraysSurvive(m: Memory, n: int, sizes: seq<int>, c: Config)
    requires Sound(m) && InRange(sizes, c.cls)
    ensures Survives(m, NewArrays(m, n, sizes, c).0, c.releases)
    decreases |sizes|, 2, n
  {
    if n > 0 {
      NewArraySurvives(m, sizes, c);
      var (m1, slot) := NewArray(m, sizes, c);
      if slot != 0 {
        NewArraysSurvive(m1, n - 1, sizes, c);
        SurvivesTrans(m, m1, NewArrays(m1, n - 1, sizes, c).0, c.releases);
      }
    }
  }

  // ---------------------------------------------------------------- the methods

  /** What a loop that has created `done` arrays will end with. */
  function Prepend(done: seq<Slot>, r: (Memory, seq<Slot>, bool)): (Memory, seq<Slot>, bool) { (r.0, done + r.1, r.2) }

  lemma PrependNothing(r: (Memory, seq<Slot>, bool))
    ensures Prepend([], r) == r
  {
    assert [] + r.1 == r.1;
  }

  lemma PrependOne(done: seq<Slot>, x: Slot, m: Memory, rest: seq<Slot>, ok: bool)
    ensures Prepend(done, (m, [x] + rest, ok)) == Prepend(done + [x], (m, rest, ok))
  {
    assert done + ([x] + rest) == (done + [x]) + rest;
  }

  /** One turn of the loop. */
  lemma OneMore(m: Memory, n: int, sizes: seq<int>, c: Config, done: seq<Slot>)
    requires InRange(sizes, c.cls) && n > 0
    ensures var (m1, slot) := NewArray(m, sizes, c);
      Prepend(done, NewArrays(m, n, sizes, c)) ==
        if slot == 0 then (m1, done, false) else Prepend(done + [slot], NewArrays(m1, n - 1, sizes, c))
  {
    var (m1, slot) := NewArray(m, sizes, c);
    if slot == 0 {
      assert done + [] == done;
    } else {
      var (m2, rest, ok) := NewArrays(m1, n - 1, sizes, c);
      PrependOne(done, slot, m2, rest, ok);
    }
  }

  class ObjectMemory {
    const config: Config
    var memory: Memory

    constructor (memory: Memory, config: Config)
      ensures this.memory == memory && this.config == config
    {
      this.memory := memory;
      this.config := config;
    }

    method CreateObject(size: Word) returns (slot: Slot)
      modifies this
      ensures (memory, slot) == NewObject(old(memory), size, config)
    {
      var (slots, s) := AllocateSlot(memory.slots);
      if s == 0 { return 0; }
      memory := memory.(slots := slots);
      var (eden, place) := Allocate(memory.eden, size, config.releases);
      memory := memory.(eden := eden);
      if place.None? {
        memory := memory.(slots := FreeSlot(slots, s), table := memory.table - {s});
        return 0;
      }
      memory := memory.(table := memory.table[s := place.value]);
      memory := Write(memory, place.value, ArrayObject(config.cls, s, 0, []));
      return s;
    }

    method CreateArray(sizes: seq<int>) returns (slot: Slot)
      requires InRange(sizes, config.cls)
      modifies this
      ensures (memory, slot) == NewArray(old(memory), sizes, config)
      decreases |sizes|, 1
    {
      if sizes == [] { return 0; }
      var (slots, s) := AllocateSlot(memory.slots);
      if s == 0 { return 0; }
      var name := ArrayName(|sizes|, config.cls);
      if name !in config.loads {
        memory := memory.(slots := FreeSlot(slots, s), table := memory.table - {s});
        return 0;
      }
      var (eden, place) := Allocate(memory.eden, ArrayBytes(HEADER, ElementSize(name), sizes[0]), config.releases);
      if place.None? {
        memory := memory.(slots := FreeSlot(slots, s), eden := eden, table := memory.table - {s});
        return 0;
      }
      memory := Memory(slots, eden, memory.table[s := place.value], memory.objects);
      var elements: seq<Slot>, ok := [], true;
      if |sizes| > 1 {
        elements, ok := CreateElements(sizes[0], sizes[1..]);
      }
      memory := Write(memory, place.value, ArrayObject(name, s, sizes[0], elements));
      slot := if ok then s else 0;
    }

    /** The loop at lines 64-70, up to the first array that fails. */
    method CreateElements(n: int, sizes: seq<int>) returns (elements: seq<Slot>, ok: bool)
      requires InRange(sizes, config.cls)
      modifies this
      ensures (memory, elements, ok) == NewArrays(old(memory), n, sizes, config)
      decreases |sizes|, 2
    {
      elements, ok := [], true;
      PrependNothing(NewArrays(memory, n, sizes, config));
      var i := 0;
      while i < n
        invariant 0 <= i && (i <= n || i == 0)
        invariant NewArrays(old(memory), n, sizes, config) == Prepend(elements, NewArrays(memory, n - i, sizes, config))
        decreases n - i
      {
        OneMore(memory, n - i, sizes, config, elements);
        var subArray := CreateArray(sizes);
        if subArray == 0 {
          return elements, false;
        }
        elements := elements + [subArray];
        i := i + 1;
      }
      assert elements + [] == elements;
    }
  }
}
