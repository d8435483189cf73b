/**
  Sequences of the instructions of the module OperandStack, against the machine of the JVMS
  that keeps whole values on its stack (sections 2.6.1, 2.6.2 and 6.5).

  The code keeps cells and type tags, and goes by the tags.  The results are about code that
  the verifier of the JVMS (section 4.10) admits: each instruction finds values of the
  categories it needs, and room for what it pushes.
 */
module Instructions {
  import opened FrameLayout
  import opened OperandStack
  import opened Wrappers

  /** `Dup(k, m)` repeats the top `k` slots below the `m` under them; `dup2_x1` is `Dup(2, 1)`. */
  datatype Instr =
    | Load(index: nat, tag: Tag)
    | Store(index: nat)
    | StoreN(index: nat)
    | Dup(k: nat, m: nat)
    | Swap
    | L2d(low: Cell, high: Cell)

  /** What the code as written finds outside its stack: the cells it repeats, and a tag below the base. */
  datatype Seen = Seen(low: Cell, high: Cell, tag: Tag)

  // ---------------------------------------------------------------- what the code does

  datatype Machine = Machine(slots: seq<Slot>, locals: seq<Cell>) {
    /** The tag `index` slots below the top, or the one found there. */
    function Peeked(index: nat, seen: Seen): Tag {
      if index < |slots| then slots[|slots| - 1 - index].tag else seen.tag
    }
  }

  predicate Possible(s: Machine, i: Instr) {
    match i
    case Load(index, tag) => index + CellsOf(tag) <= |s.locals|
    case Store(_) => s.slots != []
    case StoreN(index) => s.slots != [] && index <= 3
    case Dup(k, m) => 1 <= k <= 2 && m <= 2 && k + m <= |s.slots|
    case Swap => 2 <= |s.slots|
    case L2d(_, _) => 2 <= |s.slots|
  }

  /** A store by the given tag; none if it takes more than the stack holds or the locals have room for. */
  function StoreBy(s: Machine, index: nat, tag: Tag): Option<Machine> {
    if CellsOf(tag) <= |s.slots| && index + CellsOf(tag) <= |s.locals| then
      var (slots, locals) := StoreTop(s.slots, s.locals, index, Wide(tag));
      Some(Machine(slots, locals))
    else None
  }

  /** The top `k` slots again, with the cells that were read for them. */
  function Reread(s: seq<Slot>, k: nat, seen: Seen): seq<Slot>
    requires 1 <= k <= 2 && k <= |s|
  {
    if k == 1 then [Slot(seen.low, s[|s| - 1].tag)]
    else [Slot(seen.low, s[|s| - 2].tag), Slot(seen.high, s[|s| - 1].tag)]
  }

  function AfterDup(repaired: bool, s: seq<Slot>, k: nat, m: nat, seen: Seen): seq<Slot>
    requires 1 <= k <= 2 && k + m <= |s|
  {
    if repaired || m > 0 then DupUnder(s, k, m) else s + Reread(s, k, seen)
  }

  /** One instruction on slots and locals, as the methods of StackFrame leave them. */
  function Effect(repaired: bool, s: Machine, i: Instr, seen: Seen): Option<Machine>
    requires Possible(s, i)
  {
    match i
    case Load(index, tag) => Some(s.(slots := s.slots + LoadedSlots(s.locals, index, tag, Wide(tag))))
    case Store(index) => StoreBy(s, index, s.Peeked(0, seen))
    case StoreN(index) => StoreBy(s, index, s.Peeked(if repaired then 0 else index, seen))
    case Dup(k, m) => Some(s.(slots := AfterDup(repaired, s.slots, k, m, seen)))
    case Swap => Some(s.(slots := Swapped(s.slots)))
    case L2d(low, high) =>
      var v := Two(low, high, if repaired then TYPE_DOUBLE else TYPE_INT);
      Some(s.(slots := s.slots[..|s.slots| - 2] + v.Slots()))
  }

  /** There is room on the frame's stack for what an instruction pushes. */
  predicate HasRoom(top: nat, maxStack: nat, i: Instr) {
    match i
    case Load(_, tag) => top + CellsOf(tag) <= maxStack
    case Dup(k, _) => top + k <= maxStack
    case _ => true
  }

  /** The methods of StackFrame do this; `inArea` is false when a store has gone round or out of the area. */
  method Execute(f: StackFrame, i: Instr) returns (inArea: bool, ghost seen: Seen)
    requires f.Valid() && Possible(Machine(f.Slots(), f.Locals()), i) && HasRoom(f.topOfStack, f.frame.maxStack, i)
    modifies f
    ensures var r := Effect(f.repaired, Machine(old(f.Slots()), old(f.Locals())), i, seen);
      r.Some? ==> inArea && f.Valid() && Machine(f.Slots(), f.Locals()) == r.value
  {
    inArea := true;
    if i.Store? || i.StoreN? {
      inArea, seen := ExecuteStore(f, i);
    } else if i.Dup? {
      seen := ExecuteDup(f, i);
    } else {
      seen := ExecuteOther(f, i);
    }
  }

  method ExecuteOther(f: StackFrame, i: Instr) returns (ghost seen: Seen)
    requires f.Valid() && Possible(Machine(f.Slots(), f.Locals()), i) && HasRoom(f.topOfStack, f.frame.maxStack, i)
    requires i.Load? || i.Swap? || i.L2d?
    modifies f
    ensures f.Valid()
    ensures Effect(f.repaired, Machine(old(f.Slots()), old(f.Locals())), i, seen) ==
      Some(Machine(f.Slots(), f.Locals()))
  {
    seen := Seen(Cell(0, 0, 0, 0), Cell(0, 0, 0, 0), 0);
    match i
    case Load(index, tag) => f.XLoad(index, tag);
    case Swap => f.Swap();
    case L2d(low, high) => f.L2d(low, high);
  }

  /** What a store finds outside the stack. */
  function StoreSees(f: Frame, m: Area, n: nat, peeked: nat): Seen
    requires InArea(f, m) && n <= f.maxStack && peeked < f.tags + n
  {
    Seen(Cell(0, 0, 0, 0), Cell(0, 0, 0, 0), PeekedTag(f, m, n, peeked))
  }

  lemma PeekedIs(f: Frame, m: Area, n: nat, peeked: nat)
    requires InArea(f, m) && n <= f.maxStack && peeked < f.tags + n
    ensures Machine(SlotsOf(f, m, n), LocalsOf(f, m)).Peeked(peeked, StoreSees(f, m, n, peeked)) ==
      PeekedTag(f, m, n, peeked)
  {
    if peeked < n { SlotIs(f, m, n, n - 1 - peeked); }
  }

  /** What a store leaves in the area is what it should leave of the slots and locals. */
  lemma StoreMatches(f: Frame, m: Area, n: nat, index: nat, tag: Tag)
    requires InArea(f, m) && n <= f.maxStack
    requires StoreBy(Machine(SlotsOf(f, m, n), LocalsOf(f, m)), index, tag).Some?
    ensures Outcome(f, m, n, index, Wide(tag)).Some?
    ensures var (r, top) := Outcome(f, m, n, index, Wide(tag)).value;
      && top < n && InArea(f, r)
      && Machine(SlotsOf(f, r, top), LocalsOf(f, r)) ==
           StoreBy(Machine(SlotsOf(f, m, n), LocalsOf(f, m)), index, tag).value
  {
    StoresInPlace(f, m, n, index, Wide(tag));
  }

  method ExecuteStore(f: StackFrame, i: Instr) returns (inArea: bool, ghost seen: Seen)
    requires f.Valid() && f.topOfStack > 0 && (i.Store? || (i.StoreN? && i.index <= 3))
    modifies f
    ensures var r := Effect(f.repaired, Machine(old(f.Slots()), old(f.Locals())), i, seen);
      r.Some? ==> inArea && f.Valid() && Machine(f.Slots(), f.Locals()) == r.value
  {
    ghost var peeked := if i.StoreN? && !f.repaired then i.index else 0;
    ghost var s := Machine(f.Slots(), f.Locals());
    ghost var tag := PeekedTag(f.frame, f.area, f.topOfStack, peeked);
    seen := StoreSees(f.frame, f.area, f.topOfStack, peeked);
    PeekedIs(f.frame, f.area, f.topOfStack, peeked);
    assert Effect(f.repaired, s, i, seen) == StoreBy(s, i.index, tag);
    if StoreBy(s, i.index, tag).Some? { StoreMatches(f.frame, f.area, f.topOfStack, i.index, tag); }
    if i.Store? { inArea := f.XStore(i.index); } else { inArea := f.XStoreN(i.index); }
  }

  /** What `dup` and `dup2` as written read below the stack. */
  function DupSees(f: Frame, m: Area, n: nat, k: nat): Seen
    requires InArea(f, m) && 1 <= k <= 2 && k <= n < f.maxStack
  {
    if k == 1 then Seen(ReadCell(m, f.cells - 4), ReadCell(m, f.cells - 4), 0)
    else Seen(ReadCell(m, f.cells - 8), ReadCell(TagPushed(f, m, n), f.cells - 8), 0)
  }

  lemma WrittenDupRereads(f: Frame, m: Area, n: nat)
    requires InArea(f, m) && 1 <= n < f.maxStack
    ensures WrittenDup(f, m, n) == SlotsOf(f, m, n) + Reread(SlotsOf(f, m, n), 1, DupSees(f, m, n, 1))
  {
    SlotIs(f, m, n, n - 1);
  }

  lemma WrittenDup2Rereads(f: Frame, m: Area, n: nat)
    requires InArea(f, m) && 2 <= n < f.maxStack
    ensures WrittenDup2(f, m, n) == SlotsOf(f, m, n) + Reread(SlotsOf(f, m, n), 2, DupSees(f, m, n, 2))
  {
    TopTwo(f, m, n);
  }

  method ExecuteDup(f: StackFrame, i: Instr) returns (ghost seen: Seen)
    requires f.Valid() && i.Dup? && Possible(Machine(f.Slots(), f.Locals()), i)
    requires HasRoom(f.topOfStack, f.frame.maxStack, i)
    modifies f
    ensures f.Valid()
    ensures Effect(f.repaired, Machine(old(f.Slots()), old(f.Locals())), i, seen) ==
      Some(Machine(f.Slots(), f.Locals()))
  {
    if i.m == 0 {
      if i.k == 1 { seen := ExecuteDupOne(f); } else { seen := ExecuteDupTwo(f); }
    } else {
      seen := Seen(Cell(0, 0, 0, 0), Cell(0, 0, 0, 0), 0);
      if i.k == 1 { ExecuteUnderOne(f, i.m, seen); } else { ExecuteUnderTwo(f, i.m, seen); }
    }
  }

  method ExecuteUnderOne(f: StackFrame, m: nat, ghost seen: Seen)
    requires f.Valid() && 1 <= m <= 2 && 1 + m <= f.topOfStack && f.topOfStack + 1 <= f.frame.maxStack
    modifies f
    ensures f.Valid() && f.Locals() == old(f.Locals())
    ensures f.Slots() == AfterDup(f.repaired, old(f.Slots()), 1, m, seen)
  {
    if m == 1 { f.DupX1(); } else { f.DupX2(); }
  }

  method ExecuteUnderTwo(f: StackFrame, m: nat, ghost seen: Seen)
    requires f.Valid() && 1 <= m <= 2 && 2 + m <= f.topOfStack && f.topOfStack + 2 <= f.frame.maxStack
    modifies f
    ensures f.Valid() && f.Locals() == old(f.Locals())
    ensures f.Slots() == AfterDup(f.repaired, old(f.Slots()), 2, m, seen)
  {
    if m == 1 { f.Dup2X1(); } else { f.Dup2X2(); }
  }

  method ExecuteDupOne(f: StackFrame) returns (ghost seen: Seen)
    requires f.Valid() && 1 <= f.topOfStack && f.topOfStack + 1 <= f.frame.maxStack
    modifies f
    ensures f.Valid() && f.Locals() == old(f.Locals())
    ensures f.Slots() == AfterDup(f.repaired, old(f.Slots()), 1, 0, seen)
  {
    seen := DupSees(f.frame, f.area, f.topOfStack, 1);
    WrittenDupRereads(f.frame, f.area, f.topOfStack);
    f.Dup();
  }

  method ExecuteDupTwo(f: StackFrame) returns (ghost seen: Seen)
    requires f.Valid() && 2 <= f.topOfStack && f.topOfStack + 2 <= f.frame.maxStack
    modifies f
    ensures f.Valid() && f.Locals() == old(f.Locals())
    ensures f.Slots() == AfterDup(f.repaired, old(f.Slots()), 2, 0, seen)
  {
    seen := DupSees(f.frame, f.area, f.topOfStack, 2);
    WrittenDup2Rereads(f.frame, f.area, f.topOfStack);
    f.Dup2();
  }

  // ---------------------------------------------------------------- what it should mean

  datatype Reference = Reference(values: seq<Value>, locals: seq<Cell>) {
    function Image(): Machine { Machine(Flat(values), locals) }

    function Top(): Value
      requires values != []
    {
      values[|values| - 1]
    }

    function Rest(): seq<Value>
      requires values != []
    {
      values[..|values| - 1]
    }
  }

  /** How many values make up the top `k` slots, when whole values do. */
  function CountAbove(vs: seq<Value>, k: nat): (c: Option<nat>)
    ensures c.Some? ==> c.value <= |vs|
    decreases |vs|
  {
    if k == 0 then Some(0)
    else if vs == [] || |vs[|vs| - 1].Slots()| > k then None
    else
      match CountAbove(vs[..|vs| - 1], k - |vs[|vs| - 1].Slots()|)
      case None => None
      case Some(c) => Some(c + 1)
  }

  /** The values that make up the top `k` slots and the `m` slots under them, and the others. */
  function Split(vs: seq<Value>, k: nat, m: nat): Option<(seq<Value>, seq<Value>, seq<Value>)> {
    match CountAbove(vs, k)
    case None => None
    case Some(c) =>
      match CountAbove(vs[..|vs| - c], m)
      case None => None
      case Some(d) => Some((vs[..|vs| - c - d], vs[|vs| - c - d..|vs| - c], vs[|vs| - c..]))
  }

  /** What the verifier asks of the values an instruction finds. */
  predicate Typed(r: Reference, i: Instr, maxStack: nat) {
    match i
    case Load(index, tag) => index + CellsOf(tag) <= |r.locals| && |Flat(r.values)| + CellsOf(tag) <= maxStack
    case Store(index) => r.values != [] && index + |r.Top().Cells()| <= |r.locals|
    case StoreN(index) => r.values != [] && index <= 3 && index + |r.Top().Cells()| <= |r.locals|
    case Dup(k, m) => 1 <= k <= 2 && m <= 2 && Split(r.values, k, m).Some? && |Flat(r.values)| + k <= maxStack
    case Swap => 2 <= |r.values| && r.values[|r.values| - 2].One? && r.Top().One?
    case L2d(_, _) => r.values != [] && r.Top().Two?
  }

  function Loaded(locals: seq<Cell>, index: nat, tag: Tag): Value
    requires index + CellsOf(tag) <= |locals|
  {
    if Wide(tag) then Two(locals[index], locals[index + 1], tag) else One(locals[index], tag)
  }

  /** The values of one or two slots, with other cells. */
  function WithCells(top: seq<Value>, seen: Seen): seq<Value>
    requires 1 <= |top| <= 2
  {
    if |top| == 2 then [One(seen.low, top[0].tag), One(seen.high, top[1].tag)]
    else if top[0].Two? then [Two(seen.low, seen.high, top[0].tag)]
    else [One(seen.low, top[0].tag)]
  }

  function DupValues(repaired: bool, vs: seq<Value>, k: nat, m: nat, seen: Seen): seq<Value>
    requires 1 <= k <= 2 && Split(vs, k, m).Some?
  {
    var (rest, under, top) := Split(vs, k, m).value;
    SplitSizes(vs, k, m);
    if repaired || m > 0 then rest + top + under + top else vs + WithCells(top, seen)
  }

  /** The instruction as the JVMS has it, but for the cells that `dup` and `dup2` as written repeat. */
  function Meaning(repaired: bool, r: Reference, i: Instr, seen: Seen, maxStack: nat): Reference
    requires Typed(r, i, maxStack)
  {
    match i
    case Load(index, tag) => r.(values := r.values + [Loaded(r.locals, index, tag)])
    case Store(index) => Reference(r.Rest(), Stored(r.locals, index, r.Top().Cells()))
    case StoreN(index) => Reference(r.Rest(), Stored(r.locals, index, r.Top().Cells()))
    case Dup(k, m) => r.(values := DupValues(repaired, r.values, k, m, seen))
    case Swap =>
      var n := |r.values|;
      r.(values := r.values[..n - 2] + [r.values[n - 1], r.values[n - 2]])
    case L2d(low, high) => r.(values := r.Rest() + [Two(low, high, TYPE_DOUBLE)])
  }

  /** The number of slots of the top `c` values. */
  function SlotsAbove(vs: seq<Value>, c: nat): nat
    requires c <= |vs|
  {
    if c == 0 then 0 else SlotsAbove(vs[..|vs| - 1], c - 1) + |vs[|vs| - 1].Slots()|
  }

  lemma {:induction false} CountedSlots(vs: seq<Value>, k: nat)
    requires CountAbove(vs, k).Some?
    ensures var c := CountAbove(vs, k).value;
      SlotsAbove(vs, c) == k && c <= k && (c == 0 ==> k == 0)
    decreases |vs|
  {
    if k > 0 { CountedSlots(vs[..|vs| - 1], k - |vs[|vs| - 1].Slots()|); }
  }

  lemma {:induction false} SlotsOfTop(vs: seq<Value>, c: nat)
    requires c <= |vs|
    ensures |Flat(vs[|vs| - c..])| == SlotsAbove(vs, c)
    decreases c
  {
    if c > 0 {
      var rest := vs[..|vs| - 1];
      SlotsOfTop(rest, c - 1);
      FlatOne(rest[|rest| - (c - 1)..], vs[|vs| - 1]);
      OneMore(vs, c - 1);
    }
  }

  lemma OneMore(vs: seq<Value>, c: nat)
    requires c < |vs|
    ensures var n := |vs|; vs[n - (c + 1)..] == vs[..n - 1][n - 1 - c..] + [vs[n - 1]]
  {
  }

  lemma TopSlots(vs: seq<Value>, k: nat)
    requires CountAbove(vs, k).Some?
    ensures var c := CountAbove(vs, k).value;
      |Flat(vs[|vs| - c..])| == k && c <= k && (c == 0 ==> k == 0)
  {
    CountedSlots(vs, k);
    SlotsOfTop(vs, CountAbove(vs, k).value);
  }

  /** Whole values are always found. */
  lemma {:induction false} CountFinds(rest: seq<Value>, top: seq<Value>)
    ensures CountAbove(rest + top, |Flat(top)|) == Some(|top|)
    decreases |top|
  {
    if top != [] {
      var n := |top| - 1;
      FlatOne(top[..n], top[n]);
      assert top == top[..n] + [top[n]];
      assert (rest + top)[..|rest + top| - 1] == rest + top[..n] && (rest + top)[|rest + top| - 1] == top[n];
      CountFinds(rest, top[..n]);
    }
  }

  /** So the instructions of the dup family are admitted on all the forms that the JVMS allows. */
  lemma SplitFinds(rest: seq<Value>, under: seq<Value>, top: seq<Value>)
    ensures Split(rest + under + top, |Flat(top)|, |Flat(under)|) == Some((rest, under, top))
  {
    CountFinds(rest + under, top);
    CountFinds(rest, under);
    ThreeParts(rest, under, top);
  }

  lemma ThreeParts(a: seq<Value>, b: seq<Value>, c: seq<Value>)
    ensures var s, i := a + b + c, |a| + |b|;
      s[..i] == a + b && s[i..] == c && s[..|a|] == a && s[|a|..i] == b && |s| - |c| == i && i - |b| == |a|
  {
  }

  lemma SplitSizes(vs: seq<Value>, k: nat, m: nat)
    requires Split(vs, k, m).Some?
    ensures var (rest, under, top) := Split(vs, k, m).value;
      && vs == rest + under + top && |Flat(top)| == k && |Flat(under)| == m
      && |top| <= k && (k > 0 ==> top != [])
  {
    var i := |vs| - CountAbove(vs, k).value;
    TopSlots(vs, k);
    TopSlots(vs[..i], m);
    Thirds(vs, i - CountAbove(vs[..i], m).value, i);
  }

  lemma Thirds(vs: seq<Value>, i: nat, j: nat)
    requires i <= j <= |vs|
    ensures vs == vs[..i] + vs[i..j] + vs[j..] && vs[..j][i..] == vs[i..j]
  {
  }

  // ---------------------------------------------------------------- one instruction

  /** Where the code as written goes wrong: `l2d`, and `istore_1` and its kin by a tag of another width. */
  predicate Mistaken(repaired: bool, s: Machine, i: Instr, seen: Seen) {
    !repaired && (i.L2d? || (i.StoreN? && Wide(s.Peeked(i.index, seen)) != Wide(s.Peeked(0, seen))))
  }

  lemma FlatOne(vs: seq<Value>, v: Value)
    ensures Flat(vs + [v]) == Flat(vs) + v.Slots()
  {
    assert (vs + [v])[..|vs|] == vs;
  }

  lemma TopTag(r: Reference, seen: Seen)
    requires r.values != []
    ensures |Flat(r.values)| >= |r.Top().Slots()| && r.values == r.Rest() + [r.Top()]
    ensures Flat(r.values) == Flat(r.Rest()) + r.Top().Slots()
    ensures r.Image().Peeked(0, seen) == r.Top().tag
  {
    FlatOne(r.Rest(), r.Top());
    LastOfTop(Flat(r.Rest()), r.Top());
  }

  lemma LastOfTop(a: seq<Slot>, v: Value)
    ensures var s := a + v.Slots(); s != [] && s[|s| - 1].tag == v.tag
  {
  }

  lemma LoadIsExact(repaired: bool, r: Reference, index: nat, tag: Tag, seen: Seen, maxStack: nat)
    requires Typed(r, Load(index, tag), maxStack)
    ensures Effect(repaired, r.Image(), Load(index, tag), seen) ==
      Some(Meaning(repaired, r, Load(index, tag), seen, maxStack).Image())
  {
    FlatOne(r.values, Loaded(r.locals, index, tag));
  }

  /** Going by any tag, a store is right if and only if that tag has the width of the value. */
  lemma StoreIsExact(r: Reference, index: nat, tag: Tag, seen: Seen)
    requires r.values != [] && WellTagged(r.Top()) && index + |r.Top().Cells()| <= |r.locals|
    ensures StoreBy(r.Image(), index, tag) ==
        Some(Reference(r.Rest(), Stored(r.locals, index, r.Top().Cells())).Image())
      <==> Wide(tag) == Wide(r.Top().tag)
  {
    TopTag(r, seen);
    if CellsOf(tag) <= |Flat(r.values)| && index + CellsOf(tag) <= |r.locals| {
      StoreExact(r.Rest(), r.Top(), r.locals, index, Wide(tag));
    }
  }

  lemma DupSlots(repaired: bool, vs: seq<Value>, rest: seq<Value>, under: seq<Value>, top: seq<Value>, k: nat, m: nat,
                 seen: Seen)
    requires vs == rest + under + top && |Flat(top)| == k && |Flat(under)| == m
    requires 1 <= k <= 2 && 1 <= |top| <= 2
    ensures k + m <= |Flat(vs)|
    ensures AfterDup(repaired, Flat(vs), k, m, seen) ==
      Flat(if repaired || m > 0 then rest + top + under + top else vs + WithCells(top, seen))
  {
    DupForms(rest, under, top);
    if !repaired && m == 0 { RereadIs(vs, rest + under, top, k, seen); }
  }

  lemma DupIsExact(repaired: bool, vs: seq<Value>, k: nat, m: nat, seen: Seen)
    requires 1 <= k <= 2 && Split(vs, k, m).Some?
    ensures k + m <= |Flat(vs)|
    ensures AfterDup(repaired, Flat(vs), k, m, seen) == Flat(DupValues(repaired, vs, k, m, seen))
  {
    var (rest, under, top) := Split(vs, k, m).value;
    SplitSizes(vs, k, m);
    DupSlots(repaired, vs, rest, under, top, k, m, seen);
  }

  lemma DupStaysTagged(repaired: bool, vs: seq<Value>, k: nat, m: nat, seen: Seen)
    requires 1 <= k <= 2 && Split(vs, k, m).Some? && AllWellTagged(vs)
    ensures AllWellTagged(DupValues(repaired, vs, k, m, seen))
  {
    var (rest, under, top) := Split(vs, k, m).value;
    SplitSizes(vs, k, m);
    TaggedParts(rest + under, top);
    TaggedParts(rest, under);
    if repaired || m > 0 {
      TaggedParts(rest + top + under, top);
      TaggedParts(rest + top, under);
      TaggedParts(rest, top);
    } else {
      FlatOfTop(top, seen, k);
      TaggedParts(vs, WithCells(top, seen));
    }
  }

  lemma TaggedParts(a: seq<Value>, b: seq<Value>)
    ensures AllWellTagged(a + b) <==> AllWellTagged(a) && AllWellTagged(b)
  {
    if AllWellTagged(a + b) {
      forall i | 0 <= i < |a| ensures WellTagged(a[i]) { assert (a + b)[i] == a[i]; }
      forall i | 0 <= i < |b| ensures WellTagged(b[i]) { assert (a + b)[|a| + i] == b[i]; }
    }
  }

  lemma RereadIs(vs: seq<Value>, below: seq<Value>, top: seq<Value>, k: nat, seen: Seen)
    requires vs == below + top && 1 <= |top| <= 2 && |Flat(top)| == k <= 2
    ensures 1 <= k <= |Flat(vs)|
    ensures Flat(vs + WithCells(top, seen)) == Flat(vs) + Reread(Flat(vs), k, seen)
  {
    FlatAppend(below, top);
    FlatAppend(vs, WithCells(top, seen));
    FlatOfTop(top, seen, k);
    RereadTail(Flat(below), Flat(top), k, seen);
  }

  lemma RereadTail(a: seq<Slot>, b: seq<Slot>, k: nat, seen: Seen)
    requires 1 <= k <= 2 && |b| == k
    ensures Reread(a + b, k, seen) == Reread(b, k, seen)
  {
  }

  lemma FlatOfTop(top: seq<Value>, seen: Seen, k: nat)
    requires 1 <= |top| <= 2 && |Flat(top)| == k <= 2
    ensures 1 <= k && Flat(WithCells(top, seen)) == Reread(Flat(top), k, seen)
    ensures AllWellTagged(top) ==> AllWellTagged(WithCells(top, seen))
  {
    if |top| == 2 {
      assert top == [top[0], top[1]];
      FlatOfTwo(top[0], top[1], seen);
    } else {
      FlatSingle(top[0]);
      assert top == [top[0]];
      FlatSingle(WithCells(top, seen)[0]);
    }
  }

  lemma FlatOfTwo(v: Value, w: Value, seen: Seen)
    ensures |Flat([v, w])| >= 2
    ensures |Flat([v, w])| == 2 ==> v.One? && w.One?
    ensures |Flat([v, w])| == 2 ==> Flat(WithCells([v, w], seen)) == Reread(Flat([v, w]), 2, seen)
  {
    FlatTwo(v, w);
    FlatTwo(One(seen.low, v.tag), One(seen.high, w.tag));
  }

  lemma FlatSingle(v: Value)
    ensures Flat([v]) == v.Slots()
  {
    FlatOne([], v);
    assert [] + [v] == [v];
  }

  lemma FlatTwo(v: Value, w: Value)
    ensures Flat([v, w]) == v.Slots() + w.Slots()
  {
    FlatSingle(v);
    FlatOne([v], w);
    assert [v, w] == [v] + [w];
  }

  lemma SwapIsExact(repaired: bool, r: Reference, seen: Seen, maxStack: nat)
    requires Typed(r, Swap, maxStack)
    ensures Possible(r.Image(), Swap)
    ensures Effect(repaired, r.Image(), Swap, seen) == Some(Meaning(repaired, r, Swap, seen, maxStack).Image())
  {
    var n := |r.values|;
    SwapForm(r.values[..n - 2], r.values[n - 2], r.values[n - 1]);
    assert r.values == r.values[..n - 2] + [r.values[n - 2], r.values[n - 1]];
  }

  lemma L2dIsExact(repaired: bool, r: Reference, low: Cell, high: Cell, seen: Seen, maxStack: nat)
    requires Typed(r, L2d(low, high), maxStack)
    ensures Possible(r.Image(), L2d(low, high))
    ensures Effect(repaired, r.Image(), L2d(low, high), seen) ==
        Some(Meaning(repaired, r, L2d(low, high), seen, maxStack).Image())
      <==> repaired
  {
    TopTag(r, seen);
    var v := Two(low, high, if repaired then TYPE_DOUBLE else TYPE_INT);
    FlatOne(r.Rest(), Two(low, high, TYPE_DOUBLE));
    assert Flat(r.values)[..|Flat(r.values)| - 2] == Flat(r.Rest());
    if !repaired {
      var s, d := Flat(r.Rest()) + v.Slots(), Flat(r.Rest()) + Two(low, high, TYPE_DOUBLE).Slots();
      assert s[|s| - 1].tag == TYPE_INT && d[|d| - 1].tag == TYPE_DOUBLE;
    }
  }

  lemma StoreInstrExact(repaired: bool, r: Reference, i: Instr, seen: Seen, maxStack: nat)
    requires AllWellTagged(r.values) && Typed(r, i, maxStack) && (i.Store? || i.StoreN?)
    ensures Possible(r.Image(), i)
    ensures Effect(repaired, r.Image(), i, seen) == Some(Meaning(repaired, r, i, seen, maxStack).Image())
      <==> !Mistaken(repaired, r.Image(), i, seen)
  {
    TopTag(r, seen);
    StoreIsExact(r, i.index, r.Image().Peeked(if i.Store? || repaired then 0 else i.index, seen), seen);
  }

  /**
    One instruction that the verifier admits, on slots that are those of well tagged values:
    it leaves the slots and locals of the values that the JVMS says, well tagged again, if and
    only if it is not one of the two kinds that go by a wrong tag or push one.
   */
  lemma InstructionExact(repaired: bool, r: Reference, i: Instr, seen: Seen, maxStack: nat)
    requires AllWellTagged(r.values) && Typed(r, i, maxStack)
    ensures Possible(r.Image(), i)
    ensures Effect(repaired, r.Image(), i, seen) == Some(Meaning(repaired, r, i, seen, maxStack).Image())
      <==> !Mistaken(repaired, r.Image(), i, seen)
  {
    match i
    case Load(index, tag) => LoadIsExact(repaired, r, index, tag, seen, maxStack);
    case Store(_) => StoreInstrExact(repaired, r, i, seen, maxStack);
    case StoreN(_) => StoreInstrExact(repaired, r, i, seen, maxStack);
    case Dup(k, m) => DupIsExact(repaired, r.values, k, m, seen);
    case Swap => SwapIsExact(repaired, r, seen, maxStack);
    case L2d(low, high) => L2dIsExact(repaired, r, low, high, seen, maxStack);
  }

  lemma StaysTagged(repaired: bool, r: Reference, i: Instr, seen: Seen, maxStack: nat)
    requires AllWellTagged(r.values) && Typed(r, i, maxStack)
    ensures AllWellTagged(Meaning(repaired, r, i, seen, maxStack).values)
  {
    if i.Dup? { DupStaysTagged(repaired, r.values, i.k, i.m, seen); }
  }

  // ---------------------------------------------------------------- sequences of instructions

  /** The verifier admits the sequence. */
  predicate Verified(repaired: bool, r: Reference, steps: seq<(Instr, Seen)>, maxStack: nat)
    decreases |steps|
  {
    steps == [] ||
      (Typed(r, steps[0].0, maxStack)
       && Verified(repaired, Meaning(repaired, r, steps[0].0, steps[0].1, maxStack), steps[1..], maxStack))
  }

  /** After every prefix the slots and locals are those of the values the JVMS says. */
  predicate InStep(repaired: bool, s: Machine, r: Reference, steps: seq<(Instr, Seen)>, maxStack: nat)
    requires Verified(repaired, r, steps, maxStack)
    decreases |steps|
  {
    && s == r.Image()
    && (steps == [] ||
          (Possible(s, steps[0].0)
           && var after := Effect(repaired, s, steps[0].0, steps[0].1);
              after.Some? && InStep(repaired, after.value, Meaning(repaired, r, steps[0].0, steps[0].1, maxStack),
                                    steps[1..], maxStack)))
  }

  /** None of them is an `l2d` as written, or a store by a tag of another width than the value's. */
  predicate NeverMistaken(repaired: bool, r: Reference, steps: seq<(Instr, Seen)>, maxStack: nat)
    requires Verified(repaired, r, steps, maxStack)
    decreases |steps|
  {
    steps == [] ||
      (!Mistaken(repaired, r.Image(), steps[0].0, steps[0].1)
       && NeverMistaken(repaired, Meaning(repaired, r, steps[0].0, steps[0].1, maxStack), steps[1..], maxStack))
  }

  /**
    In every sequence of instructions that the verifier admits, the slots and locals stay
    those of the values that the JVMS says, so that every load, store and shuffle is right, if
    and only if none of the two kinds is executed; with the repairs they always do.
   */
  lemma {:induction false} SequenceExact(repaired: bool, r: Reference, steps: seq<(Instr, Seen)>, maxStack: nat)
    requires AllWellTagged(r.values) && Verified(repaired, r, steps, maxStack)
    ensures InStep(repaired, r.Image(), r, steps, maxStack) <==> NeverMistaken(repaired, r, steps, maxStack)
    ensures repaired ==> InStep(repaired, r.Image(), r, steps, maxStack)
    decreases |steps|
  {
    if steps != [] {
      var i, seen := steps[0].0, steps[0].1;
      InstructionExact(repaired, r, i, seen, maxStack);
      StaysTagged(repaired, r, i, seen, maxStack);
      SequenceExact(repaired, Meaning(repaired, r, i, seen, maxStack), steps[1..], maxStack);
    }
  }
}
