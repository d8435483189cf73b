/**
  The operand stack of a frame (jthread.c:74-132) and the instructions that shuffle it
  (bytecode_interpreter.c:289-335, 871-958 and 1354-1360), over the bytes that the module
  FrameLayout lays out.

  Cells and type tags lie side by side in one area; a value of category 2 takes two of each.
  `repaired` selects where `peekOperand` and `handle_instr_xstore_n` look and what `l2d`
  pushes: as written, line 109 counts from the base of the stack, so it reads the bytes below
  it, which are those of the tags; in the evident intent it counts from the top.
 */
module OperandStack {
  import opened FrameLayout
  import opened Wrappers

  const TYPE_INT: Tag := 4
  const TYPE_LONG: Tag := 5
  const TYPE_DOUBLE: Tag := 7

  /** A value of category 1 or 2 (JVMS section 2.11.1). */
  datatype Value = One(cell: Cell, tag: Tag) | Two(low: Cell, high: Cell, tag: Tag) {
    function Slots(): seq<Slot> {
      match this
      case One(c, t) => [Slot(c, t)]
      case Two(l, h, t) => [Slot(l, t), Slot(h, t)]
    }

    function Cells(): seq<Cell> {
      match this
      case One(c, _) => [c]
      case Two(l, h, _) => [l, h]
    }
  }

  predicate Wide(tag: Tag) { tag == TYPE_LONG || tag == TYPE_DOUBLE }

  predicate WellTagged(v: Value) { v.Two? <==> Wide(v.tag) }

  predicate AllWellTagged(vs: seq<Value>) { forall i :: 0 <= i < |vs| ==> WellTagged(vs[i]) }

  /** The slots of a stack of values, the top last. */
  function Flat(vs: seq<Value>): seq<Slot> {
    if vs == [] then [] else Flat(vs[..|vs| - 1]) + vs[|vs| - 1].Slots()
  }

  lemma {:induction false} FlatAppend(vs: seq<Value>, ws: seq<Value>)
    ensures Flat(vs + ws) == Flat(vs) + Flat(ws)
  {
    if ws == [] {
      assert vs + ws == vs;
    } else {
      assert (vs + ws)[..|vs + ws| - 1] == vs + ws[..|ws| - 1];
      FlatAppend(vs, ws[..|ws| - 1]);
    }
  }

  /** A concatenation with a tail of known length determines both parts. */
  lemma TailDetermined(a: seq<Slot>, x: seq<Slot>, b: seq<Slot>, y: seq<Slot>)
    requires a + x == b + y && |x| == |y|
    ensures a == b && x == y
  {
    assert (a + x)[..|a|] == a && (b + y)[..|b|] == b;
    assert (a + x)[|a|..] == x && (b + y)[|b|..] == y;
  }

  lemma LastDetermined(a: seq<Slot>, x: seq<Slot>, b: seq<Slot>, y: seq<Slot>)
    requires a + x == b + y && x != [] && y != []
    ensures x[|x| - 1] == y[|y| - 1]
  {
    assert (a + x)[|a + x| - 1] == x[|x| - 1] && (b + y)[|b + y| - 1] == y[|y| - 1];
  }

  lemma TopDetermined(a: seq<Slot>, v: Value, b: seq<Slot>, w: Value)
    requires WellTagged(v) && WellTagged(w) && a + v.Slots() == b + w.Slots()
    ensures v == w && a == b
  {
    LastDetermined(a, v.Slots(), b, w.Slots());
    assert v.Slots()[|v.Slots()| - 1].tag == v.tag && w.Slots()[|w.Slots()| - 1].tag == w.tag;
    TailDetermined(a, v.Slots(), b, w.Slots());
    assert v.Slots()[0] == w.Slots()[0];
  }

  /** The tags alone tell the values apart: the slots of well tagged values determine them. */
  lemma {:induction false} FlatInjective(vs: seq<Value>, ws: seq<Value>)
    requires AllWellTagged(vs) && AllWellTagged(ws) && Flat(vs) == Flat(ws)
    ensures vs == ws
  {
    if vs != [] && ws != [] {
      var m, n := |vs| - 1, |ws| - 1;
      TopDetermined(Flat(vs[..m]), vs[m], Flat(ws[..n]), ws[n]);
      FlatInjective(vs[..m], ws[..n]);
      assert vs == vs[..m] + [vs[m]] && ws == ws[..n] + [ws[n]];
    }
  }

  // ---------------------------------------------------------------- what the instructions mean

  /** The top `k` slots, repeated below the `m` slots under them. */
  function DupUnder(s: seq<Slot>, k: nat, m: nat): seq<Slot>
    requires k + m <= |s|
  {
    var n := |s|;
    s[..n - k - m] + s[n - k..] + s[n - k - m..]
  }

  /**
    Every form that section 6.5 of the JVMS allows for an instruction of the dup family: the
    values that make up the top `k` slots are repeated below those that make up the next `m`,
    whatever is further down.
   */
  lemma DupForms(rest: seq<Value>, under: seq<Value>, top: seq<Value>)
    ensures var k, m := |Flat(top)|, |Flat(under)|;
      var s := Flat(rest + under + top);
      k + m <= |s| && DupUnder(s, k, m) == Flat(rest + top + under + top)
  {
    var a, b, c := Flat(rest), Flat(under), Flat(top);
    FlatAppend(rest + under, top);
    FlatAppend(rest, under);
    FlatAppend(rest + top + under, top);
    FlatAppend(rest + top, under);
    FlatAppend(rest, top);
    Pieces(a, b, c);
  }

  lemma Pieces(a: seq<Slot>, b: seq<Slot>, c: seq<Slot>)
    ensures DupUnder(a + b + c, |c|, |b|) == a + c + b + c
  {
    var s := a + b + c;
    var n := |s|;
    assert s[..n - |c| - |b|] == a && s[n - |c|..] == c && s[n - |c| - |b|..] == b + c;
  }

  /** The longer shuffles as the slots popped and the slots pushed, one after the other. */
  lemma DupUnderSlots(s: seq<Slot>, a: Slot, b: Slot, c: Slot, r: seq<Slot>)
    requires |s| >= 3 && s == r + [c, b, a]
    ensures r + [a] + [c] + [b] + [a] == DupUnder(s, 1, 2)
    ensures r + [b] + [a] + [c] + [b] + [a] == DupUnder(s, 2, 1)
  {
    Pieces(r, [c, b], [a]);
    Pieces(r, [c], [b, a]);
    assert r + [c, b] + [a] == s == r + [c] + [b, a];
  }

  lemma DupUnderFour(s: seq<Slot>, a: Slot, b: Slot, c: Slot, d: Slot, r: seq<Slot>)
    requires s == r + [d, c, b, a]
    ensures r + [b] + [a] + [d] + [c] + [b] + [a] == DupUnder(s, 2, 2)
  {
    Pieces(r, [d, c], [b, a]);
    assert r + [d, c] + [b, a] == s;
  }

  function Swapped(s: seq<Slot>): seq<Slot>
    requires |s| >= 2
  {
    s[..|s| - 2] + [s[|s| - 1], s[|s| - 2]]
  }

  /** `swap` exchanges two values of category 1. */
  lemma SwapForm(rest: seq<Value>, a: Value, b: Value)
    requires a.One? && b.One?
    ensures |Flat(rest + [a, b])| >= 2
    ensures Swapped(Flat(rest + [a, b])) == Flat(rest + [b, a])
  {
    FlatPair(rest, a, b);
    FlatPair(rest, b, a);
  }

  lemma FlatPair(rest: seq<Value>, a: Value, b: Value)
    ensures Flat(rest + [a, b]) == Flat(rest) + a.Slots() + b.Slots()
  {
    FlatAppend(rest, [a, b]);
    assert [a, b][..1] == [a] && [a][..0] == [];
    assert Flat([a]) == a.Slots();
  }

  // ---------------------------------------------------------------- dup and dup2 as written

  /** `dup` as written repeats the tag of the top with the four bytes below the stack. */
  function WrittenDup(f: Frame, m: Area, n: nat): seq<Slot>
    requires InArea(f, m) && 1 <= n < f.maxStack
  {
    SlotsOf(f, m, n) + [Slot(ReadCell(m, f.cells - 4), m[f.tags + n - 1])]
  }

  /** The area after the tag of the second slot from the top has been pushed again. */
  function TagPushed(f: Frame, m: Area, n: nat): (r: Area)
    requires InArea(f, m) && 2 <= n < f.maxStack
    ensures |r| == |m|
  {
    m[f.tags + n := m[f.tags + n - 2]]
  }

  /** `dup2` reads the four bytes below those, and reads them again after its first push. */
  function WrittenDup2(f: Frame, m: Area, n: nat): seq<Slot>
    requires InArea(f, m) && 2 <= n < f.maxStack
  {
    SlotsOf(f, m, n) +
      [Slot(ReadCell(m, f.cells - 8), m[f.tags + n - 2]),
       Slot(ReadCell(TagPushed(f, m, n), f.cells - 8), m[f.tags + n - 1])]
  }

  /** Four type tags, `index` cells below the cells of the stack. */
  function TagsBelow(f: Frame, m: Area, index: nat): seq<Byte>
    requires InArea(f, m) && 4 * (1 + index) <= |TagArea(f, m)|
  {
    TagArea(f, m)[|TagArea(f, m)| - 4 * (1 + index)..][..4]
  }

  /** In both layouts what is read below the stack are tags: `index` counts cells down from the base. */
  lemma PeekReadsTags(f: Frame, m: Area, index: nat, at: nat, c: Cell)
    requires InArea(f, m) && 4 * (1 + index) <= |TagArea(f, m)| && at == f.cells - 4 * (1 + index)
    ensures ReadCell(m, at) == c <==> BytesOf(c) == TagsBelow(f, m, index)
  {
    ReadsSlice(m, f.tags, f.cells, at, c);
  }

  /** And the tags of all slots have room there. */
  lemma TagAreaSize(f: Frame, m: Area)
    requires Created(f) && InArea(f, m)
    ensures f.maxStack <= |TagArea(f, m)| < f.maxStack + 8
  {
    AlignedUp(f.maxStack);
  }

  lemma ReadsSlice(m: Area, lo: nat, hi: nat, at: nat, c: Cell)
    requires lo <= at && at + 4 <= hi <= |m|
    ensures ReadCell(m, at) == c <==> BytesOf(c) == m[lo..hi][at - lo..][..4]
  {
    BytesOfRead(m, at);
    SliceOfSlice(m, lo, hi, at);
    BytesDetermine(ReadCell(m, at), c);
  }

  lemma SliceOfSlice(m: Area, lo: nat, hi: nat, at: nat)
    requires lo <= at && at + 4 <= hi <= |m|
    ensures m[lo..hi][at - lo..][..4] == m[at..at + 4]
  {
  }

  /**
    `dup` is right if and only if the bytes below the stack happen to be those of the cell on
    top; with four slots or more these are the last four type tags.
   */
  lemma WrittenDupExact(f: Frame, m: Area, n: nat)
    requires InArea(f, m) && 1 <= n < f.maxStack
    ensures WrittenDup(f, m, n) == DupUnder(SlotsOf(f, m, n), 1, 0) <==>
      ReadCell(m, f.cells - 4) == SlotsOf(f, m, n)[n - 1].cell
    ensures Created(f) && 4 <= f.maxStack ==>
      && |TagArea(f, m)| >= 4
      && (WrittenDup(f, m, n) == DupUnder(SlotsOf(f, m, n), 1, 0) <==>
            BytesOf(SlotsOf(f, m, n)[n - 1].cell) == TagsBelow(f, m, 0))
  {
    WrittenDupIff(f, m, n);
    if Created(f) && 4 <= f.maxStack {
      TagAreaSize(f, m);
      PeekReadsTags(f, m, 0, f.cells - 4, SlotsOf(f, m, n)[n - 1].cell);
    }
  }

  lemma WrittenDupIff(f: Frame, m: Area, n: nat)
    requires InArea(f, m) && 1 <= n < f.maxStack
    ensures WrittenDup(f, m, n) == DupUnder(SlotsOf(f, m, n), 1, 0) <==>
      ReadCell(m, f.cells - 4) == SlotsOf(f, m, n)[n - 1].cell
  {
    SlotIs(f, m, n, n - 1);
    OneDuplicated(SlotsOf(f, m, n), Slot(ReadCell(m, f.cells - 4), m[f.tags + n - 1]));
  }

  lemma OneDuplicated(s: seq<Slot>, x: Slot)
    requires s != []
    ensures s + [x] == DupUnder(s, 1, 0) <==> x == s[|s| - 1]
  {
    assert DupUnder(s, 1, 0) == s + [s[|s| - 1]];
    assert (s + [x])[|s|] == x && (s + [s[|s| - 1]])[|s|] == s[|s| - 1];
  }

  lemma TwoDuplicated(s: seq<Slot>, x: Slot, y: Slot)
    requires |s| >= 2
    ensures s + [x, y] == DupUnder(s, 2, 0) <==> x == s[|s| - 2] && y == s[|s| - 1]
  {
    var n, d := |s|, s + [x, y];
    assert DupUnder(s, 2, 0) == s + [s[n - 2], s[n - 1]];
    assert d[n] == x && d[n + 1] == y;
    assert (s + [s[n - 2], s[n - 1]])[n] == s[n - 2] && (s + [s[n - 2], s[n - 1]])[n + 1] == s[n - 1];
  }

  /**
    `dup2` is right if and only if the bytes it reads are those of the second cell, and, with
    the tag that the first push writes, those of the cell on top; with eight slots or more
    these are four type tags.
   */
  lemma WrittenDup2Exact(f: Frame, m: Area, n: nat)
    requires InArea(f, m) && 2 <= n < f.maxStack
    ensures WrittenDup2(f, m, n) == DupUnder(SlotsOf(f, m, n), 2, 0) <==>
      && ReadCell(m, f.cells - 8) == SlotsOf(f, m, n)[n - 2].cell
      && ReadCell(TagPushed(f, m, n), f.cells - 8) == SlotsOf(f, m, n)[n - 1].cell
    ensures Created(f) && 8 <= f.maxStack ==>
      && |TagArea(f, m)| >= 8 && |TagArea(f, TagPushed(f, m, n))| >= 8
      && (WrittenDup2(f, m, n) == DupUnder(SlotsOf(f, m, n), 2, 0) <==>
            && BytesOf(SlotsOf(f, m, n)[n - 2].cell) == TagsBelow(f, m, 1)
            && BytesOf(SlotsOf(f, m, n)[n - 1].cell) == TagsBelow(f, TagPushed(f, m, n), 1))
  {
    WrittenDup2Iff(f, m, n);
    if Created(f) && 8 <= f.maxStack {
      TagAreaSize(f, m);
      BothPeeksReadTags(f, m, TagPushed(f, m, n), SlotsOf(f, m, n)[n - 2].cell, SlotsOf(f, m, n)[n - 1].cell);
    }
  }

  lemma BothPeeksReadTags(f: Frame, m: Area, m': Area, low: Cell, top: Cell)
    requires InArea(f, m) && InArea(f, m') && |TagArea(f, m)| >= 8
    ensures |TagArea(f, m')| >= 8
    ensures (ReadCell(m, f.cells - 8) == low && ReadCell(m', f.cells - 8) == top) <==>
      (BytesOf(low) == TagsBelow(f, m, 1) && BytesOf(top) == TagsBelow(f, m', 1))
  {
    PeekReadsTags(f, m, 1, f.cells - 8, low);
    PeekReadsTags(f, m', 1, f.cells - 8, top);
  }

  lemma WrittenDup2Iff(f: Frame, m: Area, n: nat)
    requires InArea(f, m) && 2 <= n < f.maxStack
    ensures WrittenDup2(f, m, n) == DupUnder(SlotsOf(f, m, n), 2, 0) <==>
      && ReadCell(m, f.cells - 8) == SlotsOf(f, m, n)[n - 2].cell
      && ReadCell(TagPushed(f, m, n), f.cells - 8) == SlotsOf(f, m, n)[n - 1].cell
  {
    TopTwo(f, m, n);
    TwoDuplicated(SlotsOf(f, m, n), Slot(ReadCell(m, f.cells - 8), m[f.tags + n - 2]),
      Slot(ReadCell(TagPushed(f, m, n), f.cells - 8), m[f.tags + n - 1]));
  }

  lemma TopTwo(f: Frame, m: Area, n: nat)
    requires InArea(f, m) && 2 <= n <= f.maxStack
    ensures SlotsOf(f, m, n)[n - 2] == Slot(ReadCell(m, f.cells + 4 * (n - 2)), m[f.tags + n - 2])
    ensures SlotsOf(f, m, n)[n - 1] == Slot(ReadCell(m, f.cells + 4 * (n - 1)), m[f.tags + n - 1])
  {
    SlotIs(f, m, n, n - 2);
    SlotIs(f, m, n, n - 1);
  }

  /** What the second peek sees of the first push. */
  lemma SecondPeek(f: Frame, m: Area, n: nat, x: Slot)
    requires InArea(f, m) && 2 <= n < f.maxStack
    ensures ReadCell(Pushed(f, m, n, x), f.cells - 8) == ReadCell(m[f.tags + n := x.tag], f.cells - 8)
    ensures Pushed(f, m, n, x)[f.tags + n - 1] == m[f.tags + n - 1]
  {
    SameCell(m[f.tags + n := x.tag], Pushed(f, m, n, x), f.cells - 8);
  }

  /** The two pushes of `dup2`, from what it peeks before each of them. */
  lemma Dup2Pushes(f: Frame, m: Area, n: nat, x: Slot, y: Slot, repaired: bool)
    requires InArea(f, m) && 2 <= n < f.maxStack
    requires x.tag == m[f.tags + n - 2] && y.tag == Pushed(f, m, n, x)[f.tags + n - 1]
    requires x.cell == if repaired then SlotsOf(f, m, n)[n - 2].cell else ReadCell(m, f.cells - 8)
    requires y.cell ==
      if repaired then (SlotsOf(f, m, n) + [x])[n - 1].cell else ReadCell(Pushed(f, m, n, x), f.cells - 8)
    ensures (SlotsOf(f, m, n) + [x]) + [y] ==
      if repaired then DupUnder(SlotsOf(f, m, n), 2, 0) else WrittenDup2(f, m, n)
  {
    var s := SlotsOf(f, m, n);
    assert (s + [x]) + [y] == s + [x, y];
    SecondPeek(f, m, n, x);
    if repaired {
      TopTwo(f, m, n);
      TwoDuplicated(s, x, y);
    }
  }

  /** Two ints on a stack of eight: `dup2` pushes their tags, and then their tags and its own, whatever the ints are. */
  lemma Dup2PushesTags(f: Frame, m: Area)
    requires InArea(f, m) && f.maxStack == 8 && f.cells == f.tags + 8
    requires m[f.tags] == m[f.tags + 1] == TYPE_INT && m[f.tags + 2] == m[f.tags + 3] == 0
    ensures var i := TYPE_INT;
      WrittenDup2(f, m, 2) == SlotsOf(f, m, 2) + [Slot(Cell(i, i, 0, 0), i), Slot(Cell(i, i, i, 0), i)]
  {
    var i := TYPE_INT;
    assert ReadCell(m, f.cells - 8) == Cell(i, i, 0, 0);
    assert ReadCell(m[f.tags + 2 := i], f.cells - 8) == Cell(i, i, i, 0);
  }

  // ---------------------------------------------------------------- storing and loading locals

  /** Locals with the cells of a value written from `index` on. */
  function Stored(locals: seq<Cell>, index: nat, cells: seq<Cell>): seq<Cell>
    requires index + |cells| <= |locals|
  {
    locals[..index] + cells + locals[index + |cells|..]
  }

  /** The stack and locals after a store that takes the top for a wide value or not. */
  function StoreTop(s: seq<Slot>, locals: seq<Cell>, index: nat, wide: bool): (seq<Slot>, seq<Cell>)
    requires var k := if wide then 2 else 1; k <= |s| && index + k <= |locals|
  {
    var k, n := if wide then 2 else 1, |s|;
    (s[..n - k], Stored(locals, index, if wide then [s[n - 2].cell, s[n - 1].cell] else [s[n - 1].cell]))
  }

  /** What a store of the value on top should leave. */
  predicate StoresTop(rest: seq<Value>, v: Value, s: seq<Slot>, locals: seq<Cell>, locals': seq<Cell>, index: nat)
    requires index + |v.Cells()| <= |locals|
  {
    s == Flat(rest) && locals' == Stored(locals, index, v.Cells())
  }

  /** A store that takes two cells or one stores the value on top exactly when that is what the value has. */
  lemma StoreExact(rest: seq<Value>, v: Value, locals: seq<Cell>, index: nat, wide: bool)
    requires index + |v.Cells()| <= |locals| && index + (if wide then 2 else 1) <= |locals|
    requires |Flat(rest + [v])| >= if wide then 2 else 1
    ensures var (s, locals') := StoreTop(Flat(rest + [v]), locals, index, wide);
      StoresTop(rest, v, s, locals, locals', index) <==> wide == v.Two?
  {
    var s := Flat(rest + [v]);
    if wide == v.Two? {
      assert s[..|Flat(rest)|] == Flat(rest);
    } else {
      assert |StoreTop(s, locals, index, wide).0| != |Flat(rest)|;
    }
  }

  /** Loading back what was stored pushes the value again. */
  lemma LoadAfterStore(v: Value, locals: seq<Cell>, index: nat)
    requires index + |v.Cells()| <= |locals|
    ensures var locals' := Stored(locals, index, v.Cells());
      && |locals'| == |locals|
      && LoadedSlots(locals', index, v.tag, v.Two?) == v.Slots()
  {
    var locals' := Stored(locals, index, v.Cells());
    assert locals'[index] == v.Cells()[0];
    if v.Two? { assert locals'[index + 1] == v.Cells()[1]; }
  }

  /** What a load instruction of type `tag` pushes. */
  function LoadedSlots(locals: seq<Cell>, index: nat, tag: Tag, wide: bool): seq<Slot>
    requires index + (if wide then 2 else 1) <= |locals|
  {
    if wide then [Slot(locals[index], tag), Slot(locals[index + 1], tag)] else [Slot(locals[index], tag)]
  }

  // ---------------------------------------------------------------- stores in the area

  /** The tag that a store looks at: `index` slots below the top, or still further down in the area. */
  function PeekedTag(f: Frame, m: Area, n: nat, index: nat): Tag
    requires InArea(f, m) && n <= f.maxStack && index < f.tags + n
  {
    m[f.tags + n - 1 - index]
  }

  /** One cell or two, read together and then written. */
  function Copied(m: Area, to: nat, from: nat, wide: bool): Area
    requires var k := if wide then 8 else 4; to + k <= |m| && from + k <= |m|
  {
    if wide then WriteCell(WriteCell(m, to, ReadCell(m, from)), to + 4, ReadCell(m, from + 4))
    else WriteCell(m, to, ReadCell(m, from))
  }

  lemma CopiedBytes(m: Area, to: nat, from: nat, wide: bool)
    requires var k := if wide then 8 else 4; to + k <= |m| && from + k <= |m|
    ensures var r := Copied(m, to, from, wide);
      && |r| == |m| && (forall i :: 0 <= i < |m| && !(to <= i < to + if wide then 8 else 4) ==> r[i] == m[i])
      && ReadCell(r, to) == ReadCell(m, from) && (wide ==> ReadCell(r, to + 4) == ReadCell(m, from + 4))
  {
    var first := WriteCell(m, to, ReadCell(m, from));
    ReadBack(m, to, ReadCell(m, from));
    if wide {
      ReadBack(first, to + 4, ReadCell(m, from + 4));
      SameCell(first, WriteCell(first, to + 4, ReadCell(m, from + 4)), to);
    }
  }

  /**
    A store from a stack of `n` slots: the area and the number of slots afterwards.  The
    latter has sixteen bits, so a wide store from a stack of one slot goes round to the far
    end, and none is left when that is outside the area.
   */
  function Outcome(f: Frame, m: Area, n: nat, index: nat, wide: bool): Option<(Area, nat)> {
    var k := if wide then 2 else 1;
    var top := if k <= n then n - k else n + 0x1_0000 - k;
    var to, from := f.locals + 4 * index, f.cells + 4 * top;
    if to + 4 * k <= |m| && from + 4 * k <= |m| then Some((Copied(m, to, from, wide), top)) else None
  }

  /** When the stack and the locals are large enough, it is the store of the top cell or the top two. */
  lemma StoresInPlace(f: Frame, m: Area, n: nat, index: nat, wide: bool)
    requires InArea(f, m) && n <= f.maxStack
    requires var k := if wide then 2 else 1; k <= n && index + k <= f.maxLocals
    ensures Outcome(f, m, n, index, wide).Some?
    ensures var (r, top) := Outcome(f, m, n, index, wide).value;
      && top < n && InArea(f, r)
      && SlotsOf(f, r, top) == StoreTop(SlotsOf(f, m, n), LocalsOf(f, m), index, wide).0
      && LocalsOf(f, r) == StoreTop(SlotsOf(f, m, n), LocalsOf(f, m), index, wide).1
  {
    var k, to := if wide then 2 else 1, f.locals + 4 * index;
    StoresFrom(f, m, n, index, wide, to, f.cells + 4 * (n - k));
  }

  lemma StoresFrom(f: Frame, m: Area, n: nat, index: nat, wide: bool, to: nat, from: nat)
    requires InArea(f, m) && n <= f.maxStack && to == f.locals + 4 * index
    requires var k := if wide then 2 else 1; k <= n && index + k <= f.maxLocals && from == f.cells + 4 * (n - k)
    ensures Outcome(f, m, n, index, wide).Some?
    ensures var (r, top) := Outcome(f, m, n, index, wide).value;
      && top < n && InArea(f, r)
      && SlotsOf(f, r, top) == StoreTop(SlotsOf(f, m, n), LocalsOf(f, m), index, wide).0
      && LocalsOf(f, r) == StoreTop(SlotsOf(f, m, n), LocalsOf(f, m), index, wide).1
  {
    OutcomeIs(f, m, n, index, wide, to, from);
    CopyStores(f, m, Copied(m, to, from, wide), n, index, wide, to, from);
  }

  lemma OutcomeIs(f: Frame, m: Area, n: nat, index: nat, wide: bool, to: nat, from: nat)
    requires InArea(f, m) && n <= f.maxStack && to == f.locals + 4 * index
    requires var k := if wide then 2 else 1; k <= n && index + k <= f.maxLocals && from == f.cells + 4 * (n - k)
    ensures to + 8 <= |m| || (!wide && to + 4 <= |m|)
    ensures from + 8 <= |m| || (!wide && from + 4 <= |m|)
    ensures Outcome(f, m, n, index, wide) == Some((Copied(m, to, from, wide), n - if wide then 2 else 1))
  {
  }

  lemma CopyStores(f: Frame, m: Area, r: Area, n: nat, index: nat, wide: bool, to: nat, from: nat)
    requires InArea(f, m) && n <= f.maxStack && to == f.locals + 4 * index
    requires var k := if wide then 2 else 1; k <= n && index + k <= f.maxLocals && from == f.cells + 4 * (n - k)
    requires to + 8 <= |m| || (!wide && to + 4 <= |m|)
    requires from + 8 <= |m| || (!wide && from + 4 <= |m|)
    requires r == Copied(m, to, from, wide)
    ensures InArea(f, r)
    ensures var k := if wide then 2 else 1;
      && SlotsOf(f, r, n - k) == StoreTop(SlotsOf(f, m, n), LocalsOf(f, m), index, wide).0
      && LocalsOf(f, r) == StoreTop(SlotsOf(f, m, n), LocalsOf(f, m), index, wide).1
  {
    CopiedBytes(m, to, from, wide);
    CopyKeeps(f, m, r, n, index, wide, to);
  }

  lemma CopyKeeps(f: Frame, m: Area, r: Area, n: nat, index: nat, wide: bool, to: nat)
    requires InArea(f, m) && |r| == |m| && n <= f.maxStack && to == f.locals + 4 * index
    requires var k := if wide then 2 else 1;
      k <= n && index + k <= f.maxLocals && forall i :: 0 <= i < |m| && !(to <= i < to + 4 * k) ==> r[i] == m[i]
    requires ReadCell(r, to) == ReadCell(m, f.cells + 4 * (n - if wide then 2 else 1))
    requires wide ==> ReadCell(r, to + 4) == ReadCell(m, f.cells + 4 * (n - 1))
    ensures InArea(f, r)
    ensures var k := if wide then 2 else 1;
      && SlotsOf(f, r, n - k) == StoreTop(SlotsOf(f, m, n), LocalsOf(f, m), index, wide).0
      && LocalsOf(f, r) == StoreTop(SlotsOf(f, m, n), LocalsOf(f, m), index, wide).1
  {
    CopyKeepsSlots(f, m, r, n, if wide then 2 else 1, to);
    CopyKeepsLocals(f, m, r, n, index, wide, to);
  }

  lemma CopyKeepsSlots(f: Frame, m: Area, r: Area, n: nat, k: nat, to: nat)
    requires InArea(f, m) && InArea(f, r) && |r| == |m| && 1 <= k <= n <= f.maxStack
    requires f.locals <= to && to + 4 * k <= f.locals + 4 * f.maxLocals
    requires forall i :: 0 <= i < |m| && !(to <= i < to + 4 * k) ==> r[i] == m[i]
    ensures SlotsOf(f, r, n - k) == SlotsOf(f, m, n)[..n - k]
  {
    forall i | 0 <= i < n - k ensures SlotAt(f, r, i) == SlotAt(f, m, i) {
      SameCell(m, r, f.cells + 4 * i);
    }
    SlotsAgree(f, m, r, n - k);
    SlotsBelow(f, m, n, n - k);
  }

  lemma CopyKeepsLocals(f: Frame, m: Area, r: Area, n: nat, index: nat, wide: bool, to: nat)
    requires InArea(f, m) && InArea(f, r) && |r| == |m| && n <= f.maxStack && to == f.locals + 4 * index
    requires var k := if wide then 2 else 1;
      k <= n && index + k <= f.maxLocals && forall i :: 0 <= i < |m| && !(to <= i < to + 4 * k) ==> r[i] == m[i]
    requires ReadCell(r, to) == SlotAt(f, m, n - if wide then 2 else 1).cell
    requires wide ==> ReadCell(r, to + 4) == SlotAt(f, m, n - 1).cell
    ensures LocalsOf(f, r) == StoreTop(SlotsOf(f, m, n), LocalsOf(f, m), index, wide).1
  {
    var k, s, l := if wide then 2 else 1, SlotsOf(f, m, n), LocalsOf(f, m);
    SlotIs(f, m, n, n - 1);
    SlotIs(f, m, n, n - k);
    CellIs(r, f.locals, f.maxLocals, index);
    if wide { CellIs(r, f.locals, f.maxLocals, index + 1); }
    LocalsKept(f, m, r, index, k);
    if wide {
      StoredIs(LocalsOf(f, r), l, index, [s[n - 2].cell, s[n - 1].cell]);
    } else {
      StoredIs(LocalsOf(f, r), l, index, [s[n - 1].cell]);
    }
  }

  lemma LocalsKept(f: Frame, m: Area, r: Area, index: nat, k: nat)
    requires InArea(f, m) && InArea(f, r) && |r| == |m| && index + k <= f.maxLocals
    requires forall i :: 0 <= i < |m| && !(f.locals + 4 * index <= i < f.locals + 4 * index + 4 * k) ==> r[i] == m[i]
    ensures forall i :: 0 <= i < f.maxLocals && !(index <= i < index + k) ==> LocalsOf(f, r)[i] == LocalsOf(f, m)[i]
  {
    forall i | 0 <= i < f.maxLocals && !(index <= i < index + k) ensures LocalsOf(f, r)[i] == LocalsOf(f, m)[i] {
      LocalKept(f, m, r, i, f.locals + 4 * index, f.locals + 4 * index + 4 * k);
    }
  }

  lemma LocalKept(f: Frame, m: Area, r: Area, i: nat, lo: nat, hi: nat)
    requires InArea(f, m) && InArea(f, r) && |r| == |m| && i < f.maxLocals
    requires f.locals + 4 * i + 4 <= lo || hi <= f.locals + 4 * i
    requires forall b :: 0 <= b < |m| && !(lo <= b < hi) ==> r[b] == m[b]
    ensures LocalsOf(f, r)[i] == LocalsOf(f, m)[i]
  {
    CellIs(r, f.locals, f.maxLocals, i);
    CellIs(m, f.locals, f.maxLocals, i);
    SameCell(m, r, f.locals + 4 * i);
  }

  lemma StoredIs(r: seq<Cell>, l: seq<Cell>, index: nat, cells: seq<Cell>)
    requires |r| == |l| && index + |cells| <= |l|
    requires forall i :: 0 <= i < |l| && !(index <= i < index + |cells|) ==> r[i] == l[i]
    requires forall i :: 0 <= i < |cells| ==> r[index + i] == cells[i]
    ensures r == Stored(l, index, cells)
  {
    forall i | 0 <= i < |l| ensures r[i] == Stored(l, index, cells)[i] {
      if index <= i < index + |cells| { assert r[index + (i - index)] == cells[i - index]; }
    }
  }

  // ---------------------------------------------------------------- the frame

  class StackFrame {
    const frame: Frame
    const repaired: bool
    var area: Area
    var topOfStack: nat

    ghost predicate Valid()
      reads this
    {
      InArea(frame, area) && topOfStack <= frame.maxStack <= 0xffff
    }

    /** The first frame of a thread, in its stack as `mmap` gives it. */
    constructor First(maxLocals: nat, maxStack: nat, area: Area, repaired: bool)
      requires maxStack <= 0xffff && FirstFrame(maxLocals, maxStack, repaired).cells + 4 * maxStack <= |area|
      ensures Valid() && Slots() == [] && this.area == area && this.repaired == repaired
      ensures frame == FirstFrame(maxLocals, maxStack, repaired)
    {
      LayoutsAreInArea(maxLocals, maxStack, repaired, area);
      frame := FirstFrame(maxLocals, maxStack, repaired);
      this.repaired := repaired;
      this.area := area;
      topOfStack := 0;
    }

    function Slots(): seq<Slot>
      requires Valid()
      reads this
    {
      SlotsOf(frame, area, topOfStack)
    }

    function Locals(): seq<Cell>
      requires Valid()
      reads this
    {
      LocalsOf(frame, area)
    }

    /** Writes one tag and one cell, and no other byte; what lies there as well is said by FrameLayout. */
    method PushOperand(value: Cell, tag: Tag)
      requires Valid() && topOfStack < frame.maxStack
      modifies this
      ensures Valid() && topOfStack == old(topOfStack) + 1
      ensures area == Pushed(frame, old(area), old(topOfStack), Slot(value, tag))
      ensures Slots() == old(Slots()) + [Slot(value, tag)] && Locals() == old(Locals())
    {
      PushAppends(frame, area, topOfStack, Slot(value, tag));
      var tagged := area[frame.tags + topOfStack := tag];
      area := WriteCell(tagged, frame.cells + 4 * topOfStack, value);
      topOfStack := topOfStack + 1;
    }

    method PopOperand() returns (value: Cell, tag: Tag)
      requires Valid() && topOfStack > 0
      modifies this`topOfStack
      ensures Valid() && topOfStack == old(topOfStack) - 1 && Slots() == old(Slots())[..topOfStack]
      ensures Slot(value, tag) == old(Slots())[topOfStack]
    {
      SlotIs(frame, area, topOfStack, topOfStack - 1);
      SlotsBelow(frame, area, topOfStack, topOfStack - 1);
      tag := area[frame.tags + topOfStack - 1];
      topOfStack := topOfStack - 1;
      value := ReadCell(area, frame.cells + 4 * topOfStack);
    }

    method PeekOperand(index: nat) returns (value: Cell, tag: Tag)
      requires Valid() && index < topOfStack && 4 * (1 + index) <= frame.cells
      ensures tag == Slots()[topOfStack - 1 - index].tag == area[frame.tags + topOfStack - 1 - index]
      ensures value ==
        if repaired then Slots()[topOfStack - 1 - index].cell else ReadCell(area, frame.cells - 4 * (1 + index))
    {
      SlotIs(frame, area, topOfStack, topOfStack - 1 - index);
      tag := area[frame.tags + topOfStack - 1 - index];
      value := ReadCell(area,
        if repaired then frame.cells + 4 * (topOfStack - 1 - index) else frame.cells - 4 * (1 + index));
    }

    method PeekOperandType(index: nat) returns (tag: Tag)
      requires Valid() && index < frame.tags + topOfStack
      ensures tag == PeekedTag(frame, area, topOfStack, index)
      ensures index < topOfStack ==> tag == Slots()[topOfStack - 1 - index].tag
    {
      tag := area[frame.tags + topOfStack - 1 - index];
      if index < topOfStack { SlotIs(frame, area, topOfStack, topOfStack - 1 - index); }
    }

    method PushOperand2(low: Cell, high: Cell, tag: Tag)
      requires Valid() && topOfStack + 2 <= frame.maxStack
      modifies this
      ensures Valid() && topOfStack == old(topOfStack) + 2
      ensures Slots() == old(Slots()) + [Slot(low, tag), Slot(high, tag)] && Locals() == old(Locals())
    {
      PushOperand(low, tag);
      PushOperand(high, tag);
    }

    method PopOperand2() returns (low: Cell, high: Cell, tag: Tag)
      requires Valid() && topOfStack >= 2
      modifies this`topOfStack
      ensures Valid() && topOfStack == old(topOfStack) - 2 && Slots() == old(Slots())[..topOfStack]
      ensures low == old(Slots())[topOfStack].cell && high == old(Slots())[topOfStack + 1].cell
      ensures tag == old(Slots())[topOfStack].tag
    {
      SlotIs(frame, area, topOfStack, topOfStack - 1);
      SlotIs(frame, area, topOfStack, topOfStack - 2);
      SlotsBelow(frame, area, topOfStack, topOfStack - 2);
      tag := area[frame.tags + topOfStack - 2];
      topOfStack := topOfStack - 2;
      low := ReadCell(area, frame.cells + 4 * topOfStack);
      high := ReadCell(area, frame.cells + 4 * (topOfStack + 1));
    }

    // ---- dup and swap

    method Dup()
      requires Valid() && 1 <= topOfStack < frame.maxStack
      modifies this
      ensures Valid() && Locals() == old(Locals())
      ensures Slots() ==
        if repaired then DupUnder(old(Slots()), 1, 0) else WrittenDup(frame, old(area), old(topOfStack))
    {
      ghost var s := Slots();
      var top, tosType := PeekOperand(0);
      PushOperand(top, tosType);
      if repaired { OneDuplicated(s, s[|s| - 1]); }
    }

    method DupX1()
      requires Valid() && 2 <= topOfStack < frame.maxStack
      modifies this
      ensures Valid() && Slots() == DupUnder(old(Slots()), 1, 1) && Locals() == old(Locals())
    {
      ghost var s := Slots();
      var top, tosType := PopOperand();
      var next, nextType := PopOperand();
      Pieces(s[..|s| - 2], [Slot(next, nextType)], [Slot(top, tosType)]);
      assert s == s[..|s| - 2] + [Slot(next, nextType)] + [Slot(top, tosType)];
      assert Slots() == s[..|s| - 2];
      PushOperand(top, tosType);
      PushOperand(next, nextType);
      PushOperand(top, tosType);
    }

    method DupX2()
      requires Valid() && 3 <= topOfStack < frame.maxStack
      modifies this
      ensures Valid() && Slots() == DupUnder(old(Slots()), 1, 2) && Locals() == old(Locals())
    {
      ghost var s := Slots();
      var top, tosType := PopOperand();
      var next, nextType := PopOperand();
      var next2, next2Type := PopOperand();
      assert s == Slots() + [Slot(next2, next2Type), Slot(next, nextType), Slot(top, tosType)];
      DupUnderSlots(s, Slot(top, tosType), Slot(next, nextType), Slot(next2, next2Type), Slots());
      PushOperand(top, tosType);
      PushOperand(next2, next2Type);
      PushOperand(next, nextType);
      PushOperand(top, tosType);
    }

    method Dup2()
      requires Valid() && 2 <= topOfStack && topOfStack + 2 <= frame.maxStack
      modifies this
      ensures Valid() && Locals() == old(Locals())
      ensures Slots() ==
        if repaired then DupUnder(old(Slots()), 2, 0) else WrittenDup2(frame, old(area), old(topOfStack))
    {
      ghost var m, n := area, topOfStack;
      var next, nextType := PeekOperand(1);
      PushOperand(next, nextType);
      var top, tosType := PeekOperand(1);
      Dup2Pushes(frame, m, n, Slot(next, nextType), Slot(top, tosType), repaired);
      PushOperand(top, tosType);
    }

    method Dup2X1()
      requires Valid() && 3 <= topOfStack && topOfStack + 2 <= frame.maxStack
      modifies this
      ensures Valid() && Slots() == DupUnder(old(Slots()), 2, 1) && Locals() == old(Locals())
    {
      ghost var s := Slots();
      var top, tosType := PopOperand();
      var next, nextType := PopOperand();
      var next2, next2Type := PopOperand();
      assert s == Slots() + [Slot(next2, next2Type), Slot(next, nextType), Slot(top, tosType)];
      DupUnderSlots(s, Slot(top, tosType), Slot(next, nextType), Slot(next2, next2Type), Slots());
      PushOperand(next, nextType);
      PushOperand(top, tosType);
      PushOperand(next2, next2Type);
      PushOperand(next, nextType);
      PushOperand(top, tosType);
    }

    method Dup2X2()
      requires Valid() && 4 <= topOfStack && topOfStack + 2 <= frame.maxStack
      modifies this
      ensures Valid() && Slots() == DupUnder(old(Slots()), 2, 2) && Locals() == old(Locals())
    {
      ghost var s := Slots();
      var top, tosType := PopOperand();
      var next, nextType := PopOperand();
      var next2, nextType2 := PopOperand();
      var next3, nextType3 := PopOperand();
      assert s == Slots() + [Slot(next3, nextType3), Slot(next2, nextType2), Slot(next, nextType), Slot(top, tosType)];
      DupUnderFour(s, Slot(top, tosType), Slot(next, nextType), Slot(next2, nextType2), Slot(next3, nextType3),
        Slots());
      PushOperand(next, nextType);
      PushOperand(top, tosType);
      PushOperand(next3, nextType3);
      PushOperand(next2, nextType2);
      PushOperand(next, nextType);
      PushOperand(top, tosType);
    }

    method Swap()
      requires Valid() && 2 <= topOfStack
      modifies this
      ensures Valid() && Slots() == Swapped(old(Slots())) && Locals() == old(Locals())
    {
      ghost var s := Slots();
      var top, tosType := PopOperand();
      var next, nextType := PopOperand();
      assert Slots() == s[..|s| - 2];
      PushOperand(top, tosType);
      PushOperand(next, nextType);
    }

    // ---- loads and stores

    /** `handle_instr_xload` and `handle_instr_xload_n`. */
    method XLoad(index: nat, tag: Tag)
      requires Valid() && topOfStack + CellsOf(tag) <= frame.maxStack && index + CellsOf(tag) <= frame.maxLocals
      modifies this
      ensures Valid() && Locals() == old(Locals())
      ensures Slots() == old(Slots()) + LoadedSlots(Locals(), index, tag, Wide(tag))
    {
      CellIs(area, frame.locals, frame.maxLocals, index);
      if tag == TYPE_LONG || tag == TYPE_DOUBLE {
        CellIs(area, frame.locals, frame.maxLocals, index + 1);
        PushOperand2(ReadCell(area, frame.locals + 4 * index), ReadCell(area, frame.locals + 4 * (index + 1)), tag);
      } else {
        PushOperand(ReadCell(area, frame.locals + 4 * index), tag);
      }
    }

    /** `writeLocal2` of what `popOperand2` takes. */
    method StoreTwo(index: nat) returns (inArea: bool)
      requires Valid()
      modifies this
      ensures Stores(old(area), old(topOfStack), index, true, inArea)
    {
      var top := if topOfStack >= 2 then topOfStack - 2 else topOfStack + 0x1_0000 - 2;
      var to, from := frame.locals + 4 * index, frame.cells + 4 * top;
      if to + 8 > |area| || from + 8 > |area| { return false; }
      var low, high := ReadCell(area, from), ReadCell(area, from + 4);
      area := WriteCell(area, to, low);
      area := WriteCell(area, to + 4, high);
      topOfStack := top;
      inArea := true;
    }

    /** `writeLocal` of what `popOperand` takes. */
    method StoreOne(index: nat) returns (inArea: bool)
      requires Valid()
      modifies this
      ensures Stores(old(area), old(topOfStack), index, false, inArea)
    {
      var top := if topOfStack >= 1 then topOfStack - 1 else topOfStack + 0x1_0000 - 1;
      var to, from := frame.locals + 4 * index, frame.cells + 4 * top;
      if to + 4 > |area| || from + 4 > |area| { return false; }
      area := WriteCell(area, to, ReadCell(area, from));
      topOfStack := top;
      inArea := true;
    }

    /** What a store leaves; see StoresInPlace for what that means on the slots and locals. */
    ghost predicate Stores(m: Area, n: nat, index: nat, wide: bool, inArea: bool)
      reads this
    {
      if inArea then Outcome(frame, m, n, index, wide) == Some((area, topOfStack))
      else Outcome(frame, m, n, index, wide).None? && area == m && topOfStack == n
    }

    /** What both store instructions do once they have chosen which slot's tag to go by. */
    method StoreBy(peeked: nat, index: nat) returns (inArea: bool)
      requires Valid() && peeked < frame.tags + topOfStack
      modifies this
      ensures Stores(old(area), old(topOfStack), index,
                     Wide(PeekedTag(frame, old(area), old(topOfStack), peeked)), inArea)
    {
      var tag := PeekOperandType(peeked);
      if tag == TYPE_LONG || tag == TYPE_DOUBLE {
        inArea := StoreTwo(index);
      } else {
        inArea := StoreOne(index);
      }
    }

    /** `handle_instr_xstore`: the tag of the top decides. */
    method XStore(index: nat) returns (inArea: bool)
      requires Valid()
      modifies this
      ensures Stores(old(area), old(topOfStack), index,
                     Wide(PeekedTag(frame, old(area), old(topOfStack), 0)), inArea)
    {
      inArea := StoreBy(0, index);
    }

    /** `handle_instr_xstore_n` for local 0 to 3: as written (line 329) the tag `index` slots below the top decides. */
    method XStoreN(index: nat) returns (inArea: bool)
      requires Valid() && index <= 3
      modifies this
      ensures Stores(old(area), old(topOfStack), index,
                     Wide(PeekedTag(frame, old(area), old(topOfStack), if repaired then 0 else index)), inArea)
    {
      inArea := StoreBy(if repaired then 0 else index, index);
    }

    /** `handle_instr_l2d`, but for the value it computes: as written (line 1358) it pushes the tag of an int. */
    method L2d(low: Cell, high: Cell)
      requires Valid() && topOfStack >= 2
      modifies this
      ensures Valid() && topOfStack == old(topOfStack) && Locals() == old(Locals())
      ensures Slots() ==
        old(Slots())[..topOfStack - 2] + Two(low, high, if repaired then TYPE_DOUBLE else TYPE_INT).Slots()
    {
      var _, _, _ := PopOperand2();
      PushOperand2(low, high, if repaired then TYPE_DOUBLE else TYPE_INT);
    }
  }

  function CellsOf(tag: Tag): nat { if Wide(tag) then 2 else 1 }

  // ---------------------------------------------------------------- which width a store chooses

  /** The store takes the value on top and writes its cells to the locals. */
  predicate StoreIsRight(rest: seq<Value>, v: Value, locals: seq<Cell>, index: nat, tag: Tag)
    requires index + 2 <= |locals| && |Flat(rest + [v])| >= CellsOf(tag)
  {
    var (s, locals') := StoreTop(Flat(rest + [v]), locals, index, Wide(tag));
    StoresTop(rest, v, s, locals, locals', index)
  }

  /** Going by the tag of the top is right exactly for well tagged values. */
  lemma XStoreExact(rest: seq<Value>, v: Value, locals: seq<Cell>, index: nat)
    requires index + 2 <= |locals|
    ensures var s := Flat(rest + [v]);
      && |s| >= |v.Slots()| > 0 && s[|s| - 1].tag == v.tag
      && (WellTagged(v) ==> StoreIsRight(rest, v, locals, index, v.tag))
      && (!WellTagged(v) && CellsOf(v.tag) <= |s| ==> !StoreIsRight(rest, v, locals, index, v.tag))
  {
    if CellsOf(v.tag) <= |Flat(rest + [v])| {
      StoreExact(rest, v, locals, index, Wide(v.tag));
    }
  }

  /**
    Going by the tag `index` slots down, or by whatever byte lies there, is right exactly when
    that tag has the width of the value on top.
   */
  lemma XStoreNExact(f: Frame, m: Area, n: nat, rest: seq<Value>, v: Value, index: nat)
    requires InArea(f, m) && n <= f.maxStack && SlotsOf(f, m, n) == Flat(rest + [v]) && WellTagged(v)
    requires index < f.tags + n && index + 2 <= f.maxLocals && n >= CellsOf(PeekedTag(f, m, n, index))
    ensures var tag := PeekedTag(f, m, n, index);
      StoreIsRight(rest, v, LocalsOf(f, m), index, tag) <==> Wide(tag) == Wide(v.tag)
  {
    StoreExact(rest, v, LocalsOf(f, m), index, Wide(PeekedTag(f, m, n, index)));
  }

  /** `istore_1` with an int above a long takes half of the long along. */
  lemma XStoreNTakesTooMuch(l: Cell, h: Cell, c: Cell, locals: seq<Cell>)
    requires |locals| >= 3
    ensures var s := Flat([Two(l, h, TYPE_LONG), One(c, TYPE_INT)]);
      && |s| == 3 && s[|s| - 1 - 1].tag == TYPE_LONG
      && StoreTop(s, locals, 1, true) == ([Slot(l, TYPE_LONG)], Stored(locals, 1, [h, c]))
  {
    FlatPair([], Two(l, h, TYPE_LONG), One(c, TYPE_INT));
    assert [] + [Two(l, h, TYPE_LONG), One(c, TYPE_INT)] == [Two(l, h, TYPE_LONG), One(c, TYPE_INT)];
    var s := Flat([Two(l, h, TYPE_LONG), One(c, TYPE_INT)]);
    assert s == [Slot(l, TYPE_LONG), Slot(h, TYPE_LONG), Slot(c, TYPE_INT)];
    assert s[..1] == [Slot(l, TYPE_LONG)];
  }

  /** What `l2d` pushes is stored wrongly as written, and rightly with the tag of a double. */
  lemma L2dThenStore(rest: seq<Value>, low: Cell, high: Cell, locals: seq<Cell>, index: nat, repaired: bool)
    requires index + 2 <= |locals|
    ensures var v := Two(low, high, if repaired then TYPE_DOUBLE else TYPE_INT);
      && |Flat(rest + [v])| >= 2
      && (StoreIsRight(rest, v, locals, index, v.tag) <==> repaired)
  {
    var v := Two(low, high, if repaired then TYPE_DOUBLE else TYPE_INT);
    StoreExact(rest, v, locals, index, Wide(v.tag));
  }
}
