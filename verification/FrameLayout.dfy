/**
  Where a stack frame lies (jthread.c:35-43, bytecode_interpreter.c:172-182): one area of
  bytes with the locals, the operand stack's type tags and its cells, and, in a thread's
  first frame, the `stack_frame` structure itself.  Positions are offsets in the area; a
  cell has four bytes and a pointer eight, as on x86-64.
 */
module FrameLayout {
  import Bytes

  type Byte = Bytes.Byte
  type Area = seq<Byte>
  type Tag = Byte

  /** A `cell_t` is a union; here it is its four bytes. */
  datatype Cell = Cell(b0: Byte, b1: Byte, b2: Byte, b3: Byte)

  /** A cell with its tag. */
  datatype Slot = Slot(cell: Cell, tag: Tag)

  // ---------------------------------------------------------------- cells in bytes

  function ReadCell(m: Area, at: nat): Cell
    requires at + 4 <= |m|
  {
    Cell(m[at], m[at + 1], m[at + 2], m[at + 3])
  }

  function WriteCell(m: Area, at: nat, c: Cell): (r: Area)
    requires at + 4 <= |m|
    ensures |r| == |m|
  {
    m[at := c.b0][at + 1 := c.b1][at + 2 := c.b2][at + 3 := c.b3]
  }

  lemma ReadBack(m: Area, at: nat, c: Cell)
    requires at + 4 <= |m|
    ensures ReadCell(WriteCell(m, at, c), at) == c
    ensures forall i :: 0 <= i < |m| && !(at <= i < at + 4) ==> WriteCell(m, at, c)[i] == m[i]
  {
  }

  /** A cell whose bytes are the same. */
  lemma SameCell(m: Area, r: Area, at: nat)
    requires at + 4 <= |m| == |r| && forall i :: at <= i < at + 4 ==> r[i] == m[i]
    ensures ReadCell(r, at) == ReadCell(m, at)
  {
  }

  function BytesOf(c: Cell): seq<Byte> { [c.b0, c.b1, c.b2, c.b3] }

  lemma BytesOfRead(m: Area, at: nat)
    requires at + 4 <= |m|
    ensures BytesOf(ReadCell(m, at)) == m[at..at + 4]
  {
  }

  lemma BytesDetermine(c: Cell, d: Cell)
    ensures c == d <==> BytesOf(c) == BytesOf(d)
  {
    assert BytesOf(c)[0] == c.b0 && BytesOf(c)[1] == c.b1 && BytesOf(c)[2] == c.b2 && BytesOf(c)[3] == c.b3;
    assert BytesOf(d)[0] == d.b0 && BytesOf(d)[1] == d.b1 && BytesOf(d)[2] == d.b2 && BytesOf(d)[3] == d.b3;
  }

  // ---------------------------------------------------------------- the two layouts

  const FRAME_SIZE: nat := 56
  const POINTER_SIZE: nat := 8

  function Aligned(n: nat): nat { (n + 7) / 8 * 8 }

  /** The bases a frame is created with; `struct` is absent when it is a variable of the C function. */
  datatype Frame = Frame(locals: nat, tags: nat, cells: nat, maxLocals: nat, maxStack: nat, struct: int)

  const OUTSIDE: int := -1

  /**
    `createThread`.  As written line 41 adds `sizeof(stackFrame)`, the size of a pointer;
    `repaired` adds the size of the structure.
   */
  function FirstFrame(maxLocals: nat, maxStack: nat, repaired: bool): Frame {
    var at := Aligned(4 * maxLocals);
    var tags := at + if repaired then FRAME_SIZE else POINTER_SIZE;
    Frame(0, tags, tags + Aligned(maxStack), maxLocals, maxStack, at)
  }

  /** The frame for `<clinit>`, on top of what the caller has on its stack. */
  function ClinitFrame(caller: Frame, callerTop: nat, maxLocals: nat, maxStack: nat): Frame {
    var locals := caller.cells + 4 * callerTop;
    var tags := locals + 4 * maxLocals;
    Frame(locals, tags, tags + maxStack, maxLocals, maxStack, OUTSIDE)
  }

  /** A frame that one of the two has created. */
  ghost predicate Created(f: Frame) {
    || (exists repaired :: f == FirstFrame(f.maxLocals, f.maxStack, repaired))
    || (exists caller, callerTop :: f == ClinitFrame(caller, callerTop, f.maxLocals, f.maxStack))
  }

  /** Two stretches of bytes have none in common. */
  predicate Apart(a: int, n: nat, b: int, k: nat) { n == 0 || k == 0 || a + n <= b || b + k <= a }

  /** Locals, tags and cells follow one another. */
  predicate StackApart(f: Frame) { f.locals + 4 * f.maxLocals <= f.tags && f.tags + f.maxStack <= f.cells }

  /** The structure at `struct` is apart from the locals, tags and cells of `f`. */
  predicate ApartFrom(f: Frame, struct: int) {
    && Apart(struct, FRAME_SIZE, f.locals, 4 * f.maxLocals)
    && Apart(struct, FRAME_SIZE, f.tags, f.maxStack)
    && Apart(struct, FRAME_SIZE, f.cells, 4 * f.maxStack)
  }

  lemma AlignedUp(n: nat)
    ensures n <= Aligned(n) < n + 8 && Aligned(n) % 8 == 0
  {
  }

  /** As written a thread's first frame has its structure to itself if and only if its method needs no stack. */
  lemma FirstFrameApartIff(maxLocals: nat, maxStack: nat, repaired: bool)
    ensures var f := FirstFrame(maxLocals, maxStack, repaired);
      StackApart(f) && (ApartFrom(f, f.struct) <==> repaired || maxStack == 0)
    ensures var f := FirstFrame(maxLocals, maxStack, repaired);
      f.locals == 0 && 4 * maxLocals <= f.struct < 4 * maxLocals + 8 && f.cells < f.tags + maxStack + 8
  {
    AlignedUp(4 * maxLocals);
    AlignedUp(maxStack);
  }

  /**
    The frame of a class initializer is in order in itself, and apart from the structure of a
    caller that is a first frame if and only if it takes no room, or, as written, the
    caller's stack reaches beyond the structure.
   */
  lemma ClinitFrameApartIff(maxLocals: nat, maxStack: nat, repaired: bool, top: nat, maxLocals': nat, maxStack': nat)
    requires top <= maxStack
    ensures var caller := FirstFrame(maxLocals, maxStack, repaired);
      var f := ClinitFrame(caller, top, maxLocals', maxStack');
      && StackApart(f)
      && (ApartFrom(f, caller.struct) <==>
            repaired || (maxLocals' == 0 && maxStack' == 0) || POINTER_SIZE + Aligned(maxStack) + 4 * top >= FRAME_SIZE)
    ensures var caller := FirstFrame(maxLocals, maxStack, repaired);
      var f := ClinitFrame(caller, top, maxLocals', maxStack');
      f.locals == caller.cells + 4 * top && f.tags == f.locals + 4 * maxLocals' && f.cells == f.tags + maxStack'
  {
    AlignedUp(4 * maxLocals);
    AlignedUp(maxStack);
  }

  // ---------------------------------------------------------------- slots in the area

  /** The area holds the frame, and there is something below its tags and cells. */
  predicate InArea(f: Frame, m: Area) {
    && StackApart(f)
    && f.locals + 4 * f.maxLocals <= |m| && f.tags + f.maxStack <= |m| && f.cells + 4 * f.maxStack <= |m|
    && 8 <= f.tags && 8 <= f.cells
  }

  lemma LayoutsAreInArea(maxLocals: nat, maxStack: nat, repaired: bool, m: Area)
    requires var f := FirstFrame(maxLocals, maxStack, repaired); f.cells + 4 * maxStack <= |m|
    ensures InArea(FirstFrame(maxLocals, maxStack, repaired), m)
  {
    FirstFrameApartIff(maxLocals, maxStack, repaired);
    AlignedUp(4 * maxLocals);
    AlignedUp(maxStack);
  }

  /** The tags of all slots, and what alignment adds to them. */
  function TagArea(f: Frame, m: Area): seq<Byte>
    requires InArea(f, m)
  {
    m[f.tags..f.cells]
  }

  function SlotAt(f: Frame, m: Area, i: nat): Slot
    requires InArea(f, m) && i < f.maxStack
  {
    Slot(ReadCell(m, f.cells + 4 * i), m[f.tags + i])
  }

  function SlotsOf(f: Frame, m: Area, n: nat): (s: seq<Slot>)
    requires InArea(f, m) && n <= f.maxStack
    ensures |s| == n
  {
    if n == 0 then [] else SlotsOf(f, m, n - 1) + [SlotAt(f, m, n - 1)]
  }

  function CellsAt(m: Area, at: nat, n: nat): (s: seq<Cell>)
    requires at + 4 * n <= |m|
    ensures |s| == n
  {
    if n == 0 then [] else CellsAt(m, at, n - 1) + [ReadCell(m, at + 4 * (n - 1))]
  }

  function LocalsOf(f: Frame, m: Area): (s: seq<Cell>)
    requires InArea(f, m)
    ensures |s| == f.maxLocals
  {
    CellsAt(m, f.locals, f.maxLocals)
  }

  lemma {:induction false} SlotIs(f: Frame, m: Area, n: nat, i: nat)
    requires InArea(f, m) && i < n <= f.maxStack
    ensures SlotsOf(f, m, n)[i] == SlotAt(f, m, i)
  {
    if i < n - 1 { SlotIs(f, m, n - 1, i); }
  }

  lemma {:induction false} SlotsBelow(f: Frame, m: Area, n: nat, k: nat)
    requires InArea(f, m) && k <= n <= f.maxStack
    ensures SlotsOf(f, m, k) == SlotsOf(f, m, n)[..k]
  {
    if k < n {
      SlotsBelow(f, m, n - 1, k);
      PrefixOfLonger(SlotsOf(f, m, n - 1), SlotAt(f, m, n - 1), k);
    } else {
      assert SlotsOf(f, m, n)[..n] == SlotsOf(f, m, n);
    }
  }

  lemma PrefixOfLonger<T>(s: seq<T>, x: T, k: nat)
    requires k <= |s|
    ensures (s + [x])[..k] == s[..k]
  {
  }

  lemma {:induction false} CellIs(m: Area, at: nat, n: nat, i: nat)
    requires at + 4 * n <= |m| && i < n
    ensures CellsAt(m, at, n)[i] == ReadCell(m, at + 4 * i)
  {
    if i < n - 1 { CellIs(m, at, n - 1, i); }
  }

  lemma {:induction false} SlotsAgree(f: Frame, m: Area, r: Area, n: nat)
    requires InArea(f, m) && InArea(f, r) && n <= f.maxStack
    requires forall i :: 0 <= i < n ==> SlotAt(f, r, i) == SlotAt(f, m, i)
    ensures SlotsOf(f, r, n) == SlotsOf(f, m, n)
  {
    if n > 0 { SlotsAgree(f, m, r, n - 1); }
  }

  lemma {:induction false} CellsAgree(m: Area, r: Area, at: nat, n: nat)
    requires at + 4 * n <= |m| == |r| && forall i :: at <= i < at + 4 * n ==> r[i] == m[i]
    ensures CellsAt(r, at, n) == CellsAt(m, at, n)
  {
    if n > 0 {
      CellsAgree(m, r, at, n - 1);
      SameCell(m, r, at + 4 * (n - 1));
    }
  }

  /** A push writes one tag byte and the four bytes of one cell. */
  function Pushed(f: Frame, m: Area, n: nat, x: Slot): (r: Area)
    requires InArea(f, m) && n < f.maxStack
    ensures |r| == |m|
  {
    WriteCell(m[f.tags + n := x.tag], f.cells + 4 * n, x.cell)
  }

  predicate Written(f: Frame, n: nat, i: int) { i == f.tags + n || f.cells + 4 * n <= i < f.cells + 4 * n + 4 }

  lemma PushedBytes(f: Frame, m: Area, n: nat, x: Slot)
    requires InArea(f, m) && n < f.maxStack
    ensures forall i :: 0 <= i < |m| && !Written(f, n, i) ==> Pushed(f, m, n, x)[i] == m[i]
    ensures SlotAt(f, Pushed(f, m, n, x), n) == x
  {
    ReadBack(m[f.tags + n := x.tag], f.cells + 4 * n, x.cell);
  }

  lemma PushKeepsCell(f: Frame, m: Area, n: nat, x: Slot, at: nat)
    requires InArea(f, m) && n < f.maxStack && at + 4 <= |m|
    requires forall i :: at <= i < at + 4 ==> !Written(f, n, i)
    ensures ReadCell(Pushed(f, m, n, x), at) == ReadCell(m, at)
  {
    PushedBytes(f, m, n, x);
    SameCell(m, Pushed(f, m, n, x), at);
  }

  /** On the slots it is an append, and the locals stay. */
  lemma PushAppends(f: Frame, m: Area, n: nat, x: Slot)
    requires InArea(f, m) && n < f.maxStack
    ensures InArea(f, Pushed(f, m, n, x))
    ensures SlotsOf(f, Pushed(f, m, n, x), n + 1) == SlotsOf(f, m, n) + [x]
    ensures LocalsOf(f, Pushed(f, m, n, x)) == LocalsOf(f, m)
  {
    var r := Pushed(f, m, n, x);
    PushedBytes(f, m, n, x);
    forall i | 0 <= i < n ensures SlotAt(f, r, i) == SlotAt(f, m, i) {
      PushKeepsCell(f, m, n, x, f.cells + 4 * i);
      assert !Written(f, n, f.tags + i);
    }
    SlotsAgree(f, m, r, n);
    CellsAgree(m, r, f.locals, f.maxLocals);
  }

  // ---------------------------------------------------------------- what a push does to the structure

  datatype Field =
    | PreviousStackFrame | PrevFramePC | CurrentMethod | LocalVariableBase
    | OperandStackTypeBase | OperandStackBase | TopOfStack

  function FieldAt(offset: nat): Field
    requires offset < FRAME_SIZE
  {
    if offset < 8 then PreviousStackFrame
    else if offset < 16 then PrevFramePC
    else if offset < 24 then CurrentMethod
    else if offset < 32 then LocalVariableBase
    else if offset < 40 then OperandStackTypeBase
    else if offset < 48 then OperandStackBase
    else TopOfStack
  }

  /** The structure's pointers in order, eight bytes each, and the count behind them. */
  const FIELDS := [PreviousStackFrame, PrevFramePC, CurrentMethod, LocalVariableBase, OperandStackTypeBase,
                   OperandStackBase, TopOfStack]

  lemma FieldsTile(k: nat)
    requires k < FRAME_SIZE
    ensures k / 8 < |FIELDS| && FieldAt(k) == FIELDS[k / 8]
  {
  }

  /** Slot `n` is pushed into the field that lies there. */
  predicate Overwrites(f: Frame, n: nat, field: Field) {
    f.struct >= 0 && exists k: nat :: k < FRAME_SIZE && Written(f, n, f.struct + k) && FieldAt(k) == field
  }

  /**
    In a thread's first frame as written, whatever is pushed, the push to slot `n` leaves the
    structure as it is if and only if 48 slots or more are below; with the size of the
    structure added, it always does.
   */
  lemma PushSparesFrameIff(maxLocals: nat, maxStack: nat, repaired: bool, n: nat)
    requires n < maxStack
    ensures var f := FirstFrame(maxLocals, maxStack, repaired);
      (exists field :: Overwrites(f, n, field)) <==> !repaired && n < 48
  {
    var f := FirstFrame(maxLocals, maxStack, repaired);
    AlignedUp(maxStack);
    if !repaired && n < 48 {
      assert Written(f, n, f.struct + (8 + n));
      assert Overwrites(f, n, FieldAt(8 + n));
    }
  }

  /** The very first push of a method with up to eight slots goes over the pointer to that method. */
  lemma FirstPushHitsMethod(maxLocals: nat, maxStack: nat)
    requires 1 <= maxStack <= 8
    ensures var f := FirstFrame(maxLocals, maxStack, false);
      Overwrites(f, 0, PrevFramePC) && Overwrites(f, 0, CurrentMethod)
  {
    var f := FirstFrame(maxLocals, maxStack, false);
    AlignedUp(maxStack);
    assert Aligned(maxStack) == 8;
    assert Written(f, 0, f.struct + 8) && FieldAt(8) == PrevFramePC;
    assert Written(f, 0, f.struct + 16) && FieldAt(16) == CurrentMethod;
  }
}
