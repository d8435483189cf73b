/**
  The constant pool of a class file (constantpool.c:11-142, JVMS section 4.4).

  `wide` says whether a long or double takes two indices, as section 4.4.5 of the JVMS
  demands; as written (lines 51-56) it takes one.  Reading past the end of the data, which
  the code does not notice, counts as failing.
 */
module ConstantPool {
  import opened Bytes
  import opened Collections
  import opened Wrappers

  const UTF8: Byte := 1
  const INTEGER: Byte := 3
  const FLOAT: Byte := 4
  const LONG: Byte := 5
  const DOUBLE: Byte := 6
  const CLASS: Byte := 7
  const STRING: Byte := 8
  const FIELDREF: Byte := 9
  const METHODREF: Byte := 10
  const INTERFACE_METHODREF: Byte := 11
  const NAME_AND_TYPE: Byte := 12
  const METHOD_HANDLE: Byte := 15
  const METHOD_TYPE: Byte := 16
  const INVOKE_DYNAMIC: Byte := 18

  /** An entry, by the shape of what follows its tag. */
  datatype Constant =
    | Text(chars: seq<Byte>)
    | Number(tag: Byte, bytes: nat)
    | Index(tag: Byte, index: nat)
    | Pair(tag: Byte, first: nat, second: nat)
    | Handle(kind: nat, index: nat)

  /** What a parser leaves: a value and the position behind it. */
  datatype Parsed<T> = Ok(value: T, at: nat) | Failed

  type Pool = seq<Option<Constant>>

  function NumberWidth(tag: Byte): nat { if tag == LONG || tag == DOUBLE then 8 else 4 }

  predicate IsNumber(tag: Byte) { tag == INTEGER || tag == FLOAT || tag == LONG || tag == DOUBLE }

  predicate IsIndex(tag: Byte) { tag == CLASS || tag == STRING || tag == METHOD_TYPE }

  predicate IsPair(tag: Byte) {
    tag == FIELDREF || tag == METHODREF || tag == INTERFACE_METHODREF || tag == NAME_AND_TYPE || tag == INVOKE_DYNAMIC
  }

  predicate IsWide(c: Constant) { c.Number? && (c.tag == LONG || c.tag == DOUBLE) }

  predicate WellFormed(c: Constant) {
    match c
    case Text(chars) => |chars| < Capacity(2)
    case Number(tag, bytes) => IsNumber(tag) && bytes < Capacity(NumberWidth(tag))
    case Index(tag, i) => IsIndex(tag) && i < Capacity(2)
    case Pair(tag, i, j) => IsPair(tag) && i < Capacity(2) && j < Capacity(2)
    case Handle(kind, i) => kind < Capacity(1) && i < Capacity(2)
  }

  // ---------------------------------------------------------------- printing

  function Print(c: Constant): seq<Byte> {
    match c
    case Text(chars) => [UTF8] + (Digits(|chars|, 2) + chars)
    case Number(tag, bytes) => [tag] + Digits(bytes, NumberWidth(tag))
    case Index(tag, i) => [tag] + Digits(i, 2)
    case Pair(tag, i, j) => [tag] + (Digits(i, 2) + Digits(j, 2))
    case Handle(kind, i) => [METHOD_HANDLE] + (Digits(kind, 1) + Digits(i, 2))
  }

  type Printer = Constant -> seq<Byte>

  function PrintAll(printer: Printer, cs: seq<Constant>): seq<Byte> {
    if cs == [] then [] else printer(cs[0]) + PrintAll(printer, cs[1..])
  }

  /** How many indices entries take. */
  function Indices(cs: seq<Constant>, wide: bool): nat {
    if cs == [] then 0 else (if wide && IsWide(cs[0]) then 2 else 1) + Indices(cs[1..], wide)
  }

  /** The entries under their indices, of which the first is 1; the second index of a long or double is unused. */
  function Entries(cs: seq<Constant>, wide: bool): (p: Pool)
    ensures |p| == Indices(cs, wide)
  {
    if cs == [] then []
    else [Some(cs[0])] + (if wide && IsWide(cs[0]) then [None] else []) + Entries(cs[1..], wide)
  }

  /** A constant pool in the format of section 4.4. */
  function PrintPool(cs: seq<Constant>): seq<Byte> { Digits(1 + Indices(cs, true), 2) + PrintAll(Print, cs) }

  // ---------------------------------------------------------------- parsing

  /** One turn of the loop: the entry whose tag is at `at`. */
  function ParseConstant(data: seq<Byte>, at: nat): (r: Parsed<Constant>)
    ensures r.Ok? ==> at < r.at <= |data|
  {
    if at >= |data| then Failed
    else
      var tag, n, rest := data[at], |data|, at + 1;
      if tag == UTF8 then
        if rest + 2 > n || rest + 2 + Value(data, rest, 2) > n then Failed
        else
          var length := Value(data, rest, 2);
          Ok(Text(data[rest + 2..rest + 2 + length]), rest + 2 + length)
      else if IsNumber(tag) then
        var width := NumberWidth(tag);
        if rest + width > n then Failed else Ok(Number(tag, Value(data, rest, width)), rest + width)
      else if IsIndex(tag) then
        if rest + 2 > n then Failed else Ok(Index(tag, Value(data, rest, 2)), rest + 2)
      else if IsPair(tag) then
        if rest + 4 > n then Failed else Ok(Pair(tag, Value(data, rest, 2), Value(data, rest + 2, 2)), rest + 4)
      else if tag == METHOD_HANDLE then
        if rest + 3 > n then Failed else Ok(Handle(Value(data, rest, 1), Value(data, rest + 1, 2)), rest + 3)
      else Failed
  }

  /** What turns a position into the entry there. */
  type Parser = nat -> Parsed<Constant>

  function EntryParser(data: seq<Byte>): Parser { (at: nat) => ParseConstant(data, at) }

  /** The loop, for the indices from `i` up to `length`. */
  function ParseEntries(parser: Parser, at: nat, i: nat, length: nat, wide: bool): (r: Parsed<Pool>)
    decreases length - i
  {
    if i >= length then Ok([], at)
    else
      match parser(at)
      case Failed => Failed
      case Ok(c, next) =>
        var skip := wide && IsWide(c);
        match ParseEntries(parser, next, if skip then i + 2 else i + 1, length, wide)
        case Failed => Failed
        case Ok(rest, end) => Ok([Some(c)] + (if skip then [None] else []) + rest, end)
  }

  /** `parseConstantPool`: index 0 is unused. */
  function ParsePool(data: seq<Byte>, at: nat, wide: bool): (r: Parsed<Pool>) {
    if at + 2 > |data| then Failed
    else
      match ParseEntries(EntryParser(data), at + 2, 1, Value(data, at, 2), wide)
      case Failed => Failed
      case Ok(entries, end) => Ok([None] + entries, end)
  }

  // ---------------------------------------------------------------- the tags of the format

  /**
    Which entry a tag announces, by Table 4.4-A of the JVMS: numbers of four and of eight
    bytes, one index, two indices, a method handle and a text; there are no other tags.
   */
  lemma TagsAreThoseOfTheFormat(data: seq<Byte>, at: nat)
    requires at + 9 <= |data|
    ensures var tag, rest := data[at], at + 1;
      && (tag in {3, 4} ==> ParseConstant(data, at) == Ok(Number(tag, Value(data, rest, 4)), at + 5))
      && (tag in {5, 6} ==> ParseConstant(data, at) == Ok(Number(tag, Value(data, rest, 8)), at + 9))
      && (tag in {7, 8, 16} ==> ParseConstant(data, at) == Ok(Index(tag, Value(data, rest, 2)), at + 3))
      && (tag in {9, 10, 11, 12, 18} ==>
            ParseConstant(data, at) == Ok(Pair(tag, Value(data, rest, 2), Value(data, rest + 2, 2)), at + 5))
      && (tag == 15 ==>
            ParseConstant(data, at) == Ok(Handle(Value(data, rest, 1), Value(data, rest + 1, 2)), at + 4))
      && (tag == 1 && rest + 2 + Value(data, rest, 2) <= |data| ==>
            var end := rest + 2 + Value(data, rest, 2); ParseConstant(data, at) == Ok(Text(data[rest + 2..end]), end))
      && (tag !in {1, 3, 4, 5, 6, 7, 8, 9, 10, 11, 12, 15, 16, 18} ==> ParseConstant(data, at).Failed?)
  {
  }

  /** The two kinds of entry that take two indices (section 4.4.5). */
  lemma WideTags(c: Constant)
    ensures IsWide(c) <==> c.Number? && (c.tag == 5 || c.tag == 6)
  {
  }

  // ---------------------------------------------------------------- parsing inverts printing

  /** Every entry reads back, and the parser stops behind it. */
  lemma ParsesPrinted(data: seq<Byte>, at: nat, c: Constant)
    requires WellFormed(c) && Holds(data, at, Print(c))
    ensures ParseConstant(data, at) == Ok(c, at + |Print(c)|)
  {
    match c
    case Text(chars) => TextParses(data, at, chars, |chars|);
    case Number(tag, bytes) =>
      HoldsParts(data, at, [tag], Digits(bytes, NumberWidth(tag)));
      HoldsValue(data, at + 1, bytes, NumberWidth(tag));
      assert data[at] == data[at..at + 1][0];
    case Index(tag, i) =>
      HoldsParts(data, at, [tag], Digits(i, 2));
      HoldsValue(data, at + 1, i, 2);
      assert data[at] == data[at..at + 1][0];
    case Pair(tag, i, j) => PairParses(data, at, tag, i, j);
    case Handle(kind, i) => HandleParses(data, at, kind, i);
  }

  lemma TextParses(data: seq<Byte>, at: nat, chars: seq<Byte>, n: nat)
    requires n == |chars| && n < Capacity(2) && Holds(data, at, [UTF8] + (Digits(n, 2) + chars))
    ensures ParseConstant(data, at) == Ok(Text(chars), at + 3 + n)
  {
    TextHeld(data, at, chars, n);
  }

  lemma TextHeld(data: seq<Byte>, at: nat, chars: seq<Byte>, n: nat)
    requires n == |chars| && n < Capacity(2) && Holds(data, at, [UTF8] + (Digits(n, 2) + chars))
    ensures at + 3 + n <= |data| && data[at] == UTF8 && Value(data, at + 1, 2) == n
    ensures data[at + 3..at + 3 + n] == chars
  {
    HoldsParts(data, at, [UTF8], Digits(n, 2) + chars);
    HoldsParts(data, at + 1, Digits(n, 2), chars);
    HoldsValue(data, at + 1, n, 2);
    assert data[at] == data[at..at + 1][0];
  }

  lemma PairParses(data: seq<Byte>, at: nat, tag: Byte, i: nat, j: nat)
    requires IsPair(tag) && i < Capacity(2) && j < Capacity(2) && Holds(data, at, [tag] + (Digits(i, 2) + Digits(j, 2)))
    ensures ParseConstant(data, at) == Ok(Pair(tag, i, j), at + 5)
  {
    HoldsParts(data, at, [tag], Digits(i, 2) + Digits(j, 2));
    HoldsParts(data, at + 1, Digits(i, 2), Digits(j, 2));
    HoldsValue(data, at + 1, i, 2);
    HoldsValue(data, at + 3, j, 2);
    assert data[at] == data[at..at + 1][0];
  }

  lemma HandleParses(data: seq<Byte>, at: nat, kind: nat, i: nat)
    requires kind < Capacity(1) && i < Capacity(2)
    requires Holds(data, at, [METHOD_HANDLE] + (Digits(kind, 1) + Digits(i, 2)))
    ensures ParseConstant(data, at) == Ok(Handle(kind, i), at + 4)
  {
    HoldsParts(data, at, [METHOD_HANDLE], Digits(kind, 1) + Digits(i, 2));
    HoldsParts(data, at + 1, Digits(kind, 1), Digits(i, 2));
    HoldsValue(data, at + 1, kind, 1);
    HoldsValue(data, at + 2, i, 2);
    assert data[at] == data[at..at + 1][0];
  }

  /** A parser reads back what a printer prints, at every position. */
  ghost predicate Inverts(parser: Parser, printer: Printer, data: seq<Byte>) {
    forall c: Constant, at: nat {:trigger Holds(data, at, printer(c))} ::
      WellFormed(c) && Holds(data, at, printer(c)) ==> parser(at) == Ok(c, at + |printer(c)|)
  }

  lemma EntriesInvert(data: seq<Byte>)
    ensures Inverts(EntryParser(data), Print, data)
  {
    forall c: Constant, at: nat | WellFormed(c) && Holds(data, at, Print(c))
      ensures EntryParser(data)(at) == Ok(c, at + |Print(c)|)
    {
      ParsesPrinted(data, at, c);
    }
  }

  /** What holds for an entry holds for a list of them. */
  lemma {:induction false} ParsesAll(parser: Parser, printer: Printer, data: seq<Byte>, at: nat, cs: seq<Constant>,
                                     i: nat, wide: bool)
    requires Inverts(parser, printer, data)
    requires (forall k :: 0 <= k < |cs| ==> WellFormed(cs[k])) && Holds(data, at, PrintAll(printer, cs))
    ensures ParseEntries(parser, at, i, i + Indices(cs, wide), wide) ==
      Ok(Entries(cs, wide), at + |PrintAll(printer, cs)|)
    decreases |cs|
  {
    if cs != [] {
      HoldsParts(data, at, printer(cs[0]), PrintAll(printer, cs[1..]));
      ParsesAll(parser, printer, data, at + |printer(cs[0])|, cs[1..],
                if wide && IsWide(cs[0]) then i + 2 else i + 1, wide);
    }
  }

  predicate WellFormedPool(cs: seq<Constant>) {
    1 + Indices(cs, true) < Capacity(2) && forall k :: 0 <= k < |cs| ==> WellFormed(cs[k])
  }

  /** With two indices for a long or double, parsing inverts printing for every pool, and ends at its end. */
  lemma PoolRoundTrip(data: seq<Byte>, at: nat, cs: seq<Constant>)
    requires WellFormedPool(cs) && Holds(data, at, PrintPool(cs))
    ensures ParsePool(data, at, true) == Ok([None] + Entries(cs, true), at + |PrintPool(cs)|)
  {
    HoldsParts(data, at, Digits(1 + Indices(cs, true), 2), PrintAll(Print, cs));
    EntriesInvert(data);
    HoldsValue(data, at, 1 + Indices(cs, true), 2);
    ParsesAll(EntryParser(data), Print, data, at + 2, cs, 1, true);
  }

  predicate HasWide(cs: seq<Constant>) { exists k :: 0 <= k < |cs| && IsWide(cs[k]) }

  lemma {:induction false} NarrowAlike(cs: seq<Constant>)
    requires !HasWide(cs)
    ensures Indices(cs, true) == Indices(cs, false) && Entries(cs, true) == Entries(cs, false)
  {
    if cs != [] {
      assert forall k :: 0 <= k < |cs[1..]| ==> cs[1..][k] == cs[k + 1];
      NarrowAlike(cs[1..]);
    }
  }

  /** As written every index up to the length gets an entry. */
  lemma {:induction false} WrittenLeavesNoGap(parser: Parser, at: nat, i: nat, length: nat)
    requires i <= length
    ensures var r := ParseEntries(parser, at, i, length, false);
      r.Ok? ==> |r.value| == length - i && forall k :: 0 <= k < |r.value| ==> r.value[k].Some?
    decreases length - i
  {
    if i < length && parser(at).Ok? {
      WrittenLeavesNoGap(parser, parser(at).at, i + 1, length);
    }
  }

  lemma {:induction false} WideLeavesGap(cs: seq<Constant>) returns (k: nat)
    requires HasWide(cs)
    ensures k < |Entries(cs, true)| && Entries(cs, true)[k] == None
  {
    if IsWide(cs[0]) {
      k := 1;
    } else {
      var j :| 0 <= j < |cs| && IsWide(cs[j]);
      assert IsWide(cs[1..][j - 1]);
      var k' := WideLeavesGap(cs[1..]);
      k := k' + 1;
    }
  }

  lemma WrittenWide(data: seq<Byte>, at: nat, cs: seq<Constant>)
    requires HasWide(cs) && at + 2 <= |data| && Value(data, at, 2) == 1 + Indices(cs, true)
    ensures var r := ParsePool(data, at, false); r.Ok? ==> r.value != [None] + Entries(cs, true)
  {
    var k := WideLeavesGap(cs);
    WrittenLeavesNoGap(EntryParser(data), at + 2, 1, 1 + Indices(cs, true));
    var r := ParsePool(data, at, false);
    if r.Ok? {
      assert r.value[k + 1].Some? && ([None] + Entries(cs, true))[k + 1] == None;
    }
  }

  lemma WrittenNarrow(data: seq<Byte>, at: nat, cs: seq<Constant>)
    requires !HasWide(cs) && WellFormedPool(cs) && Holds(data, at + 2, PrintAll(Print, cs))
    requires at + 2 <= |data| && Value(data, at, 2) == 1 + Indices(cs, true)
    ensures ParsePool(data, at, false) == Ok([None] + Entries(cs, true), at + 2 + |PrintAll(Print, cs)|)
  {
    NarrowAlike(cs);
    EntriesInvert(data);
    ParsesAll(EntryParser(data), Print, data, at + 2, cs, 1, false);
  }

  /** As written the pool is parsed right if and only if it holds no long or double. */
  lemma WrittenPoolExact(data: seq<Byte>, at: nat, cs: seq<Constant>)
    requires WellFormedPool(cs) && Holds(data, at, PrintPool(cs))
    ensures ParsePool(data, at, false) == Ok([None] + Entries(cs, true), at + |PrintPool(cs)|) <==> !HasWide(cs)
  {
    HoldsParts(data, at, Digits(1 + Indices(cs, true), 2), PrintAll(Print, cs));
    HoldsValue(data, at, 1 + Indices(cs, true), 2);
    if HasWide(cs) {
      WrittenWide(data, at, cs);
    } else {
      WrittenNarrow(data, at, cs);
    }
  }

  /** A pool with a single long: as written a second entry is looked for behind its end. */
  lemma LoneLongFails(bytes: nat)
    requires bytes < Capacity(8)
    ensures ParsePool(PrintPool([Number(LONG, bytes)]), 0, false) == Failed
    ensures ParsePool(PrintPool([Number(LONG, bytes)]), 0, true).Ok?
  {
    var c := Number(LONG, bytes);
    var data := PrintPool([c]);
    assert PrintAll(Print, [c]) == Print(c);
    assert Indices([c], true) == 2;
    assert Capacity(2) == 0x1_0000 by { assert Capacity(1) == 0x100; }
    assert Holds(data, 0, PrintPool([c]));
    PoolRoundTrip(data, 0, [c]);
    HoldsParts(data, 0, Digits(3, 2), PrintAll(Print, [c]));
    HoldsValue(data, 0, 3, 2);
    ParsesPrinted(data, 2, c);
    assert |data| == 2 + |Print(c)|;
    assert EntryParser(data)(|data|) == Failed;
    assert ParseEntries(EntryParser(data), |data|, 2, 3, false) == Failed;
  }

  // ---------------------------------------------------------------- the loop

  lemma EntriesSnoc(parser: Parser, at: nat, i: nat, length: nat, wide: bool, done: Pool)
    requires i < length && parser(at).Ok?
    ensures var c, next := parser(at).value, parser(at).at;
      var skip := wide && IsWide(c);
      Continue(done, ParseEntries(parser, at, i, length, wide)) ==
        Continue(done + [Some(c)] + (if skip then [None] else []),
                 ParseEntries(parser, next, if skip then i + 2 else i + 1, length, wide))
  {
    var c, next := parser(at).value, parser(at).at;
    var skip := wide && IsWide(c);
    var r := ParseEntries(parser, next, if skip then i + 2 else i + 1, length, wide);
    if r.Ok? {
      var gap: Pool := if skip then [None] else [];
      assert done + ([Some(c)] + gap + r.value) == done + [Some(c)] + gap + r.value;
    }
  }

  /** What a loop that has parsed `done` ends with, when the rest of it ends with `r`. */
  function Continue(done: Pool, r: Parsed<Pool>): Parsed<Pool> { if r.Ok? then Ok(done + r.value, r.at) else Failed }

  /** `parseConstantPool`. */
  method ParseConstantPool(data: seq<Byte>, start: nat, wide: bool) returns (r: Parsed<Pool>)
    ensures r == ParsePool(data, start, wide)
  {
    if start + 2 > |data| { return Failed; }
    var length := Value(data, start, 2);
    ghost var parser := EntryParser(data);
    var pool: Pool, at: nat, i: nat := [None], start + 2, 1;
    while i < length
      invariant Continue([None], ParseEntries(parser, start + 2, 1, length, wide)) ==
        Continue(pool, ParseEntries(parser, at, i, length, wide))
      decreases length - i
    {
      match ParseConstant(data, at)
      case Failed => return Failed;
      case Ok(c, next) =>
        EntriesSnoc(parser, at, i, length, wide, pool);
        var skip := wide && IsWide(c);
        pool := pool + [Some(c)] + if skip then [None] else [];
        at, i := next, if skip then i + 2 else i + 1;
    }
    assert pool + [] == pool;
    return Ok(pool, at);
  }
}
