/**
  `tableswitch` and `lookupswitch` (bytecode_interpreter.c:1699-1749, JVMS section 6.5):
  the operands are decoded from the code bytes at an aligned position.

  A method's code occupies `code`, which was allocated at the address `base`; the
  instruction is at index `p`, so the pc register holds `base + p`.  `advance` is what the
  binary search adds to `mid` when it goes right: 0 as written at line 1726, 1 in the
  evident intent.  `wide` says whether line 1712 counts the table index in
  entries of four bytes: it does not as written, and does in the evident intent.
 */
module Switches {
  import opened Bytes
  import opened Wrappers

  // ---------------------------------------------------------------- padding

  /** Lines 1702 and 1734: the distance from the pc to the next multiple of four. */
  function OperandOffset(pc: nat): (d: nat)
    ensures 1 <= d <= 4 && (pc + d) % 4 == 0
  {
    pc / 4 * 4 + 4 - pc
  }

  /** Where the operands of the instruction at `p` start, as the code computes it. */
  function OperandsAt(base: nat, p: nat): nat { p + OperandOffset(base + p) }

  /** The opcode and the zero to three bytes that bring the operands to a multiple of four in the method. */
  function Padding(p: nat): nat { 4 - p % 4 }

  /** The code aligns the address, the specification the position in the method. */
  lemma AlignmentAgreesIff(base: nat, p: nat)
    ensures OperandOffset(base + p) == Padding(p) <==> base % 4 == 0
  {
    var q := (base + p) / 4;
    FromQuotients(base / 4, base % 4, p / 4, p % 4, q, base + p - 4 * q);
  }

  lemma FromQuotients(a: int, x: int, b: int, y: int, q: int, r: int)
    requires 0 <= x < 4 && 0 <= y < 4 && 0 <= r < 4 && (4 * a + x) + (4 * b + y) == 4 * q + r
    ensures r == y <==> x == 0
  {
    assert x + y - r == 4 * (q - a - b);
  }

  // ---------------------------------------------------------------- lookupswitch

  datatype SearchResult = At(index: int) | NotThere | OutOfFuel

  /** `lookupswitch_binary_search`, for at most `fuel` calls. */
  function Search(code: seq<Byte>, pairs: nat, start: int, end: int, key: int, advance: nat, fuel: nat): SearchResult
    requires 0 <= start && (start < end ==> pairs + 8 * end <= |code|)
    decreases fuel
  {
    if fuel == 0 then OutOfFuel
    else if start >= end then NotThere
    else
      var mid := start + (end - start) / 2;
      var testKey := ReadInt(code, pairs + 8 * mid);
      if testKey == key then At(mid)
      else if testKey < key then Search(code, pairs, mid + advance, end, key, advance, fuel - 1)
      else Search(code, pairs, start, mid, key, advance, fuel - 1)
  }

  /** The match-offset pairs of the table, flattened. */
  function Flatten(pairs: seq<(int, int)>): (xs: seq<int>)
    ensures |xs| == 2 * |pairs|
    ensures forall i :: 0 <= i < |pairs| ==> xs[2 * i] == pairs[i].0 && xs[2 * i + 1] == pairs[i].1
  {
    if pairs == [] then [] else [pairs[0].0, pairs[0].1] + Flatten(pairs[1..])
  }

  predicate WellFormedPairs(pairs: seq<(int, int)>) {
    && |pairs| < 0x8000_0000
    && (forall i :: 0 <= i < |pairs| ==> IsInt32(pairs[i].0) && IsInt32(pairs[i].1))
    && (forall i, j :: 0 <= i < j < |pairs| ==> pairs[i].0 < pairs[j].0)
  }

  /** Pair `i` reads back from the table. */
  predicate PairAt(code: seq<Byte>, table: nat, pairs: seq<(int, int)>, i: nat)
    requires i < |pairs|
  {
    && table + 8 * i + 8 <= |code|
    && ReadInt(code, table + 8 * i) == pairs[i].0 && ReadInt(code, table + 8 * i + 4) == pairs[i].1
  }

  /** The code bytes at `table` are the encoded pairs. */
  ghost predicate HoldsPairs(code: seq<Byte>, table: nat, pairs: seq<(int, int)>) {
    && table + 8 * |pairs| <= |code|
    && (forall i: nat :: i < |pairs| ==> PairAt(code, table, pairs, i))
  }

  predicate HasKey(pairs: seq<(int, int)>, key: int) { exists i :: 0 <= i < |pairs| && pairs[i].0 == key }

  /** What a search over all pairs should answer. */
  ghost predicate IsAnswer(pairs: seq<(int, int)>, key: int, r: SearchResult) {
    match r
    case At(i) => 0 <= i < |pairs| && pairs[i].0 == key
    case NotThere => !HasKey(pairs, key)
    case OutOfFuel => false
  }

  /** The intended search: the answer lies between the bounds, which shrink at every call. */
  lemma {:induction false} AdvancingSearch(code: seq<Byte>, table: nat, pairs: seq<(int, int)>,
                                           start: int, end: int, key: int, fuel: nat)
    requires WellFormedPairs(pairs) && HoldsPairs(code, table, pairs)
    requires 0 <= start <= end <= |pairs| && end - start < fuel
    requires forall i :: 0 <= i < |pairs| && pairs[i].0 == key ==> start <= i < end
    ensures IsAnswer(pairs, key, Search(code, table, start, end, key, 1, fuel))
    decreases fuel
  {
    if start < end {
      var mid := start + (end - start) / 2;
      assert PairAt(code, table, pairs, mid);
      if pairs[mid].0 < key {
        AdvancingSearch(code, table, pairs, mid + 1, end, key, fuel - 1);
      } else if pairs[mid].0 > key {
        AdvancingSearch(code, table, pairs, start, mid, key, fuel - 1);
      }
    }
  }

  /** When the search as written comes back. */
  predicate Returns(pairs: seq<(int, int)>, key: int) {
    pairs == [] || key < pairs[0].0 || HasKey(pairs, key)
  }

  /** As written, a key in the table keeps the bounds around it, so it is found. */
  lemma {:induction false} WrittenSearchFinds(code: seq<Byte>, table: nat, pairs: seq<(int, int)>,
                                              start: int, end: int, key: int, k: int, fuel: nat)
    requires WellFormedPairs(pairs) && HoldsPairs(code, table, pairs)
    requires 0 <= start <= k < end <= |pairs| && pairs[k].0 == key && end - start < fuel
    ensures Search(code, table, start, end, key, 0, fuel) == At(k)
    decreases fuel
  {
    var mid := start + (end - start) / 2;
    assert PairAt(code, table, pairs, mid);
    if pairs[mid].0 < key {
      WrittenSearchFinds(code, table, pairs, mid, end, key, k, fuel - 1);
    } else if pairs[mid].0 > key {
      WrittenSearchFinds(code, table, pairs, start, mid, key, k, fuel - 1);
    }
  }

  /** As written, a key below the table is driven left until the bounds meet. */
  lemma {:induction false} WrittenSearchBelow(code: seq<Byte>, table: nat, pairs: seq<(int, int)>, end: int, key: int,
                                              fuel: nat)
    requires WellFormedPairs(pairs) && HoldsPairs(code, table, pairs)
    requires 0 <= end <= |pairs| && (pairs != [] ==> key < pairs[0].0) && end < fuel
    ensures Search(code, table, 0, end, key, 0, fuel) == NotThere
    decreases fuel
  {
    if 0 < end {
      var mid := 0 + (end - 0) / 2;
      assert mid == end / 2 && key < pairs[mid].0 by { assert pairs[0].0 <= pairs[mid].0; }
      assert PairAt(code, table, pairs, mid);
      WrittenSearchBelow(code, table, pairs, end / 2, key, fuel - 1);
    }
  }

  /** As written, an absent key above some entry keeps the bounds apart for ever. */
  lemma {:induction false} WrittenSearchLoops(code: seq<Byte>, table: nat, pairs: seq<(int, int)>,
                                              start: int, end: int, key: int, below: int, fuel: nat)
    requires WellFormedPairs(pairs) && HoldsPairs(code, table, pairs) && !HasKey(pairs, key)
    requires 0 <= start <= below < end <= |pairs|
    requires forall i :: 0 <= i < |pairs| ==> (pairs[i].0 < key <==> i <= below)
    ensures Search(code, table, start, end, key, 0, fuel) == OutOfFuel
    decreases fuel
  {
    if fuel > 0 {
      var mid := start + (end - start) / 2;
      assert PairAt(code, table, pairs, mid);
      if pairs[mid].0 < key {
        WrittenSearchLoops(code, table, pairs, mid, end, key, below, fuel - 1);
      } else {
        WrittenSearchLoops(code, table, pairs, start, mid, key, below, fuel - 1);
      }
    }
  }

  lemma {:induction false} LastBelow(pairs: seq<(int, int)>, key: int, n: nat) returns (below: int)
    requires WellFormedPairs(pairs) && n <= |pairs| && !HasKey(pairs, key)
    requires 0 < n && pairs[0].0 < key
    requires forall i :: n <= i < |pairs| ==> key < pairs[i].0
    ensures 0 <= below < n && forall i :: 0 <= i < |pairs| ==> (pairs[i].0 < key <==> i <= below)
  {
    if pairs[n - 1].0 < key {
      below := n - 1;
    } else {
      below := LastBelow(pairs, key, n - 1);
    }
  }

  /**
    The search as written terminates if and only if the table is empty, the key is in it, or
    the key is below its first entry; and when it does, it is right.
   */
  lemma WrittenSearchExact(code: seq<Byte>, table: nat, pairs: seq<(int, int)>, key: int)
    requires WellFormedPairs(pairs) && HoldsPairs(code, table, pairs)
    ensures (exists fuel: nat :: Search(code, table, 0, |pairs|, key, 0, fuel) != OutOfFuel) <==> Returns(pairs, key)
    ensures Returns(pairs, key) ==>
      forall fuel: nat :: |pairs| < fuel ==> IsAnswer(pairs, key, Search(code, table, 0, |pairs|, key, 0, fuel))
  {
    if Returns(pairs, key) {
      forall fuel: nat | |pairs| < fuel ensures IsAnswer(pairs, key, Search(code, table, 0, |pairs|, key, 0, fuel)) {
        if HasKey(pairs, key) {
          var k :| 0 <= k < |pairs| && pairs[k].0 == key;
          WrittenSearchFinds(code, table, pairs, 0, |pairs|, key, k, fuel);
        } else {
          WrittenSearchBelow(code, table, pairs, |pairs|, key, fuel);
        }
      }
      assert Search(code, table, 0, |pairs|, key, 0, |pairs| + 1) != OutOfFuel;
    } else {
      assert pairs[0].0 != key;
      var below := LastBelow(pairs, key, |pairs|);
      forall fuel: nat ensures Search(code, table, 0, |pairs|, key, 0, fuel) == OutOfFuel {
        WrittenSearchLoops(code, table, pairs, 0, |pairs|, key, below, fuel);
      }
    }
  }

  // ---------------------------------------------------------------- the instructions in the code

  const LOOKUPSWITCH: Byte := 0xab
  const TABLESWITCH: Byte := 0xaa

  /** The bytes from the opcode up to the operands. */
  function Lead(opcode: Byte, p: nat): (b: seq<Byte>)
    ensures |b| == Padding(p)
  {
    [opcode] + seq(Padding(p) - 1, _ => 0)
  }

  /** An instruction at position `p`: opcode, padding, 32-bit operands. */
  ghost predicate HoldsInstruction(code: seq<Byte>, p: nat, opcode: Byte, operands: seq<int>) {
    AllInt32(operands) &&
    exists before: seq<Byte>, after: seq<Byte> ::
      |before| == p && code == before + Lead(opcode, p) + EncodeInts(operands) + after
  }

  /** 32-bit operands whose first byte is at `at`. */
  ghost predicate HoldsOperands(code: seq<Byte>, at: nat, operands: seq<int>) {
    AllInt32(operands) &&
    exists lead: seq<Byte>, after: seq<Byte> ::
      |lead| == at && code == lead + EncodeInts(operands) + after
  }

  /** In code allocated at a multiple of four, the handlers look where the operands are. */
  lemma FindsOperands(code: seq<Byte>, base: nat, p: nat, opcode: Byte, operands: seq<int>)
    requires HoldsInstruction(code, p, opcode, operands) && base % 4 == 0
    ensures HoldsOperands(code, OperandsAt(base, p), operands)
  {
    AlignmentAgreesIff(base, p);
    var before, after :| |before| == p && code == before + Lead(opcode, p) + EncodeInts(operands) + after;
    assert |before + Lead(opcode, p)| == OperandsAt(base, p);
  }

  /** Each operand reads back at its place. */
  lemma OperandReads(code: seq<Byte>, at: nat, operands: seq<int>, i: nat)
    requires HoldsOperands(code, at, operands) && i < |operands|
    ensures at + 4 * |operands| <= |code| && ReadInt(code, at + 4 * i) == operands[i]
  {
    var lead, after :| |lead| == at && code == lead + EncodeInts(operands) + after;
    ReadsEntry(code, lead, operands, after, i);
  }

  function LookupOperands(dflt: int, pairs: seq<(int, int)>): seq<int> { [dflt, |pairs|] + Flatten(pairs) }

  function TableOperands(dflt: int, low: int, entries: seq<int>): seq<int> {
    [dflt, low, low + |entries| - 1] + entries
  }

  // ---------------------------------------------------------------- handle_instr_lookupswitch

  /** The counts the operands at `at` announce stay inside the code. */
  predicate LookupReadable(code: seq<Byte>, at: nat) {
    at + 8 <= |code| && at + 8 + 8 * ReadInt(code, at + 4) <= |code|
  }

  /**
    `handle_instr_lookupswitch`, with its operands at `at`: the position the pc moves to;
    None when the search does not come back.
   */
  function LookupSwitch(code: seq<Byte>, p: nat, at: nat, key: int, advance: nat, fuel: nat): Option<int>
    requires LookupReadable(code, at)
  {
    var defaultOffset := ReadInt(code, at);
    var npairs := ReadInt(code, at + 4);
    match Search(code, at + 8, 0, npairs, key, advance, fuel)
    case OutOfFuel => None
    case NotThere => Some(p + defaultOffset)
    case At(i) => if 0 <= i < npairs then Some(p + ReadInt(code, at + 8 + 8 * i + 4)) else None
  }

  /** What section 6.5 of the JVMS asks for: the offset paired with the key, or the default. */
  ghost predicate IsLookupTarget(target: int, p: nat, dflt: int, pairs: seq<(int, int)>, key: int) {
    && (forall i :: 0 <= i < |pairs| && pairs[i].0 == key ==> target == p + pairs[i].1)
    && (!HasKey(pairs, key) ==> target == p + dflt)
  }

  /** The operands of a `lookupswitch` read back at `at`. */
  ghost predicate HoldsLookup(code: seq<Byte>, at: nat, dflt: int, pairs: seq<(int, int)>) {
    && LookupReadable(code, at)
    && ReadInt(code, at) == dflt && ReadInt(code, at + 4) == |pairs|
    && HoldsPairs(code, at + 8, pairs)
  }

  lemma LookupTableReads(code: seq<Byte>, at: nat, dflt: int, pairs: seq<(int, int)>)
    requires WellFormedPairs(pairs) && HoldsOperands(code, at, LookupOperands(dflt, pairs))
    ensures HoldsLookup(code, at, dflt, pairs)
  {
    var ops, table := LookupOperands(dflt, pairs), at + 8;
    OperandReads(code, at, ops, 0);
    OperandReads(code, at, ops, 1);
    forall i: nat | i < |pairs| ensures PairAt(code, table, pairs, i) {
      PairReads(code, at, dflt, pairs, i);
    }
  }

  lemma PairReads(code: seq<Byte>, at: nat, dflt: int, pairs: seq<(int, int)>, i: nat)
    requires WellFormedPairs(pairs) && i < |pairs| && HoldsOperands(code, at, LookupOperands(dflt, pairs))
    ensures PairAt(code, at + 8, pairs, i)
  {
    var ops := LookupOperands(dflt, pairs);
    assert ops[2 + 2 * i] == pairs[i].0 && ops[3 + 2 * i] == pairs[i].1;
    OperandReads(code, at, ops, 2 + 2 * i);
    OperandReads(code, at, ops, 3 + 2 * i);
  }

  /** A right answer of the search becomes the right target. */
  lemma AnswerGivesTarget(code: seq<Byte>, p: nat, at: nat, dflt: int, pairs: seq<(int, int)>, key: int, advance: nat,
                          fuel: nat)
    requires WellFormedPairs(pairs) && HoldsLookup(code, at, dflt, pairs)
    requires IsAnswer(pairs, key, Search(code, at + 8, 0, |pairs|, key, advance, fuel))
    ensures var r := LookupSwitch(code, p, at, key, advance, fuel);
      r.Some? && IsLookupTarget(r.value, p, dflt, pairs, key)
  {
    var r := Search(code, at + 8, 0, |pairs|, key, advance, fuel);
    if r.At? {
      assert PairAt(code, at + 8, pairs, r.index);
    }
  }

  /**
    The intended instruction terminates and branches where the specification says, for every
    position, every sorted table and every key, in code allocated at a multiple of four.
   */
  lemma LookupSwitchBranches(code: seq<Byte>, base: nat, p: nat, dflt: int, pairs: seq<(int, int)>, key: int, fuel: nat)
    requires base % 4 == 0 && WellFormedPairs(pairs) && |pairs| < fuel
    requires HoldsInstruction(code, p, LOOKUPSWITCH, LookupOperands(dflt, pairs))
    ensures LookupReadable(code, OperandsAt(base, p))
    ensures var r := LookupSwitch(code, p, OperandsAt(base, p), key, 1, fuel);
      r.Some? && IsLookupTarget(r.value, p, dflt, pairs, key)
  {
    FindsOperands(code, base, p, LOOKUPSWITCH, LookupOperands(dflt, pairs));
    LookupTableReads(code, OperandsAt(base, p), dflt, pairs);
    LookupBranchesAt(code, p, OperandsAt(base, p), dflt, pairs, key, fuel);
  }

  lemma LookupBranchesAt(code: seq<Byte>, p: nat, at: nat, dflt: int, pairs: seq<(int, int)>, key: int, fuel: nat)
    requires WellFormedPairs(pairs) && |pairs| < fuel && HoldsLookup(code, at, dflt, pairs)
    ensures var r := LookupSwitch(code, p, at, key, 1, fuel);
      r.Some? && IsLookupTarget(r.value, p, dflt, pairs, key)
  {
    AdvancingSearch(code, at + 8, pairs, 0, |pairs|, key, fuel);
    AnswerGivesTarget(code, p, at, dflt, pairs, key, 1, fuel);
  }

  /**
    The instruction as written comes back if and only if the table is empty, holds the key,
    or starts above it; and then it branches where the specification says.
   */
  lemma WrittenLookupSwitchExact(code: seq<Byte>, base: nat, p: nat, dflt: int, pairs: seq<(int, int)>, key: int)
    requires base % 4 == 0 && WellFormedPairs(pairs)
    requires HoldsInstruction(code, p, LOOKUPSWITCH, LookupOperands(dflt, pairs))
    ensures LookupReadable(code, OperandsAt(base, p))
    ensures (exists fuel: nat :: LookupSwitch(code, p, OperandsAt(base, p), key, 0, fuel).Some?) <==>
      Returns(pairs, key)
    ensures Returns(pairs, key) ==>
      var r := LookupSwitch(code, p, OperandsAt(base, p), key, 0, |pairs| + 1);
      r.Some? && IsLookupTarget(r.value, p, dflt, pairs, key)
  {
    FindsOperands(code, base, p, LOOKUPSWITCH, LookupOperands(dflt, pairs));
    LookupTableReads(code, OperandsAt(base, p), dflt, pairs);
    WrittenLookupAt(code, p, OperandsAt(base, p), dflt, pairs, key);
  }

  lemma WrittenLookupAt(code: seq<Byte>, p: nat, at: nat, dflt: int, pairs: seq<(int, int)>, key: int)
    requires WellFormedPairs(pairs) && HoldsLookup(code, at, dflt, pairs)
    ensures (exists fuel: nat :: LookupSwitch(code, p, at, key, 0, fuel).Some?) <==> Returns(pairs, key)
    ensures Returns(pairs, key) ==>
      var r := LookupSwitch(code, p, at, key, 0, |pairs| + 1);
      r.Some? && IsLookupTarget(r.value, p, dflt, pairs, key)
  {
    WrittenSearchExact(code, at + 8, pairs, key);
    if Returns(pairs, key) {
      AnswerGivesTarget(code, p, at, dflt, pairs, key, 0, |pairs| + 1);
    } else {
      forall fuel: nat ensures LookupSwitch(code, p, at, key, 0, fuel) == None {
        assert Search(code, at + 8, 0, |pairs|, key, 0, fuel) == OutOfFuel;
      }
    }
  }

  /** The smallest failure: one pair, and a key above it. */
  lemma WrittenLookupSwitchHangs(code: seq<Byte>, base: nat, p: nat)
    requires base % 4 == 0 && HoldsInstruction(code, p, LOOKUPSWITCH, LookupOperands(20, [(1, 10)]))
    ensures LookupReadable(code, OperandsAt(base, p))
    ensures forall fuel: nat :: LookupSwitch(code, p, OperandsAt(base, p), 2, 0, fuel) == None
  {
    WrittenLookupSwitchExact(code, base, p, 20, [(1, 10)], 2);
    assert !Returns([(1, 10)], 2);
    forall fuel: nat ensures LookupSwitch(code, p, OperandsAt(base, p), 2, 0, fuel) == None {
      assert !LookupSwitch(code, p, OperandsAt(base, p), 2, 0, fuel).Some?;
    }
  }

  // ---------------------------------------------------------------- handle_instr_tableswitch

  function Scaled(k: int, wide: bool): int { if wide then 4 * k else k }

  predicate TableReadable(code: seq<Byte>, at: nat, index: int, wide: bool) {
    at + 12 <= |code| &&
    var low, high := ReadInt(code, at + 4), ReadInt(code, at + 8);
    low <= index <= high ==> at + 12 + Scaled(index - low, wide) + 4 <= |code|
  }

  /** `handle_instr_tableswitch`, with its operands at `at`: the position the pc moves to. */
  function TableSwitch(code: seq<Byte>, p: nat, at: nat, index: int, wide: bool): int
    requires TableReadable(code, at, index, wide)
  {
    var defaultOffset := ReadInt(code, at);
    var low, high := ReadInt(code, at + 4), ReadInt(code, at + 8);
    if index < low || index > high then p + defaultOffset
    else p + ReadInt(code, at + 12 + Scaled(index - low, wide))
  }

  /** The fixed operands of a `tableswitch` with `n` entries read back at `at`. */
  predicate HoldsHeader(code: seq<Byte>, at: nat, dflt: int, low: int, n: nat) {
    && at + 12 + 4 * n <= |code|
    && ReadInt(code, at) == dflt && ReadInt(code, at + 4) == low && ReadInt(code, at + 8) == low + n - 1
  }

  lemma TableHeaderReads(code: seq<Byte>, at: nat, dflt: int, low: int, entries: seq<int>)
    requires HoldsOperands(code, at, TableOperands(dflt, low, entries))
    ensures HoldsHeader(code, at, dflt, low, |entries|) && HoldsOperands(code, at + 12, entries)
  {
    var ops := TableOperands(dflt, low, entries);
    OperandReads(code, at, ops, 0);
    OperandReads(code, at, ops, 1);
    OperandReads(code, at, ops, 2);
    DropOperands(code, at, [dflt, low, low + |entries| - 1], entries);
  }

  lemma DropOperands(code: seq<Byte>, at: nat, xs: seq<int>, ys: seq<int>)
    requires HoldsOperands(code, at, xs + ys)
    ensures HoldsOperands(code, at + 4 * |xs|, ys)
  {
    var lead, after :| |lead| == at && code == lead + EncodeInts(xs + ys) + after;
    Int32Parts(xs, ys);
    EncodeIntsSplit(xs, ys);
    Regroup(lead, EncodeInts(xs), EncodeInts(ys), after);
    assert |lead + EncodeInts(xs)| == at + 4 * |xs|;
  }

  lemma Int32Parts(xs: seq<int>, ys: seq<int>)
    requires AllInt32(xs + ys)
    ensures AllInt32(xs) && AllInt32(ys)
  {
    forall i | 0 <= i < |xs| ensures IsInt32(xs[i]) {
      assert xs[i] == (xs + ys)[i];
    }
    forall i | 0 <= i < |ys| ensures IsInt32(ys[i]) {
      assert ys[i] == (xs + ys)[|xs| + i];
    }
  }

  /** Four bytes anywhere in the encoding read as they do in the code. */
  lemma BytesRead(code: seq<Byte>, at: nat, xs: seq<int>, k: nat)
    requires HoldsOperands(code, at, xs) && k + 4 <= 4 * |xs|
    ensures at + k + 4 <= |code| && ReadInt(code, at + k) == ReadInt(EncodeInts(xs), k)
  {
    var lead, after :| |lead| == at && code == lead + EncodeInts(xs) + after;
    BlockReads(code, lead, EncodeInts(xs), after, at, k);
  }

  lemma BlockReads(code: seq<Byte>, lead: seq<Byte>, block: seq<Byte>, after: seq<Byte>, at: nat, k: nat)
    requires code == lead + block + after && k + 4 <= |block| && at == |lead|
    ensures at + k + 4 <= |code| && ReadInt(code, at + k) == ReadInt(block, k)
  {
    BlockAt(code, lead, block, after, k, k + 4);
    ShiftSame(code, at + k, block, k, 4);
  }

  /** Which of the two reads decides the branch. */
  lemma HeaderDecides(code: seq<Byte>, p: nat, at: nat, dflt: int, low: int, n: nat, index: int, wide: bool)
    requires HoldsHeader(code, at, dflt, low, n)
    ensures TableReadable(code, at, index, wide)
    ensures TableSwitch(code, p, at, index, wide) ==
      p + if low <= index < low + n then ReadInt(code, at + 12 + Scaled(index - low, wide)) else dflt
  {
  }

  /** The intended instruction picks entry `index - low`, or the default outside the range. */
  lemma TableSwitchBranches(code: seq<Byte>, base: nat, p: nat, dflt: int, low: int, entries: seq<int>, index: int)
    requires base % 4 == 0
    requires HoldsInstruction(code, p, TABLESWITCH, TableOperands(dflt, low, entries))
    ensures TableReadable(code, OperandsAt(base, p), index, true)
    ensures TableSwitch(code, p, OperandsAt(base, p), index, true) ==
      p + if low <= index < low + |entries| then entries[index - low] else dflt
  {
    FindsOperands(code, base, p, TABLESWITCH, TableOperands(dflt, low, entries));
    TableHeaderReads(code, OperandsAt(base, p), dflt, low, entries);
    TableBranchesAt(code, p, OperandsAt(base, p), dflt, low, entries, index);
  }

  lemma TableBranchesAt(code: seq<Byte>, p: nat, at: nat, dflt: int, low: int, entries: seq<int>, index: int)
    requires HoldsHeader(code, at, dflt, low, |entries|) && HoldsOperands(code, at + 12, entries)
    ensures TableReadable(code, at, index, true)
    ensures TableSwitch(code, p, at, index, true) ==
      p + if low <= index < low + |entries| then entries[index - low] else dflt
  {
    HeaderDecides(code, p, at, dflt, low, |entries|, index, true);
    if low <= index < low + |entries| {
      OperandReads(code, at + 12, entries, index - low);
    }
  }

  /** As written the four bytes are taken at byte `index - low` of the table, not at that entry. */
  lemma WrittenTableSwitchReads(code: seq<Byte>, base: nat, p: nat, dflt: int, low: int, entries: seq<int>, index: int)
    requires base % 4 == 0
    requires HoldsInstruction(code, p, TABLESWITCH, TableOperands(dflt, low, entries))
    ensures TableReadable(code, OperandsAt(base, p), index, false) && AllInt32(entries)
    ensures TableSwitch(code, p, OperandsAt(base, p), index, false) ==
      p + if low <= index < low + |entries| then ReadInt(EncodeInts(entries), index - low) else dflt
  {
    FindsOperands(code, base, p, TABLESWITCH, TableOperands(dflt, low, entries));
    TableHeaderReads(code, OperandsAt(base, p), dflt, low, entries);
    WrittenTableAt(code, p, OperandsAt(base, p), dflt, low, entries, index);
  }

  lemma WrittenTableAt(code: seq<Byte>, p: nat, at: nat, dflt: int, low: int, entries: seq<int>, index: int)
    requires HoldsHeader(code, at, dflt, low, |entries|) && HoldsOperands(code, at + 12, entries)
    ensures TableReadable(code, at, index, false)
    ensures TableSwitch(code, p, at, index, false) ==
      p + if low <= index < low + |entries| then ReadInt(EncodeInts(entries), index - low) else dflt
  {
    HeaderDecides(code, p, at, dflt, low, |entries|, index, false);
    if low <= index < low + |entries| {
      BytesRead(code, at + 12, entries, index - low);
    }
  }

  lemma Regroup(a: seq<Byte>, b: seq<Byte>, c: seq<Byte>, d: seq<Byte>)
    ensures a + (b + c) + d == (a + b) + c + d
  {
  }

  lemma {:induction false} EncodeIntsSplit(xs: seq<int>, ys: seq<int>)
    requires AllInt32(xs) && AllInt32(ys)
    ensures EncodeInts(xs + ys) == EncodeInts(xs) + EncodeInts(ys)
  {
    if xs == [] {
      assert xs + ys == ys;
    } else {
      assert (xs + ys)[1..] == xs[1..] + ys;
      EncodeIntsSplit(xs[1..], ys);
    }
  }

  /** A table that is zero everywhere but at entry `k`. */
  function Spike(n: nat, k: nat): (entries: seq<int>)
    ensures |entries| == n && AllInt32(entries)
    ensures forall i :: 0 <= i < n ==> entries[i] == if i == k then 1 else 0
  {
    seq(n, i => if i == k then 1 else 0)
  }

  lemma SmallDigits(u: nat)
    requires u < 2
    ensures Digits(u, 4) == [0, 0, 0, u]
  {
    assert Digits(0, 1) == [0] && Digits(0, 2) == [0, 0] && Digits(0, 3) == [0, 0, 0];
  }

  lemma SpikeBytes(n: nat, k: nat, b: nat)
    requires b < 4 * n && b != 4 * k + 3
    ensures EncodeInts(Spike(n, k))[b] == 0
  {
    var entries, i := Spike(n, k), b / 4;
    EncodedEntry(entries, i);
    SmallDigits(entries[i]);
    assert EncodeInts(entries)[4 * i..4 * i + 4][b - 4 * i] == EncodeInts(entries)[b];
  }

  lemma {:induction false} ShiftZeros(code: seq<Byte>, at: nat, n: nat)
    requires n <= 4 && at + n <= |code| && forall i :: at <= i < at + n ==> code[i] == 0
    ensures Shift(code, at, n) == 0
  {
    if n > 0 {
      ShiftZeros(code, at, n - 1);
    }
  }

  /** A table with a one at entry `k` and zeros elsewhere: as written zero is read there. */
  lemma SpikeIsMissed(n: nat, k: nat)
    requires 0 < k < n
    ensures var entries := Spike(n, k);
      && |entries| == n && AllInt32(entries)
      && ReadInt(EncodeInts(entries), k) == 0 && entries[k] == 1
  {
    var entries := Spike(n, k);
    forall i: nat | k <= i < k + 4 ensures EncodeInts(entries)[i] == 0 {
      SpikeBytes(n, k, i);
    }
    ShiftZeros(EncodeInts(entries), k, 4);
  }

  /**
    For a table of `n` entries, the instruction as written takes the right branch for index
    `low + k` whatever the entries are if and only if `k` is 0.
   */
  lemma WrittenTableSwitchExact(n: nat, k: nat)
    requires k < n
    ensures k == 0 <==>
      (forall entries: seq<int> :: |entries| == n && AllInt32(entries) ==>
        ReadInt(EncodeInts(entries), k) == entries[k])
  {
    if k == 0 {
      forall entries: seq<int> | |entries| == n && AllInt32(entries)
        ensures ReadInt(EncodeInts(entries), k) == entries[k]
      {
        EncodedEntry(entries, 0);
        ReadsEncoded(EncodeInts(entries), 0, entries[0]);
      }
    } else {
      SpikeIsMissed(n, k);
    }
  }
}
