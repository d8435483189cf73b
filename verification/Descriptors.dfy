/**
  Scanning method descriptors (dataTypes.c:8-70, JVMS section 4.3.3).

  A descriptor that ends too early, where the code would read on behind it, gives no answer.
  `repaired` selects how an array of long or double is counted: as written (line 64) twice,
  in the evident intent once, like every other array.
 */
module Descriptors {
  import opened Collections
  import opened Wrappers

  /** A field type of section 4.3.2. */
  datatype Type = Base(letter: char) | Class(name: string) | Array(element: Type)

  const LETTERS := "BCDFIJSZ"

  predicate WellFormed(t: Type) {
    match t
    case Base(letter) => letter in LETTERS
    case Class(name) => ';' !in name
    case Array(element) => WellFormed(element)
  }

  function Print(t: Type): (s: string)
    ensures |s| > 0
  {
    match t
    case Base(letter) => [letter]
    case Class(name) => "L" + name + ";"
    case Array(element) => "[" + Print(element)
  }

  function PrintAll(ts: seq<Type>): string { if ts == [] then "" else Print(ts[0]) + PrintAll(ts[1..]) }

  function PrintMethod(parameters: seq<Type>, result: string): string { "(" + PrintAll(parameters) + ")" + result }

  predicate IsWide(letter: char) { letter == 'J' || letter == 'D' }

  /** The local variables a parameter takes (section 4.3.3). */
  function Width(t: Type): nat { if t.Base? && IsWide(t.letter) then 2 else 1 }

  function Innermost(t: Type): Type { if t.Array? then Innermost(t.element) else t }

  /** What the code counts for a parameter. */
  function Counted(t: Type, repaired: bool): nat { if repaired then Width(t) else Width(Innermost(t)) }

  function Sum(ts: seq<Type>, repaired: bool): nat {
    if ts == [] then 0 else Counted(ts[0], repaired) + Sum(ts[1..], repaired)
  }

  function Widths(ts: seq<Type>): nat { if ts == [] then 0 else Width(ts[0]) + Widths(ts[1..]) }

  // ---------------------------------------------------------------- scanning

  /** `while(*++descriptor == '[')` from the bracket at `p`: the first position that holds none. */
  function SkipBrackets(d: string, p: nat): (q: nat)
    requires p <= |d|
    ensures p <= q <= |d|
    decreases |d| - p
  {
    if p < |d| && d[p] == '[' then SkipBrackets(d, p + 1) else p
  }

  /** `while(*++descriptor != ';')`: the position of the semicolon. */
  function SkipName(d: string, p: nat): (q: Option<nat>)
    requires p <= |d|
    ensures q.Some? ==> p <= q.value < |d|
    decreases |d| - p
  {
    if p == |d| then None else if d[p] == ';' then Some(p) else SkipName(d, p + 1)
  }

  /** The last character of the type at `p`. */
  function LastOf(d: string, p: nat): (q: Option<nat>)
    requires p <= |d|
    ensures q.Some? ==> p <= q.value < |d|
  {
    var b := SkipBrackets(d, p);
    if b == |d| then None else if d[b] == 'L' then SkipName(d, b + 1) else Some(b)
  }

  /** `countNumParametersFromMethodDescriptor`, from position `p` with `n` counted so far. */
  function CountFrom(d: string, p: nat, n: nat, repaired: bool): Option<nat>
    requires p <= |d|
    decreases |d| - p
  {
    if p == |d| then None
    else if d[p] == ')' then Some(n)
    else
      match LastOf(d, p)
      case None => None
      case Some(last) =>
        var extra := if IsWide(d[last]) && !(repaired && d[p] == '[') then 1 else 0;
        CountFrom(d, last + 1, n + 1 + extra, repaired)
  }

  /** The counter has sixteen bits. */
  function Count(d: string, isStatic: bool, repaired: bool): Option<nat> {
    if d == "" then None
    else
      match CountFrom(d, 1, if isStatic then 0 else 1, repaired)
      case None => None
      case Some(n) => Some(n % 0x1_0000)
  }

  // ---------------------------------------------------------------- scanning inverts printing

  lemma HoldsAt(d: string, p: nat, s: string, i: nat)
    requires Holds(d, p, s) && i < |s|
    ensures d[p + i] == s[i]
  {
    assert d[p..p + |s|][i] == s[i];
  }

  lemma {:induction false} NameSkipped(d: string, p: nat, name: string)
    requires ';' !in name && Holds(d, p, name + ";")
    ensures SkipName(d, p) == Some(p + |name|)
    decreases |name|
  {
    HoldsAt(d, p, name + ";", 0);
    if name != "" {
      assert name + ";" == [name[0]] + (name[1..] + ";");
      HoldsParts(d, p, [name[0]], name[1..] + ";");
      NameSkipped(d, p + 1, name[1..]);
    }
  }

  /** The scanner finds the last character of every printed type, whatever follows it. */
  lemma {:induction false} LastFound(d: string, p: nat, t: Type)
    requires WellFormed(t) && Holds(d, p, Print(t))
    ensures LastOf(d, p) == Some(p + |Print(t)| - 1)
    ensures d[p] == '[' <==> t.Array?
    ensures IsWide(d[p + |Print(t)| - 1]) <==> Width(Innermost(t)) == 2
    decreases t
  {
    HoldsAt(d, p, Print(t), 0);
    match t
    case Base(_) =>
    case Class(name) => ClassFound(d, p, name);
    case Array(element) =>
      HoldsParts(d, p, "[", Print(element));
      LastFound(d, p + 1, element);
  }

  lemma ClassFound(d: string, p: nat, name: string)
    requires ';' !in name && Holds(d, p, "L" + name + ";")
    ensures LastOf(d, p) == Some(p + 1 + |name|) && d[p + 1 + |name|] == ';'
  {
    assert "L" + name + ";" == "L" + (name + ";");
    HoldsParts(d, p, "L", name + ";");
    HoldsAt(d, p, "L", 0);
    NameSkipped(d, p + 1, name);
    HoldsAt(d, p + 1, name + ";", |name|);
  }

  lemma FirstIsNotClose(t: Type)
    requires WellFormed(t)
    ensures Print(t)[0] != ')'
  {
  }

  /** One turn of the loop, over a type that ends before `next`. */
  lemma CountTurn(d: string, p: nat, t: Type, n: nat, repaired: bool, next: nat)
    requires WellFormed(t) && Holds(d, p, Print(t)) && next == p + |Print(t)|
    ensures next <= |d| && CountFrom(d, p, n, repaired) == CountFrom(d, next, n + Counted(t, repaired), repaired)
  {
    LastFound(d, p, t);
    HoldsAt(d, p, Print(t), 0);
    FirstIsNotClose(t);
    CountStep(d, p, n, repaired, next);
  }

  lemma CountStep(d: string, p: nat, n: nat, repaired: bool, next: nat)
    requires p < next <= |d| && d[p] != ')' && LastOf(d, p) == Some(next - 1)
    ensures CountFrom(d, p, n, repaired) ==
      CountFrom(d, next, n + 1 + (if IsWide(d[next - 1]) && !(repaired && d[p] == '[') then 1 else 0), repaired)
  {
  }

  /** The loop counts the printed parameters one after the other. */
  lemma {:induction false} CountsAll(d: string, p: nat, ts: seq<Type>, n: nat, repaired: bool)
    requires (forall t :: t in ts ==> WellFormed(t)) && Holds(d, p, PrintAll(ts) + ")")
    ensures CountFrom(d, p, n, repaired) == Some(n + Sum(ts, repaired))
    decreases |ts|
  {
    if ts == [] {
      HoldsAt(d, p, PrintAll(ts) + ")", 0);
    } else {
      var next := p + |Print(ts[0])|;
      FirstPrinted(d, p, ts, next);
      CountTurn(d, p, ts[0], n, repaired, next);
      CountsAll(d, next, ts[1..], n + Counted(ts[0], repaired), repaired);
    }
  }

  lemma FirstPrinted(d: string, p: nat, ts: seq<Type>, next: nat)
    requires ts != [] && Holds(d, p, PrintAll(ts) + ")") && next == p + |Print(ts[0])|
    ensures Holds(d, p, Print(ts[0])) && Holds(d, next, PrintAll(ts[1..]) + ")")
  {
    ThreeParts(d, p, Print(ts[0]), PrintAll(ts[1..]), ")");
  }

  lemma ThreeParts(d: string, p: nat, a: string, b: string, c: string)
    requires Holds(d, p, (a + b) + c)
    ensures Holds(d, p, a) && Holds(d, p + |a|, b + c)
  {
    assert (a + b) + c == a + (b + c);
    HoldsParts(d, p, a, b + c);
  }

  /** What the function returns for a printed descriptor. */
  lemma CountPrinted(parameters: seq<Type>, result: string, isStatic: bool, repaired: bool)
    requires forall t :: t in parameters ==> WellFormed(t)
    ensures Count(PrintMethod(parameters, result), isStatic, repaired) ==
      Some(((if isStatic then 0 else 1) + Sum(parameters, repaired)) % 0x1_0000)
  {
    var d, s := PrintMethod(parameters, result), PrintAll(parameters) + ")";
    assert d == "(" + s + result;
    assert d[1..1 + |s|] == s;
    CountsAll(d, 1, parameters, if isStatic then 0 else 1, repaired);
  }

  lemma {:induction false} SumIsWidths(ts: seq<Type>)
    ensures Sum(ts, true) == Widths(ts)
  {
    if ts != [] {
      SumIsWidths(ts[1..]);
    }
  }

  /** The intended count is the sum of the widths, and one for an instance, for every descriptor. */
  lemma CountIsWidths(parameters: seq<Type>, result: string, isStatic: bool)
    requires (forall t :: t in parameters ==> WellFormed(t)) && Widths(parameters) < 0xffff
    ensures Count(PrintMethod(parameters, result), isStatic, true) ==
      Some((if isStatic then 0 else 1) + Widths(parameters))
  {
    CountPrinted(parameters, result, isStatic, true);
    SumIsWidths(parameters);
  }

  predicate IsArrayOfWide(t: Type) { t.Array? && Width(Innermost(t)) == 2 }

  predicate HasArrayOfWide(ts: seq<Type>) { exists k :: 0 <= k < |ts| && IsArrayOfWide(ts[k]) }

  /** As written each array of long or double is counted once too often. */
  lemma {:induction false} WrittenSum(ts: seq<Type>)
    ensures Sum(ts, false) >= Widths(ts)
    ensures Sum(ts, false) == Widths(ts) <==> !HasArrayOfWide(ts)
    ensures Sum(ts, false) <= 2 * Widths(ts)
  {
    if ts != [] {
      WrittenSum(ts[1..]);
      if HasArrayOfWide(ts[1..]) {
        var k :| 0 <= k < |ts[1..]| && IsArrayOfWide(ts[1..][k]);
        assert ts[k + 1] == ts[1..][k];
      }
      if HasArrayOfWide(ts) && !IsArrayOfWide(ts[0]) {
        var k :| 0 <= k < |ts| && IsArrayOfWide(ts[k]);
        assert ts[1..][k - 1] == ts[k];
      }
    }
  }

  /** As written the count is right if and only if no parameter is an array of long or double. */
  lemma WrittenCountExact(parameters: seq<Type>, result: string, isStatic: bool)
    requires (forall t :: t in parameters ==> WellFormed(t)) && Widths(parameters) < 0x7fff
    ensures Count(PrintMethod(parameters, result), isStatic, false) ==
        Some((if isStatic then 0 else 1) + Widths(parameters))
      <==> !HasArrayOfWide(parameters)
  {
    CountPrinted(parameters, result, isStatic, false);
    WrittenSum(parameters);
  }

  // ---------------------------------------------------------------- the loops

  /** The inner loops: past the brackets, and past the name of a class. */
  method ScanType(d: string, p: nat) returns (last: Option<nat>)
    requires p <= |d|
    ensures last == LastOf(d, p)
  {
    var q := p;
    while q < |d| && d[q] == '['
      invariant p <= q <= |d| && SkipBrackets(d, q) == SkipBrackets(d, p)
    {
      q := q + 1;
    }
    if q == |d| { return None; }
    if d[q] != 'L' { return Some(q); }
    var i := q + 1;
    while i < |d| && d[i] != ';'
      invariant q + 1 <= i <= |d| && SkipName(d, i) == SkipName(d, q + 1)
    {
      i := i + 1;
    }
    last := if i == |d| then None else Some(i);
  }

  /** `countNumParametersFromMethodDescriptor`; the sum is cut to sixteen bits at the end. */
  method CountNumParameters(d: string, isStatic: bool, repaired: bool) returns (r: Option<nat>)
    ensures r == Count(d, isStatic, repaired)
  {
    if d == "" { return None; }
    var n, p := if isStatic then 0 else 1, 1;
    ghost var counted := CountFrom(d, p, n, repaired);
    while p < |d| && d[p] != ')'
      invariant p <= |d| && CountFrom(d, p, n, repaired) == counted
    {
      var last := ScanType(d, p);
      if last.None? { return None; }
      CountStep(d, p, n, repaired, last.value + 1);
      var isArray := d[p] == '[';
      n := n + 1;
      if IsWide(d[last.value]) && !(repaired && isArray) {
        n := n + 1;
      }
      p := last.value + 1;
    }
    r := if p == |d| then None else Some(n % 0x1_0000);
  }

  // ---------------------------------------------------------------- the type of a parameter

  /** `getTypeFromFieldDescriptor`: the tag the type gets. */
  function TagOf(letter: char): nat {
    match letter
    case '[' => 8
    case 'L' => 8
    case 'B' => 2
    case 'C' => 1
    case 'D' => 7
    case 'F' => 6
    case 'I' => 4
    case 'J' => 5
    case 'S' => 3
    case _ => 0
  }

  /** `getTypeFromMethodDescriptor`: skip `index` types from `p` on, and look at the next. */
  function TypeFrom(d: string, p: nat, index: nat): Option<nat>
    requires p <= |d|
    decreases index
  {
    if index == 0 then Some(if p < |d| then TagOf(d[p]) else 0)
    else
      match LastOf(d, p)
      case None => None
      case Some(last) => TypeFrom(d, last + 1, index - 1)
  }

  function TypeAt(d: string, index: nat, isStatic: bool): Option<nat> {
    if !isStatic && index == 0 then Some(8)
    else if d == "" then None
    else TypeFrom(d, 1, if isStatic then index else index - 1)
  }

  lemma {:induction false} TypeFound(d: string, p: nat, ts: seq<Type>, k: nat)
    requires (forall t :: t in ts ==> WellFormed(t)) && k < |ts| && Holds(d, p, PrintAll(ts))
    ensures TypeFrom(d, p, k) == Some(TagOf(Print(ts[k])[0]))
    decreases k
  {
    var next := p + |Print(ts[0])|;
    HoldsParts(d, p, Print(ts[0]), PrintAll(ts[1..]));
    if k == 0 {
      HoldsAt(d, p, Print(ts[0]), 0);
    } else {
      TypeTurn(d, p, ts[0], k, next);
      TypeFound(d, next, ts[1..], k - 1);
    }
  }

  lemma TypeTurn(d: string, p: nat, t: Type, k: nat, next: nat)
    requires WellFormed(t) && Holds(d, p, Print(t)) && next == p + |Print(t)| && k > 0
    ensures next <= |d| && TypeFrom(d, p, k) == TypeFrom(d, next, k - 1)
  {
    LastFound(d, p, t);
  }

  /** An index counts parameters: that of parameter `k` gives its type. */
  lemma TypeOfParameter(parameters: seq<Type>, result: string, k: nat, isStatic: bool)
    requires (forall t :: t in parameters ==> WellFormed(t)) && k < |parameters|
    ensures TypeAt(PrintMethod(parameters, result), if isStatic then k else k + 1, isStatic) ==
      Some(TagOf(Print(parameters[k])[0]))
    ensures !isStatic ==> TypeAt(PrintMethod(parameters, result), 0, isStatic) == Some(TagOf('L'))
  {
    var d, s := PrintMethod(parameters, result), PrintAll(parameters);
    assert d == "(" + s + (")" + result);
    assert d[1..1 + |s|] == s;
    TypeFound(d, 1, parameters, k);
  }

  /** The local variable that parameter `k` starts at (JVMS section 2.6.1). */
  function LocalIndex(parameters: seq<Type>, k: nat, isStatic: bool): nat
    requires k <= |parameters|
  {
    (if isStatic then 0 else 1) + Widths(parameters[..k])
  }

  predicate HasWide(ts: seq<Type>) { exists i :: 0 <= i < |ts| && Width(ts[i]) == 2 }

  lemma {:induction false} WidthsCount(ts: seq<Type>)
    ensures Widths(ts) >= |ts|
    ensures Widths(ts) == |ts| <==> !HasWide(ts)
  {
    if ts != [] {
      WidthsCount(ts[1..]);
      if HasWide(ts[1..]) {
        var i :| 0 <= i < |ts[1..]| && Width(ts[1..][i]) == 2;
        assert ts[i + 1] == ts[1..][i];
      }
      if HasWide(ts) && Width(ts[0]) != 2 {
        var i :| 0 <= i < |ts| && Width(ts[i]) == 2;
        assert ts[1..][i - 1] == ts[i];
      }
    }
  }

  /**
    `readLocal` passes the index of a local variable.  That of parameter `k` is the index
    that is looked for, and then gives its type, if and only if no parameter before it is a
    long or a double; otherwise the type is that of a later parameter, if there is one.
   */
  lemma LocalTypeExact(parameters: seq<Type>, result: string, k: nat, isStatic: bool)
    requires (forall t :: t in parameters ==> WellFormed(t)) && k < |parameters|
    ensures var first, local := if isStatic then 0 else 1, LocalIndex(parameters, k, isStatic);
      && (local == first + k <==> !HasWide(parameters[..k]))
      && first + k <= local
      && (local - first < |parameters| ==>
            TypeAt(PrintMethod(parameters, result), local, isStatic) ==
              Some(TagOf(Print(parameters[local - first])[0])))
  {
    WidthsCount(parameters[..k]);
    var first, local := if isStatic then 0 else 1, LocalIndex(parameters, k, isStatic);
    if local - first < |parameters| {
      TypeOfParameter(parameters, result, local - first, isStatic);
    }
  }

  /** In a static method (JI)V the int is local variable 2, for which the code gives no type. */
  lemma LocalAfterLong()
    ensures LocalIndex([Base('J'), Base('I')], 1, true) == 2 && PrintMethod([Base('J'), Base('I')], "V") == "(JI)V"
    ensures TypeAt("(JI)V", 2, true) == Some(0) && TagOf('I') == 4
  {
    assert [Base('J'), Base('I')][..1] == [Base('J')];
    assert PrintAll([Base('I')]) == "I";
    assert [Base('J'), Base('I')][1..] == [Base('I')];
    assert LastOf("(JI)V", 1) == Some(1) && LastOf("(JI)V", 2) == Some(2);
  }

  /** `([J)V` has one parameter word, and as written two are counted. */
  lemma ArrayOfLongCountsTwice()
    ensures PrintMethod([Array(Base('J'))], "V") == "([J)V" && Widths([Array(Base('J'))]) == 1
    ensures Count("([J)V", true, false) == Some(2)
  {
    CountPrinted([Array(Base('J'))], "V", true, false);
    assert PrintAll([Array(Base('J'))]) == "[J";
    assert Sum([Array(Base('J'))], false) == 2;
  }
}
