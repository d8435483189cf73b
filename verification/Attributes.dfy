/**
  The attributes of classes, fields, methods and code (attributes.c:10-101, JVMS section 4.7).

  Code attributes hold attributes, to any depth.  The bodies of attributes with other names
  are skipped.  Reading past the end of the data, or a name that is not text, which the code
  does not notice, counts as failing; allocations succeed.
 */
module Attributes {
  import opened Bytes
  import opened Collections
  import opened ConstantPool
  import opened Wrappers

  datatype Handler = Handler(startPc: nat, endPc: nat, handlerPc: nat, catchType: nat)

  /** An attribute; `name` is the index of its name in the constant pool. */
  datatype Attribute =
    | ConstantValue(name: nat, index: nat)
    | Code(name: nat, maxStack: nat, maxLocals: nat, code: seq<Byte>,
           handlers: seq<Handler>, attributes: seq<Attribute>)
    | Signature(name: nat, index: nat)
    | Skipped(name: nat, body: seq<Byte>)

  /** What the name of an attribute means to the parser. */
  datatype Kind = ConstantValueKind | CodeKind | SignatureKind | OtherKind | NoName

  const CONSTANT_VALUE: seq<Byte> := [67, 111, 110, 115, 116, 97, 110, 116, 86, 97, 108, 117, 101]
  const CODE: seq<Byte> := [67, 111, 100, 101]
  const SIGNATURE: seq<Byte> := [83, 105, 103, 110, 97, 116, 117, 114, 101]

  /** The comparisons at lines 16, 26 and 80. */
  function KindAt(pool: Pool, index: nat): Kind {
    if index >= |pool| || pool[index].None? || !pool[index].value.Text? then NoName
    else if pool[index].value.chars == CONSTANT_VALUE then ConstantValueKind
    else if pool[index].value.chars == CODE then CodeKind
    else if pool[index].value.chars == SIGNATURE then SignatureKind
    else OtherKind
  }

  type Kinds = nat -> Kind

  function KindsOf(pool: Pool): Kinds { (index: nat) => KindAt(pool, index) }

  // ---------------------------------------------------------------- printing

  function PrintHandler(h: Handler): (b: seq<Byte>)
    ensures |b| == 8
  {
    Digits(h.startPc, 2) + (Digits(h.endPc, 2) + (Digits(h.handlerPc, 2) + Digits(h.catchType, 2)))
  }

  function PrintHandlers(hs: seq<Handler>): seq<Byte> {
    if hs == [] then [] else PrintHandler(hs[0]) + PrintHandlers(hs[1..])
  }

  /** The body of a code attribute, whose `h` handlers print as `table` and whose `count` attributes as `nested`. */
  function PrintCode(stack: nat, locals: nat, code: seq<Byte>, h: nat, table: seq<Byte>, count: nat,
                     nested: seq<Byte>): seq<Byte> {
    Digits(stack, 2) + (Digits(locals, 2) + (Digits(|code|, 4) + (code
      + (Digits(h, 2) + (table + (Digits(count, 2) + nested))))))
  }

  function Print(a: Attribute): seq<Byte>
    decreases a, 1
  {
    Digits(a.name, 2) + (Digits(|PrintBody(a)|, 4) + PrintBody(a))
  }

  function PrintBody(a: Attribute): seq<Byte>
    decreases a, 0
  {
    match a
    case ConstantValue(_, index) => Digits(index, 2)
    case Code(_, maxStack, maxLocals, code, handlers, attributes) =>
      PrintCode(maxStack, maxLocals, code, |handlers|, PrintHandlers(handlers), |attributes|, PrintAll(attributes))
    case Signature(_, index) => Digits(index, 2)
    case Skipped(_, body) => body
  }

  function PrintAll(attributes: seq<Attribute>): seq<Byte> {
    if attributes == [] then [] else Print(attributes[0]) + PrintAll(attributes[1..])
  }

  predicate HandlerFits(h: Handler) {
    h.startPc < Capacity(2) && h.endPc < Capacity(2) && h.handlerPc < Capacity(2) && h.catchType < Capacity(2)
  }

  /** The fields fit their widths, and the names are those of the kinds. */
  predicate WellFormed(a: Attribute, kinds: Kinds) {
    && a.name < Capacity(2) && |PrintBody(a)| < Capacity(4)
    && match a
       case ConstantValue(name, index) => kinds(name) == ConstantValueKind && index < Capacity(2)
       case Signature(name, index) => kinds(name) == SignatureKind && index < Capacity(2)
       case Skipped(name, _) => kinds(name) == OtherKind
       case Code(name, maxStack, maxLocals, code, handlers, attributes) =>
         && kinds(name) == CodeKind && maxStack < Capacity(2) && maxLocals < Capacity(2)
         && |code| < Capacity(4) && |handlers| < Capacity(2) && |attributes| < Capacity(2)
         && (forall h :: h in handlers ==> HandlerFits(h))
         && AllWellFormed(attributes, kinds)
  }

  predicate AllWellFormed(attributes: seq<Attribute>, kinds: Kinds) {
    attributes != [] ==> WellFormed(attributes[0], kinds) && AllWellFormed(attributes[1..], kinds)
  }

  /** The tree without the bodies that are skipped. */
  function Forget(a: Attribute): Attribute {
    match a
    case Skipped(name, _) => Skipped(name, [])
    case Code(_, _, _, _, _, attributes) => a.(attributes := ForgetAll(attributes))
    case _ => a
  }

  function ForgetAll(attributes: seq<Attribute>): seq<Attribute> {
    if attributes == [] then [] else [Forget(attributes[0])] + ForgetAll(attributes[1..])
  }

  // ---------------------------------------------------------------- parsing

  function HandlerAt(data: seq<Byte>, at: nat): Handler
    requires at + 8 <= |data|
  {
    Handler(Value(data, at, 2), Value(data, at + 2, 2), Value(data, at + 4, 2), Value(data, at + 6, 2))
  }

  /** Lines 46-53. */
  function ParseHandlers(data: seq<Byte>, at: nat, count: nat): (r: Parsed<seq<Handler>>)
    requires at <= |data|
    ensures r.Ok? ==> at <= r.at <= |data|
    decreases count
  {
    if count == 0 then Ok([], at)
    else if at + 8 > |data| then Failed
    else
      match ParseHandlers(data, at + 8, count - 1)
      case Failed => Failed
      case Ok(rest, end) => Ok([HandlerAt(data, at)] + rest, end)
  }

  /** One turn of the loop. */
  function ParseAttribute(data: seq<Byte>, at: nat, kinds: Kinds): (r: Parsed<Attribute>)
    requires at <= |data|
    ensures r.Ok? ==> at < r.at <= |data|
    decreases |data| - at, 0, 0
  {
    if at + 6 > |data| then Failed
    else
      var name, length, body := Value(data, at, 2), Value(data, at + 2, 4), at + 6;
      match kinds(name)
      case NoName => Failed
      case ConstantValueKind =>
        if body + 2 > |data| then Failed else Ok(ConstantValue(name, Value(data, body, 2)), body + 2)
      case SignatureKind => if body + 2 > |data| then Failed else Ok(Signature(name, Value(data, body, 2)), body + 2)
      case OtherKind => if body + length > |data| then Failed else Ok(Skipped(name, []), body + length)
      case CodeKind => ParseCode(data, body, name, kinds)
  }

  /** Lines 32-40: the bytecode. */
  function ParseCode(data: seq<Byte>, at: nat, name: nat, kinds: Kinds): (r: Parsed<Attribute>)
    requires at <= |data|
    ensures r.Ok? ==> at < r.at <= |data|
    decreases |data| - at, 4, 0
  {
    if at + 8 > |data| || at + 8 + Value(data, at + 4, 4) > |data| then Failed
    else
      var behind := at + 8 + Value(data, at + 4, 4);
      ParseTable(data, behind, Code(name, Value(data, at, 2), Value(data, at + 2, 2), data[at + 8..behind], [], []),
        kinds)
  }

  /** Lines 41-53: the handlers. */
  function ParseTable(data: seq<Byte>, at: nat, code: Attribute, kinds: Kinds): (r: Parsed<Attribute>)
    requires at <= |data| && code.Code?
    ensures r.Ok? ==> at < r.at <= |data|
    decreases |data| - at, 3, 0
  {
    if at + 2 > |data| then Failed
    else
      match ParseHandlers(data, at + 2, Value(data, at, 2))
      case Failed => Failed
      case Ok(handlers, next) => ParseNested(data, next, code.(handlers := handlers), kinds)
  }

  /** Lines 54-63: its attributes, read by the parser itself. */
  function ParseNested(data: seq<Byte>, at: nat, code: Attribute, kinds: Kinds): (r: Parsed<Attribute>)
    requires at <= |data| && code.Code?
    ensures r.Ok? ==> at < r.at <= |data|
    decreases |data| - at, 2, 0
  {
    if at + 2 > |data| then Failed
    else
      match ParseAll(data, at + 2, Value(data, at, 2), kinds)
      case Failed => Failed
      case Ok(attributes, end) => Ok(code.(attributes := attributes), end)
  }

  /** `parseAttributes`. */
  function ParseAll(data: seq<Byte>, at: nat, count: nat, kinds: Kinds): (r: Parsed<seq<Attribute>>)
    requires at <= |data|
    ensures r.Ok? ==> at <= r.at <= |data|
    decreases |data| - at, 1, count
  {
    if count == 0 then Ok([], at)
    else
      match ParseAttribute(data, at, kinds)
      case Failed => Failed
      case Ok(a, next) =>
        match ParseAll(data, next, count - 1, kinds)
        case Failed => Failed
        case Ok(rest, end) => Ok([a] + rest, end)
  }

  // ---------------------------------------------------------------- parsing inverts printing

  lemma HandlerHeld(data: seq<Byte>, at: nat, h: Handler)
    requires HandlerFits(h) && Holds(data, at, PrintHandler(h))
    ensures at + 8 <= |data| && Value(data, at, 2) == h.startPc && Value(data, at + 2, 2) == h.endPc
    ensures Value(data, at + 4, 2) == h.handlerPc && Value(data, at + 6, 2) == h.catchType
  {
    HoldsFour(data, at, Digits(h.startPc, 2), Digits(h.endPc, 2), Digits(h.handlerPc, 2), Digits(h.catchType, 2),
      at + 2, at + 4, at + 6);
    HoldsValue(data, at, h.startPc, 2);
    HoldsValue(data, at + 2, h.endPc, 2);
    HoldsValue(data, at + 4, h.handlerPc, 2);
    HoldsValue(data, at + 6, h.catchType, 2);
  }

  lemma {:induction false} HandlersParse(data: seq<Byte>, at: nat, hs: seq<Handler>)
    requires (forall h :: h in hs ==> HandlerFits(h)) && Holds(data, at, PrintHandlers(hs))
    ensures ParseHandlers(data, at, |hs|) == Ok(hs, at + |PrintHandlers(hs)|)
    decreases |hs|
  {
    if hs != [] {
      assert hs[0] in hs && hs == [hs[0]] + hs[1..];
      HoldsParts(data, at, PrintHandler(hs[0]), PrintHandlers(hs[1..]));
      HandlerHeld(data, at, hs[0]);
      HandlersParse(data, at + 8, hs[1..]);
    }
  }

  /** The head of an attribute, and its body behind it. */
  lemma HeadHeld(data: seq<Byte>, at: nat, a: Attribute)
    requires a.name < Capacity(2) && |PrintBody(a)| < Capacity(4) && Holds(data, at, Print(a))
    ensures |Print(a)| == 6 + |PrintBody(a)| && at + 6 <= |data|
    ensures Value(data, at, 2) == a.name && Value(data, at + 2, 4) == |PrintBody(a)|
    ensures Holds(data, at + 6, PrintBody(a))
  {
    var body := PrintBody(a);
    HeadParts(data, at, a.name, |body|, body);
  }

  lemma HeadParts(data: seq<Byte>, at: nat, name: nat, length: nat, body: seq<Byte>)
    requires name < Capacity(2) && length < Capacity(4) && Holds(data, at, Digits(name, 2) + (Digits(length, 4) + body))
    ensures at + 6 <= |data| && Value(data, at, 2) == name && Value(data, at + 2, 4) == length
    ensures Holds(data, at + 6, body)
  {
    HoldsParts(data, at, Digits(name, 2), Digits(length, 4) + body);
    HoldsParts(data, at + 2, Digits(length, 4), body);
    HoldsValue(data, at, name, 2);
    HoldsValue(data, at + 2, length, 4);
  }

  /**
    The parts of a code attribute, as bytes: its numbers `s`, `l`, `n`, `h` and `k`, its
    code, handlers and attributes.
   */
  lemma CodeParts(data: seq<Byte>, at: nat, s: seq<Byte>, l: seq<Byte>, n: seq<Byte>, code: seq<Byte>, h: seq<Byte>,
                  table: seq<Byte>, k: seq<Byte>, nested: seq<Byte>, counted: nat, next: nat)
    requires |s| == |l| == |h| == |k| == 2 && |n| == 4 && counted == at + 8 + |code| && next == counted + 2 + |table|
    requires Holds(data, at, s + (l + (n + (code + (h + (table + (k + nested)))))))
    ensures Holds(data, at, s) && Holds(data, at + 2, l) && Holds(data, at + 4, n) && Holds(data, at + 8, code)
    ensures Holds(data, counted, h) && Holds(data, counted + 2, table)
    ensures Holds(data, next, k) && Holds(data, next + 2, nested)
  {
    HoldsFour(data, at, s, l, n, code + (h + (table + (k + nested))), at + 2, at + 4, at + 8);
    HoldsFour(data, at + 8, code, h, table, k + nested, counted, counted + 2, next);
    HoldsParts(data, next, k, nested);
  }

  lemma {:induction false} AttributeParses(data: seq<Byte>, at: nat, a: Attribute, kinds: Kinds)
    requires WellFormed(a, kinds) && at <= |data| && Holds(data, at, Print(a))
    ensures ParseAttribute(data, at, kinds) == Ok(Forget(a), at + |Print(a)|)
    decreases a, 2
  {
    HeadHeld(data, at, a);
    match a
    case ConstantValue(_, index) => HoldsValue(data, at + 6, index, 2);
    case Signature(_, index) => HoldsValue(data, at + 6, index, 2);
    case Skipped(_, _) =>
    case Code(_, _, _, _, _, _) => CodeParses(data, at + 6, a, kinds);
  }

  lemma {:induction false} CodeParses(data: seq<Byte>, at: nat, a: Attribute, kinds: Kinds)
    requires a.Code? && WellFormed(a, kinds) && at <= |data| && Holds(data, at, PrintBody(a))
    ensures ParseCode(data, at, a.name, kinds) == Ok(Forget(a), at + |PrintBody(a)|)
    decreases a, 1
  {
    var n, h, count := |a.code|, |a.handlers|, |a.attributes|;
    var table, nested := PrintHandlers(a.handlers), PrintAll(a.attributes);
    var counted := at + 8 + n;
    var next := counted + 2 + |table|;
    CodeParts(data, at, Digits(a.maxStack, 2), Digits(a.maxLocals, 2), Digits(n, 4), a.code, Digits(h, 2),
      table, Digits(count, 2), nested, counted, next);
    HoldsValue(data, at, a.maxStack, 2);
    HoldsValue(data, at + 2, a.maxLocals, 2);
    HoldsValue(data, at + 4, n, 4);
    HoldsValue(data, counted, h, 2);
    HoldsValue(data, next, count, 2);
    CodeReads(data, at, a, kinds, counted, next, next + 2 + |nested|);
  }

  lemma {:induction false} CodeReads(data: seq<Byte>, at: nat, a: Attribute, kinds: Kinds, counted: nat, next: nat,
                                     end: nat)
    requires a.Code? && AllWellFormed(a.attributes, kinds) && (forall x :: x in a.handlers ==> HandlerFits(x))
    requires counted == at + 8 + |a.code| && counted + 2 <= |data| && next + 2 <= |data|
    requires next == counted + 2 + |PrintHandlers(a.handlers)| && end == next + 2 + |PrintAll(a.attributes)|
    requires Value(data, at, 2) == a.maxStack && Value(data, at + 2, 2) == a.maxLocals
    requires Value(data, at + 4, 4) == |a.code| && Holds(data, at + 8, a.code)
    requires Value(data, counted, 2) == |a.handlers| && Holds(data, counted + 2, PrintHandlers(a.handlers))
    requires Value(data, next, 2) == |a.attributes| && Holds(data, next + 2, PrintAll(a.attributes))
    ensures ParseCode(data, at, a.name, kinds) == Ok(Forget(a), end)
    decreases a, 0
  {
    var code := Code(a.name, a.maxStack, a.maxLocals, a.code, [], []);
    TableReads(data, counted, code, a.handlers, a.attributes, kinds, next, end);
  }

  lemma {:induction false} TableReads(data: seq<Byte>, at: nat, code: Attribute, handlers: seq<Handler>,
                                      attributes: seq<Attribute>,
                                      kinds: Kinds, next: nat, end: nat)
    requires code.Code? && AllWellFormed(attributes, kinds) && (forall x :: x in handlers ==> HandlerFits(x))
    requires at + 2 <= |data| && next + 2 <= |data|
    requires next == at + 2 + |PrintHandlers(handlers)| && end == next + 2 + |PrintAll(attributes)|
    requires Value(data, at, 2) == |handlers| && Holds(data, at + 2, PrintHandlers(handlers))
    requires Value(data, next, 2) == |attributes| && Holds(data, next + 2, PrintAll(attributes))
    ensures ParseTable(data, at, code, kinds) ==
      Ok(code.(handlers := handlers, attributes := ForgetAll(attributes)), end)
    decreases attributes, 5
  {
    HandlersParse(data, at + 2, handlers);
    NestedReads(data, next, code.(handlers := handlers), attributes, kinds, end);
    HandlersThenNested(data, at, code, handlers, kinds, next);
  }

  lemma HandlersThenNested(data: seq<Byte>, at: nat, code: Attribute, handlers: seq<Handler>, kinds: Kinds, next: nat)
    requires code.Code? && at + 2 <= |data| && next <= |data|
    requires ParseHandlers(data, at + 2, Value(data, at, 2)) == Ok(handlers, next)
    ensures ParseTable(data, at, code, kinds) == ParseNested(data, next, code.(handlers := handlers), kinds)
  {
  }

  lemma {:induction false} NestedReads(data: seq<Byte>, at: nat, code: Attribute, attributes: seq<Attribute>,
                                       kinds: Kinds, end: nat)
    requires code.Code? && AllWellFormed(attributes, kinds) && at + 2 <= |data|
    requires Value(data, at, 2) == |attributes| && Holds(data, at + 2, PrintAll(attributes))
    requires end == at + 2 + |PrintAll(attributes)|
    ensures ParseNested(data, at, code, kinds) == Ok(code.(attributes := ForgetAll(attributes)), end)
    decreases attributes, 4
  {
    AllParse(data, at + 2, attributes, kinds);
  }

  lemma {:induction false} AllParse(data: seq<Byte>, at: nat, attributes: seq<Attribute>, kinds: Kinds)
    requires AllWellFormed(attributes, kinds) && at <= |data| && Holds(data, at, PrintAll(attributes))
    ensures ParseAll(data, at, |attributes|, kinds) == Ok(ForgetAll(attributes), at + |PrintAll(attributes)|)
    decreases attributes, 3
  {
    if attributes != [] {
      var next := at + |Print(attributes[0])|;
      FirstHeld(data, at, attributes, kinds, next);
      AttributeParses(data, at, attributes[0], kinds);
      AllParse(data, next, attributes[1..], kinds);
      OneThenAll(data, at, attributes, kinds, next, at + |PrintAll(attributes)|);
    }
  }

  lemma FirstHeld(data: seq<Byte>, at: nat, attributes: seq<Attribute>, kinds: Kinds, next: nat)
    requires attributes != [] && AllWellFormed(attributes, kinds) && Holds(data, at, PrintAll(attributes))
    requires next == at + |Print(attributes[0])|
    ensures Holds(data, at, Print(attributes[0])) && Holds(data, next, PrintAll(attributes[1..])) && next <= |data|
    ensures next + |PrintAll(attributes[1..])| == at + |PrintAll(attributes)|
  {
    HoldsParts(data, at, Print(attributes[0]), PrintAll(attributes[1..]));
  }

  lemma OneThenAll(data: seq<Byte>, at: nat, attributes: seq<Attribute>, kinds: Kinds, next: nat, end: nat)
    requires attributes != [] && at <= |data| && next <= |data|
    requires ParseAttribute(data, at, kinds) == Ok(Forget(attributes[0]), next)
    requires ParseAll(data, next, |attributes| - 1, kinds) == Ok(ForgetAll(attributes[1..]), end)
    ensures ParseAll(data, at, |attributes|, kinds) == Ok(ForgetAll(attributes), end)
  {
  }

  // ---------------------------------------------------------------- what the names say

  /** A text as the bytes of a class file, for the characters up to 255 that names are made of here. */
  function Ascii(s: string): seq<Byte>
    requires forall i :: 0 <= i < |s| ==> s[i] < 256 as char
  {
    seq(|s|, i requires 0 <= i < |s| => s[i] as int)
  }

  predicate IsText(pool: Pool, index: nat) { index < |pool| && pool[index].Some? && pool[index].value.Text? }

  /** The pool has that text under the index. */
  predicate Says(pool: Pool, index: nat, text: string)
    requires forall i :: 0 <= i < |text| ==> text[i] < 256 as char
  {
    IsText(pool, index) && pool[index].value.chars == Ascii(text)
  }

  /** Every attribute has the name that section 4.7 of the JVMS gives it, and a skipped one has another text. */
  predicate Named(a: Attribute, pool: Pool) {
    match a
    case ConstantValue(name, _) => Says(pool, name, "ConstantValue")
    case Signature(name, _) => Says(pool, name, "Signature")
    case Code(name, _, _, _, _, attributes) => Says(pool, name, "Code") && AllNamed(attributes, pool)
    case Skipped(name, _) =>
      && IsText(pool, name)
      && !Says(pool, name, "ConstantValue") && !Says(pool, name, "Signature") && !Says(pool, name, "Code")
  }

  predicate AllNamed(attributes: seq<Attribute>, pool: Pool) {
    attributes != [] ==> Named(attributes[0], pool) && AllNamed(attributes[1..], pool)
  }

  /** The numbers fit their widths. */
  predicate Fits(a: Attribute) {
    && a.name < Capacity(2) && |PrintBody(a)| < Capacity(4)
    && match a
       case ConstantValue(_, index) => index < Capacity(2)
       case Signature(_, index) => index < Capacity(2)
       case Skipped(_, _) => true
       case Code(_, maxStack, maxLocals, code, handlers, attributes) =>
         && maxStack < Capacity(2) && maxLocals < Capacity(2)
         && |code| < Capacity(4) && |handlers| < Capacity(2) && |attributes| < Capacity(2)
         && (forall h :: h in handlers ==> HandlerFits(h))
         && AllFit(attributes)
  }

  predicate AllFit(attributes: seq<Attribute>) {
    attributes != [] ==> Fits(attributes[0]) && AllFit(attributes[1..])
  }

  /** The comparisons with the names recognise exactly these texts. */
  lemma KindsAreNames(pool: Pool, index: nat)
    ensures KindAt(pool, index) == CodeKind <==> Says(pool, index, "Code")
    ensures KindAt(pool, index) == ConstantValueKind <==> Says(pool, index, "ConstantValue")
    ensures KindAt(pool, index) == SignatureKind <==> Says(pool, index, "Signature")
    ensures KindAt(pool, index) == NoName <==> !IsText(pool, index)
  {
    assert CODE == Ascii("Code") && |CODE| == 4;
    assert CONSTANT_VALUE == Ascii("ConstantValue") && |CONSTANT_VALUE| == 13;
    assert SIGNATURE == Ascii("Signature") && |SIGNATURE| == 9;
  }

  /** An attribute is parsed only if the pool has a text for its name, and takes what its name and its length say. */
  lemma ParsedIsNamed(data: seq<Byte>, at: nat, pool: Pool)
    requires at <= |data|
    ensures var r := ParseAttribute(data, at, KindsOf(pool));
      r.Ok? ==>
        && at + 6 <= r.at && r.value.name == Value(data, at, 2) && IsText(pool, r.value.name)
        && (r.value.Code? <==> Says(pool, r.value.name, "Code"))
        && (r.value.ConstantValue? <==> Says(pool, r.value.name, "ConstantValue"))
        && (r.value.Signature? <==> Says(pool, r.value.name, "Signature"))
        && (r.value.Skipped? ==> r.at == at + 6 + Value(data, at + 2, 4))
        && (r.value.ConstantValue? || r.value.Signature? ==> r.at == at + 8)
  {
    if at + 6 <= |data| {
      KindsAreNames(pool, Value(data, at, 2));
      CodeIsCode(data, at + 6, Value(data, at, 2), KindsOf(pool));
    }
  }

  lemma CodeIsCode(data: seq<Byte>, at: nat, name: nat, kinds: Kinds)
    requires at <= |data|
    ensures var r := ParseCode(data, at, name, kinds); r.Ok? ==> r.value.Code? && r.value.name == name
  {
    if at + 8 <= |data| && at + 8 + Value(data, at + 4, 4) <= |data| {
      var behind := at + 8 + Value(data, at + 4, 4);
      TableIsCode(data, behind,
        Code(name, Value(data, at, 2), Value(data, at + 2, 2), data[at + 8..behind], [], []), kinds);
    }
  }

  lemma TableIsCode(data: seq<Byte>, at: nat, code: Attribute, kinds: Kinds)
    requires at <= |data| && code.Code?
    ensures var r := ParseTable(data, at, code, kinds); r.Ok? ==> r.value.Code? && r.value.name == code.name
  {
  }

  lemma {:induction false} NamedIsWellFormed(a: Attribute, pool: Pool)
    ensures WellFormed(a, KindsOf(pool)) <==> Fits(a) && Named(a, pool)
    decreases a, 0
  {
    KindsAreNames(pool, a.name);
    if a.Code? { AllNamedAreWellFormed(a.attributes, pool); }
  }

  lemma {:induction false} AllNamedAreWellFormed(attributes: seq<Attribute>, pool: Pool)
    ensures AllWellFormed(attributes, KindsOf(pool)) <==> AllFit(attributes) && AllNamed(attributes, pool)
    decreases attributes, 1
  {
    if attributes != [] {
      NamedIsWellFormed(attributes[0], pool);
      AllNamedAreWellFormed(attributes[1..], pool);
    }
  }

  /**
    Parsing inverts printing for every tree of attributes whose names are in the pool, up to
    the skipped bodies, and ends at its end.
   */
  lemma AttributesRoundTrip(data: seq<Byte>, at: nat, attributes: seq<Attribute>, pool: Pool)
    requires AllFit(attributes) && AllNamed(attributes, pool) && Holds(data, at, PrintAll(attributes))
    ensures ParseAll(data, at, |attributes|, KindsOf(pool)) == Ok(ForgetAll(attributes), at + |PrintAll(attributes)|)
  {
    AllNamedAreWellFormed(attributes, pool);
    AllParse(data, at, attributes, KindsOf(pool));
  }

  /** The line numbers of a method, skipped. */
  lemma NestedSample(data: seq<Byte>, pool: Pool)
    requires |data| == 34 && Shows(data, 27, [0, 2]) && Shows(data, 29, [0, 0, 0, 1])
    requires Says(pool, 2, "LineNumberTable")
    ensures ParseAll(data, 27, 1, KindsOf(pool)) == Ok([Skipped(2, [])], 34)
  {
    KindsAreNames(pool, 2);
    OtherTexts(pool, 2);
    TwoShown(data, 27, [0, 2]);
    FourShown(data, 29, [0, 0, 0, 1]);
    assert ParseAttribute(data, 27, KindsOf(pool)) == Ok(Skipped(2, []), 34);
    OneAttribute(data, 27, KindsOf(pool), Skipped(2, []), 34);
  }

  lemma OneAttribute(data: seq<Byte>, at: nat, kinds: Kinds, a: Attribute, next: nat)
    requires at <= |data| && next <= |data| && ParseAttribute(data, at, kinds) == Ok(a, next)
    ensures ParseAll(data, at, 1, kinds) == Ok([a], next)
  {
    assert ParseAll(data, next, 0, kinds) == Ok([], next);
    assert [a] + [] == [a];
  }

  lemma HandlerSample(data: seq<Byte>)
    requires |data| == 34
    requires Shows(data, 17, [0, 4]) && Shows(data, 19, [0, 5]) && Shows(data, 21, [0, 6]) && Shows(data, 23, [0, 7])
    ensures ParseHandlers(data, 17, 1) == Ok([Handler(4, 5, 6, 7)], 25)
  {
    TwoShown(data, 17, [0, 4]);
    TwoShown(data, 19, [0, 5]);
    TwoShown(data, 21, [0, 6]);
    TwoShown(data, 23, [0, 7]);
    assert ParseHandlers(data, 25, 0) == Ok([], 25);
    assert [Handler(4, 5, 6, 7)] + [] == [Handler(4, 5, 6, 7)];
  }

  lemma TableSample(data: seq<Byte>, pool: Pool, code: Attribute)
    requires |data| == 34 && code.Code? && Says(pool, 2, "LineNumberTable")
    requires Shows(data, 15, [0, 1]) && Shows(data, 17, [0, 4]) && Shows(data, 19, [0, 5]) && Shows(data, 21, [0, 6])
    requires Shows(data, 23, [0, 7]) && Shows(data, 25, [0, 1])
    requires Shows(data, 27, [0, 2]) && Shows(data, 29, [0, 0, 0, 1])
    ensures ParseTable(data, 15, code, KindsOf(pool)) ==
      Ok(code.(handlers := [Handler(4, 5, 6, 7)], attributes := [Skipped(2, [])]), 34)
  {
    TwoShown(data, 15, [0, 1]);
    TwoShown(data, 25, [0, 1]);
    HandlerSample(data);
    NestedSample(data, pool);
  }

  /**
    A method's code as it is found in a class file: stack and locals, one instruction, a
    handler, and a nested attribute that is skipped.
   */
  lemma SampleParses(data: seq<Byte>, pool: Pool)
    requires data ==
      [0, 1, 0, 0, 0, 28,  0, 2, 0, 3, 0, 0, 0, 1,  177,  0, 1, 0, 4, 0, 5, 0, 6, 0, 7,  0, 1, 0, 2, 0, 0, 0, 1, 9]
    requires Says(pool, 1, "Code") && Says(pool, 2, "LineNumberTable")
    ensures ParseAll(data, 0, 1, KindsOf(pool)) ==
      Ok([Code(1, 2, 3, [177], [Handler(4, 5, 6, 7)], [Skipped(2, [])])], 34)
  {
    SampleCode(data, pool);
    KindsAreNames(pool, 1);
    TwoShown(data, 0, [0, 1]);
    OneAttribute(data, 0, KindsOf(pool), Code(1, 2, 3, [177], [Handler(4, 5, 6, 7)], [Skipped(2, [])]), 34);
  }

  /** It is one of the trees that the round trip is about. */
  lemma SampleIsNamed(pool: Pool)
    requires Says(pool, 1, "Code") && Says(pool, 2, "LineNumberTable")
    ensures var sample := [Code(1, 2, 3, [177], [Handler(4, 5, 6, 7)], [Skipped(2, [9])])];
      AllNamed(sample, pool) && AllFit(sample)
  {
    var nested := [Skipped(2, [9])];
    var a := Code(1, 2, 3, [177], [Handler(4, 5, 6, 7)], nested);
    OtherTexts(pool, 2);
    assert Capacity(0) == 1 && Capacity(1) == 256 && Capacity(2) == 65536 && Capacity(3) == 256 * 65536;
    assert nested[0].name == 2 && Named(nested[0], pool);
    assert nested[1..] == [] && AllNamed(nested[1..], pool);
    assert AllNamed(nested, pool);
    assert |PrintAll(nested)| == 7 by { assert PrintAll(nested[1..]) == [] && |PrintBody(nested[0])| == 1; }
    assert |PrintHandlers(a.handlers)| == 8 by { assert PrintHandlers(a.handlers[1..]) == []; }
    assert AllFit(nested);
    assert Fits(a);
  }

  lemma SampleCode(data: seq<Byte>, pool: Pool)
    requires |data| == 34 && Shows(data, 6, [0, 2]) && Shows(data, 8, [0, 3]) && Shows(data, 10, [0, 0, 0, 1])
    requires data[14] == 177
    requires Says(pool, 2, "LineNumberTable")
    requires Shows(data, 15, [0, 1]) && Shows(data, 17, [0, 4]) && Shows(data, 19, [0, 5]) && Shows(data, 21, [0, 6])
    requires Shows(data, 23, [0, 7]) && Shows(data, 25, [0, 1])
    requires Shows(data, 27, [0, 2]) && Shows(data, 29, [0, 0, 0, 1])
    ensures ParseCode(data, 6, 1, KindsOf(pool)) ==
      Ok(Code(1, 2, 3, [177], [Handler(4, 5, 6, 7)], [Skipped(2, [])]), 34)
  {
    TwoShown(data, 6, [0, 2]);
    TwoShown(data, 8, [0, 3]);
    FourShown(data, 10, [0, 0, 0, 1]);
    assert data[14..15] == [177];
    TableSample(data, pool, Code(1, 2, 3, [177], [], []));
  }

  lemma OtherTexts(pool: Pool, index: nat)
    requires Says(pool, index, "LineNumberTable")
    ensures !Says(pool, index, "Code") && !Says(pool, index, "ConstantValue") && !Says(pool, index, "Signature")
  {
    assert |Ascii("LineNumberTable")| == 15 && |Ascii("Code")| == 4;
    assert |Ascii("ConstantValue")| == 13 && |Ascii("Signature")| == 9;
  }

  // ---------------------------------------------------------------- the loops

  /** What a loop that has parsed `done` ends with, when the rest of it ends with `r`. */
  function Behind<T>(done: seq<T>, r: Parsed<seq<T>>): Parsed<seq<T>> {
    if r.Ok? then Ok(done + r.value, r.at) else Failed
  }

  lemma BehindNothing<T>(r: Parsed<seq<T>>)
    ensures Behind([], r) == r
  {
    if r.Ok? { assert [] + r.value == r.value; }
  }

  lemma BehindOne<T>(done: seq<T>, x: T, r: Parsed<seq<T>>)
    ensures Behind(done, if r.Ok? then Ok([x] + r.value, r.at) else Failed) == Behind(done + [x], r)
  {
    if r.Ok? { assert done + ([x] + r.value) == done + [x] + r.value; }
  }

  /** One turn of the loop over the handlers. */
  lemma HandlerTurn(data: seq<Byte>, at: nat, count: nat, done: seq<Handler>)
    requires at <= |data| && count > 0
    ensures Behind(done, ParseHandlers(data, at, count)) ==
      if at + 8 > |data| then Failed
      else
        Behind(done + [HandlerAt(data, at)], ParseHandlers(data, at + 8, count - 1))
  {
    if at + 8 <= |data| {
      BehindOne(done, HandlerAt(data, at), ParseHandlers(data, at + 8, count - 1));
    }
  }

  /** One turn of the loop over the attributes. */
  lemma AttributeTurn(data: seq<Byte>, at: nat, count: nat, kinds: Kinds, done: seq<Attribute>)
    requires at <= |data| && count > 0
    ensures Behind(done, ParseAll(data, at, count, kinds)) ==
      var a := ParseAttribute(data, at, kinds);
      if a.Failed? then Failed else Behind(done + [a.value], ParseAll(data, a.at, count - 1, kinds))
  {
    var a := ParseAttribute(data, at, kinds);
    if a.Ok? {
      BehindOne(done, a.value, ParseAll(data, a.at, count - 1, kinds));
    }
  }

  method ParseHandlerTable(data: seq<Byte>, start: nat, count: nat) returns (r: Parsed<seq<Handler>>)
    requires start <= |data|
    ensures r == ParseHandlers(data, start, count)
  {
    var handlers: seq<Handler>, at, j := [], start, 0;
    BehindNothing(ParseHandlers(data, start, count));
    while j < count
      invariant start <= at <= |data| && j <= count
      invariant Behind(handlers, ParseHandlers(data, at, count - j)) == ParseHandlers(data, start, count)
    {
      HandlerTurn(data, at, count - j, handlers);
      if at + 8 > |data| { return Failed; }
      handlers := handlers + [HandlerAt(data, at)];
      at, j := at + 8, j + 1;
    }
    assert handlers + [] == handlers;
    return Ok(handlers, at);
  }

  /** `parseAttributes`. */
  method ParseAttributes(data: seq<Byte>, start: nat, count: nat, kinds: Kinds) returns (r: Parsed<seq<Attribute>>)
    requires start <= |data|
    ensures r == ParseAll(data, start, count, kinds)
    decreases |data| - start, 2
  {
    var attributes: seq<Attribute>, at, i := [], start, 0;
    BehindNothing(ParseAll(data, start, count, kinds));
    while i < count
      invariant start <= at <= |data| && i <= count
      invariant Behind(attributes, ParseAll(data, at, count - i, kinds)) == ParseAll(data, start, count, kinds)
    {
      AttributeTurn(data, at, count - i, kinds, attributes);
      var a := ParseOne(data, at, kinds);
      if a.Failed? { return Failed; }
      attributes := attributes + [a.value];
      at, i := a.at, i + 1;
    }
    assert attributes + [] == attributes;
    return Ok(attributes, at);
  }

  /** The body of the loop: Code alone is parsed further. */
  method ParseOne(data: seq<Byte>, at: nat, kinds: Kinds) returns (r: Parsed<Attribute>)
    requires at <= |data|
    ensures r == ParseAttribute(data, at, kinds)
    decreases |data| - at, 1
  {
    if at + 6 > |data| { return Failed; }
    var name, length, body := Value(data, at, 2), Value(data, at + 2, 4), at + 6;
    match kinds(name)
    case NoName => r := Failed;
    case ConstantValueKind =>
      r := if body + 2 > |data| then Failed else Ok(ConstantValue(name, Value(data, body, 2)), body + 2);
    case SignatureKind =>
      r := if body + 2 > |data| then Failed else Ok(Signature(name, Value(data, body, 2)), body + 2);
    case OtherKind => r := if body + length > |data| then Failed else Ok(Skipped(name, []), body + length);
    case CodeKind => r := ParseCodeAttribute(data, body, name, kinds);
  }

  method ParseCodeAttribute(data: seq<Byte>, at: nat, name: nat, kinds: Kinds) returns (r: Parsed<Attribute>)
    requires at <= |data|
    ensures r == ParseCode(data, at, name, kinds)
    decreases |data| - at, 3
  {
    if at + 8 > |data| { return Failed; }
    var behind := at + 8 + Value(data, at + 4, 4);
    if behind + 2 > |data| { return Failed; }
    var code := Code(name, Value(data, at, 2), Value(data, at + 2, 2), data[at + 8..behind], [], []);
    assert ParseCode(data, at, name, kinds) == ParseTable(data, behind, code, kinds);
    var handlers := ParseHandlerTable(data, behind + 2, Value(data, behind, 2));
    if handlers.Failed? { return Failed; }
    code := code.(handlers := handlers.value);
    assert ParseCode(data, at, name, kinds) == ParseNested(data, handlers.at, code, kinds);
    if handlers.at + 2 > |data| { return Failed; }
    var attributes := ParseAttributes(data, handlers.at + 2, Value(data, handlers.at, 2), kinds);
    if attributes.Failed? { return Failed; }
    r := Ok(code.(attributes := attributes.value), attributes.at);
  }
}
