/**
  Class loading (classloader.c:123-176, 183-254, 355, 392 and 403-441, JVMS section 5.3.5).

  The classpath is a finite map from the names that `findClassFile` finds to what the class
  file there says.  A class is identified by the name it is entered under.

  The table of loaded classes is a finite map, and line 392 removes its entry.  As written
  `ht_delete` does so exactly when the entry is not the first one of its bucket, and leaves
  the bucket pointing to freed memory otherwise: see FirstInBucket, Put and Delete in the
  module HashMap.  `Checked` is the repair for files that declare another name than asked for.
 */
module ClassLoading {
  import opened Collections
  import opened Wrappers

  type Name = string

  /**
    A class file: the name it declares, its superclass and its interfaces.  `header` says
    that the magic number and the constant pool are well formed, `body` that everything
    after the interfaces is, and that no allocation fails.
   */
  datatype ClassFile = ClassFile(name: Name, super: Option<Name>, interfaces: seq<Name>, header: bool, body: bool)

  datatype Status = Loading | Loaded | Initialized

  datatype Class = Class(status: Status, super: Option<Name>, interfaces: seq<Name>)

  type Classpath = map<Name, ClassFile>
  type Table = map<Name, Class>

  const OBJECT: Name := "java/lang/Object"

  predicate IsArray(name: Name) { name != [] && name[0] == '[' }

  /** What a load leaves; `OutOfFuel` when `fuel` nested calls were not enough. */
  datatype Outcome = Done(table: Table, ok: bool) | OutOfFuel

  /** `loadClass0` and `loadArrayClass`. */
  function Load(cp: Classpath, table: Table, name: Name, fuel: nat): Outcome
    decreases fuel, 1, 0
  {
    if name in table then Done(table, table[name].status != Loading)
    else if fuel == 0 then OutOfFuel
    else if IsArray(name) then
      match Load(cp, table, OBJECT, fuel - 1)
      case OutOfFuel => OutOfFuel
      case Done(t, ok) => if ok then Done(t[name := Class(Initialized, Some(OBJECT), [])], true) else Done(t, false)
    else if name !in cp then Done(table, false)
    else Parse(cp, table, cp[name], fuel - 1)
  }

  /** `parseClassFile`. */
  function Parse(cp: Classpath, table: Table, file: ClassFile, fuel: nat): Outcome
    decreases fuel, 3, 0
  {
    if !file.header then Done(table, false)
    else
      match LoadAll(cp, table[file.name := Class(Loading, None, [])], Needs(file), fuel)
      case OutOfFuel => OutOfFuel
      case Done(t, ok) =>
        if ok && file.body then Done(t[file.name := Class(Loaded, file.super, file.interfaces)], true)
        else Done(t - {file.name}, false)
  }

  /** The superclass, then the interfaces, up to the first that fails. */
  function LoadAll(cp: Classpath, table: Table, names: seq<Name>, fuel: nat): Outcome
    decreases fuel, 2, |names|
  {
    if names == [] then Done(table, true)
    else
      match Load(cp, table, names[0], fuel)
      case OutOfFuel => OutOfFuel
      case Done(t, ok) => if ok then LoadAll(cp, t, names[1..], fuel) else Done(t, false)
  }

  function SuperOf(super: Option<Name>): seq<Name> { if super.Some? then [super.value] else [] }

  function Needs(file: ClassFile): seq<Name> { SuperOf(file.super) + file.interfaces }

  /** The classes a class refers to. */
  function Refers(c: Class): seq<Name> { SuperOf(c.super) + c.interfaces }

  /** `loadPrimitiveClass0`. */
  function LoadPrimitive(table: Table, primitive: char): Table {
    if [primitive] in table then table else table[[primitive] := Class(Initialized, None, [])]
  }

  /** A primitive class is there afterwards, initialised, and nothing else is new. */
  lemma PrimitiveWorks(table: Table, letter: char)
    requires [letter] in table ==> table[[letter]] == Class(Initialized, None, [])
    ensures LoadPrimitive(table, letter) == table[[letter] := Class(Initialized, None, [])]
  {
  }

  // ---------------------------------------------------------------- what the table satisfies

  /** Every file that can be asked for declares the name it is found under. */
  predicate Honest(cp: Classpath) { forall n :: n in cp && !IsArray(n) ==> cp[n].name == n }

  predicate Ready(table: Table, n: Name) { n in table && table[n].status != Loading }

  /** The references of class `n` come before position `i`. */
  ghost predicate After(table: Table, order: seq<Name>, i: nat)
    requires i < |order|
  {
    Ready(table, order[i]) && forall r :: r in Refers(table[order[i]]) ==> r in order[..i]
  }

  /** `order` lists the classes that are not being loaded, each after the classes it refers to. */
  ghost predicate Orders(table: Table, order: seq<Name>) {
    && (forall i: nat {:trigger After(table, order, i)} :: i < |order| ==> After(table, order, i))
    && (forall n :: Ready(table, n) ==> n in order)
  }

  /** The superclass and interface relation is closed and well founded. */
  ghost predicate WellFounded(table: Table) { exists order :: Orders(table, order) }

  /** What loading keeps of the table it started from. */
  ghost predicate Grows(table: Table, table': Table) {
    && (forall n :: n in table ==> n in table' && table'[n] == table[n])
    && (forall n :: n in table' && n !in table ==> Ready(table', n) && (IsArray(n) || table'[n].status == Loaded))
  }

  /** The class files that have not been entered yet. */
  function Unloaded(cp: Classpath, table: Table): set<Name> { set n | n in cp && n !in table }

  /** How deep the calls can nest. */
  function Depth(cp: Classpath, table: Table, name: Name): nat {
    2 * |Unloaded(cp, table)| + if IsArray(name) then 2 else 1
  }

  /** Entering a class that is still being loaded changes nothing for the others. */
  lemma EnterKeeps(table: Table, order: seq<Name>, n: Name)
    requires Orders(table, order) && n !in table
    ensures Orders(table[n := Class(Loading, None, [])], order)
  {
    var t' := table[n := Class(Loading, None, [])];
    forall i: nat | i < |order| ensures After(t', order, i) {
      assert After(table, order, i);
    }
  }

  /** So does removing it again. */
  lemma RemoveKeeps(table: Table, order: seq<Name>, n: Name)
    requires Orders(table, order) && !Ready(table, n)
    ensures Orders(table - {n}, order)
  {
    forall i: nat | i < |order| ensures After(table - {n}, order, i) {
      assert After(table, order, i);
    }
  }

  /** A class that refers to ready classes only can be completed. */
  lemma CompleteKeeps(table: Table, order: seq<Name>, n: Name, c: Class)
    requires Orders(table, order) && !Ready(table, n) && c.status != Loading
    requires forall r :: r in Refers(c) ==> Ready(table, r)
    ensures Orders(table[n := c], order + [n])
  {
    var t', o' := table[n := c], order + [n];
    forall i: nat | i < |o'| ensures After(t', o', i) {
      if i < |order| {
        assert After(table, order, i);
        assert o'[..i] == order[..i];
      } else {
        assert o'[..i] == order;
      }
    }
  }

  predicate FromFile(cp: Classpath, name: Name, c: Class) {
    && name in cp && cp[name].header && cp[name].body
    && c == Class(Loaded, cp[name].super, cp[name].interfaces)
  }

  /**
    Array classes are never in the course of being loaded and extend Object; loaded classes
    are what their files say.
   */
  predicate EntriesFit(cp: Classpath, table: Table) {
    && (forall n :: n in table && IsArray(n) ==> table[n] == Class(Initialized, Some(OBJECT), []))
    && (forall n :: n in table && table[n].status == Loaded ==> FromFile(cp, n, table[n]))
  }

  ghost predicate Inv(cp: Classpath, table: Table) { WellFounded(table) && EntriesFit(cp, table) }

  /** What a finished load promises. */
  ghost predicate Good(cp: Classpath, table: Table, name: Name, out: Outcome) {
    && out.Done?
    && Inv(cp, out.table) && Grows(table, out.table)
    && (out.ok <==> Ready(out.table, name))
    && (!out.ok && name !in table ==> name !in out.table)
  }

  lemma UnloadedShrinks(cp: Classpath, table: Table, table': Table)
    requires table.Keys <= table'.Keys
    ensures |Unloaded(cp, table')| <= |Unloaded(cp, table)|
    ensures forall n :: n in cp && n in table' && n !in table ==> |Unloaded(cp, table')| < |Unloaded(cp, table)|
  {
    SubsetSize(Unloaded(cp, table'), Unloaded(cp, table));
    forall n | n in cp && n in table' && n !in table ensures |Unloaded(cp, table')| < |Unloaded(cp, table)| {
      SubsetSize(Unloaded(cp, table'), Unloaded(cp, table) - {n});
    }
  }

  /** Entering a class file. */
  lemma EnterWorks(cp: Classpath, table: Table, name: Name)
    requires Inv(cp, table) && name !in table && !IsArray(name)
    ensures Inv(cp, table[name := Class(Loading, None, [])])
    ensures name in cp ==> |Unloaded(cp, table[name := Class(Loading, None, [])])| < |Unloaded(cp, table)|
  {
    var order :| Orders(table, order);
    EnterKeeps(table, order, name);
    UnloadedShrinks(cp, table, table[name := Class(Loading, None, [])]);
  }

  lemma FailWorks(cp: Classpath, table: Table, t: Table, name: Name)
    requires Inv(cp, t) && name !in table && !Ready(t, name) && Grows(table[name := Class(Loading, None, [])], t)
    ensures Good(cp, table, name, Done(t - {name}, false))
  {
    var order :| Orders(t, order);
    RemoveKeeps(t, order, name);
    var t0 := table[name := Class(Loading, None, [])];
    forall n | n in table ensures n in t - {name} && (t - {name})[n] == table[n] {
      assert t0[n] == table[n];
    }
  }

  lemma CompleteWorks(cp: Classpath, table: Table, t: Table, name: Name, c: Class)
    requires Inv(cp, t) && name !in table && !Ready(t, name) && Grows(table[name := Class(Loading, None, [])], t)
    requires !IsArray(name) && FromFile(cp, name, c) && forall r :: r in Refers(c) ==> Ready(t, r)
    ensures Good(cp, table, name, Done(t[name := c], true))
  {
    var order :| Orders(t, order);
    CompleteKeeps(t, order, name, c);
    var t0 := table[name := Class(Loading, None, [])];
    forall n | n in table ensures n in t[name := c] && t[name := c][n] == table[n] {
      assert t0[n] == table[n];
    }
  }

  /** An array class enters when Object is ready, and only then. */
  lemma ArrayWorks(cp: Classpath, table: Table, name: Name, out: Outcome)
    requires IsArray(name) && name !in table && Good(cp, table, OBJECT, out) && !IsArray(OBJECT)
    ensures Good(cp, table, name,
      if out.ok then Done(out.table[name := Class(Initialized, Some(OBJECT), [])], true) else Done(out.table, false))
  {
    var order :| Orders(out.table, order);
    var c := Class(Initialized, Some(OBJECT), []);
    if out.ok {
      if name in out.table {
        assert out.table[name := c] == out.table;
      } else {
        CompleteKeeps(out.table, order, name, c);
      }
    } else if name in out.table {
      ReferredIsReady(out.table, order, name, OBJECT);
    }
  }

  lemma ReferredIsReady(table: Table, order: seq<Name>, n: Name, r: Name)
    requires Orders(table, order) && Ready(table, n) && r in Refers(table[n])
    ensures Ready(table, r)
  {
    var i: nat :| i < |order| && order[i] == n;
    assert After(table, order, i);
    var j: nat :| j < i && order[j] == r;
    assert After(table, order, j);
  }

  lemma {:induction false} LoadWorks(cp: Classpath, table: Table, name: Name, fuel: nat)
    requires Honest(cp) && Inv(cp, table) && fuel >= Depth(cp, table, name)
    ensures Good(cp, table, name, Load(cp, table, name, fuel))
    decreases fuel, 1, 0
  {
    if name in table || (!IsArray(name) && name !in cp) {
      NothingWorks(cp, table, name);
    } else if IsArray(name) {
      LoadWorks(cp, table, OBJECT, fuel - 1);
      LoadArrayWorks(cp, table, name, fuel, Load(cp, table, OBJECT, fuel - 1));
    } else {
      ParseWorks(cp, table, cp[name], fuel - 1);
      assert Load(cp, table, name, fuel) == Parse(cp, table, cp[name], fuel - 1);
    }
  }

  lemma LoadArrayWorks(cp: Classpath, table: Table, name: Name, fuel: nat, out: Outcome)
    requires fuel > 0 && IsArray(name) && name !in table
    requires out == Load(cp, table, OBJECT, fuel - 1) && Good(cp, table, OBJECT, out)
    ensures Good(cp, table, name, Load(cp, table, name, fuel))
  {
    ArrayWorks(cp, table, name, out);
    assert Load(cp, table, name, fuel) ==
      if out.ok then Done(out.table[name := Class(Initialized, Some(OBJECT), [])], true) else Done(out.table, false);
  }

  /** A class that is there, or a file that is not. */
  lemma NothingWorks(cp: Classpath, table: Table, name: Name)
    requires Inv(cp, table)
    ensures Good(cp, table, name, Done(table, Ready(table, name)))
  {
  }

  lemma {:induction false} ParseWorks(cp: Classpath, table: Table, file: ClassFile, fuel: nat)
    requires Honest(cp) && Inv(cp, table) && file.name in cp && file == cp[file.name] && file.name !in table
    requires !IsArray(file.name)
    requires fuel >= 2 * |Unloaded(cp, table)|
    ensures Good(cp, table, file.name, Parse(cp, table, file, fuel))
    decreases fuel, 3, 0
  {
    if file.header {
      var name := file.name;
      var t0 := table[name := Class(Loading, None, [])];
      EnterWorks(cp, table, name);
      LoadAllWorks(cp, t0, Needs(file), fuel);
      var out := LoadAll(cp, t0, Needs(file), fuel);
      assert !Ready(out.table, name) by { assert t0[name].status == Loading; }
      if out.ok && file.body {
        CompleteWorks(cp, table, out.table, name, Class(Loaded, file.super, file.interfaces));
      } else {
        FailWorks(cp, table, out.table, name);
      }
    }
  }

  lemma {:induction false} LoadAllWorks(cp: Classpath, table: Table, names: seq<Name>, fuel: nat)
    requires Honest(cp) && Inv(cp, table) && fuel >= 2 * |Unloaded(cp, table)| + 2
    ensures var out := LoadAll(cp, table, names, fuel);
      && out.Done? && Inv(cp, out.table) && Grows(table, out.table)
      && (out.ok ==> forall n :: n in names ==> Ready(out.table, n))
    decreases fuel, 2, |names|
  {
    if names != [] {
      LoadWorks(cp, table, names[0], fuel);
      var out := Load(cp, table, names[0], fuel);
      if out.ok {
        UnloadedShrinks(cp, table, out.table);
        LoadAllWorks(cp, out.table, names[1..], fuel);
      }
    }
  }

  /** The outcome of a load: `Depth` bounds how deep its calls nest. */
  function Loads(cp: Classpath, table: Table, name: Name): Outcome { Load(cp, table, name, Depth(cp, table, name)) }

  // ---------------------------------------------------------------- requests, one after the other

  /** No load is under way, which is what `classLoadingLock` gives its holder. */
  predicate Settled(table: Table) { forall n :: n in table ==> table[n].status != Loading }

  /**
    A request terminates, keeps every class that was there, and enters the class if and only
    if it succeeds; when it fails, no class that remains refers to it.
   */
  lemma RequestWorks(cp: Classpath, table: Table, name: Name)
    requires Honest(cp) && Inv(cp, table) && Settled(table)
    ensures var out := Loads(cp, table, name);
      && out.Done? && Inv(cp, out.table) && Settled(out.table) && Grows(table, out.table)
      && (out.ok <==> name in out.table)
      && (!out.ok ==> forall n :: n in out.table ==> name !in Refers(out.table[n]))
  {
    LoadWorks(cp, table, name, Depth(cp, table, name));
    var out := Loads(cp, table, name);
    forall n | n in out.table ensures out.table[n].status != Loading {
      if n in table { assert out.table[n] == table[n]; }
    }
    if !out.ok {
      var order :| Orders(out.table, order);
      forall n | n in out.table && name in Refers(out.table[n]) ensures false {
        ReferredIsReady(out.table, order, n, name);
      }
    }
  }

  datatype Request = ForClass(name: Name) | ForPrimitive(letter: char)

  ghost predicate IsRun(cp: Classpath, tables: seq<Table>, requests: seq<Request>) {
    && |tables| == |requests| + 1 && tables[0] == map[]
    && forall i :: 0 <= i < |requests| ==> Serves(cp, tables[i], requests[i], tables[i + 1])
  }

  /** `loadClass` and `loadPrimitiveClass`; the latter is called with the letters of section 4.3.2. */
  predicate Serves(cp: Classpath, table: Table, request: Request, table': Table) {
    match request
    case ForClass(name) => var out := Loads(cp, table, name); out.Done? && table' == out.table
    case ForPrimitive(letter) => letter != '[' && table' == LoadPrimitive(table, letter)
  }

  /** After any requests the loaded classes are closed under reference, and no reference leads in a circle. */
  lemma {:induction false} AlwaysWellFounded(cp: Classpath, tables: seq<Table>, requests: seq<Request>, i: nat)
    requires Honest(cp) && IsRun(cp, tables, requests) && i < |tables|
    ensures Inv(cp, tables[i]) && Settled(tables[i])
  {
    if i == 0 {
      assert Orders(tables[0], []);
    } else {
      AlwaysWellFounded(cp, tables, requests, i - 1);
      assert Serves(cp, tables[i - 1], requests[i - 1], tables[i]);
      match requests[i - 1]
      case ForClass(name) => RequestWorks(cp, tables[i - 1], name);
      case ForPrimitive(letter) =>
        if [letter] !in tables[i - 1] {
          var order :| Orders(tables[i - 1], order);
          CompleteKeeps(tables[i - 1], order, [letter], Class(Initialized, None, []));
        }
    }
  }

  // ---------------------------------------------------------------- what well founded means

  /** Each class refers to the next one. */
  predicate IsPath(table: Table, path: seq<Name>) {
    forall k :: 0 <= k < |path| - 1 ==> path[k] in table && path[k + 1] in Refers(table[path[k]])
  }

  function Position(order: seq<Name>, n: Name): (i: nat)
    requires n in order
    ensures i < |order| && order[i] == n && n !in order[..i]
  {
    if order[0] == n then 0 else 1 + Position(order[1..], n)
  }

  lemma {:induction false} PathDescends(table: Table, order: seq<Name>, path: seq<Name>, k: nat)
    requires Orders(table, order) && path != [] && IsPath(table, path) && k < |path| && Ready(table, path[0])
    ensures Ready(table, path[k]) && path[k] in order && path[0] in order
    ensures Position(order, path[k]) + k <= Position(order, path[0])
  {
    if k > 0 {
      PathDescends(table, order, path, k - 1);
      var i := Position(order, path[k - 1]);
      assert After(table, order, i);
      ReferredIsReady(table, order, path[k - 1], path[k]);
      var j: nat :| j < i && order[j] == path[k];
      FirstPosition(order, path[k], j);
    }
  }

  lemma {:induction false} FirstPosition(order: seq<Name>, n: Name, j: nat)
    requires j < |order| && order[j] == n
    ensures n in order && Position(order, n) <= j
  {
    if order[0] != n {
      FirstPosition(order[1..], n, j - 1);
    }
  }

  /** No loaded class is its own superclass or superinterface, however far up. */
  lemma NoCycles(cp: Classpath, table: Table, path: seq<Name>, k: nat)
    requires Inv(cp, table) && path != [] && IsPath(table, path) && Ready(table, path[0]) && 0 < k < |path|
    ensures path[k] != path[0] && Ready(table, path[k])
  {
    var order :| Orders(table, order);
    PathDescends(table, order, path, k);
  }

  // ---------------------------------------------------------------- which requests succeed

  /** The class at position `i` is there from the start, or can be loaded from the classes before it. */
  ghost predicate Derives(cp: Classpath, base: Table, order: seq<Name>, i: nat)
    requires i < |order|
  {
    Ready(base, order[i]) ||
    if IsArray(order[i]) then OBJECT in order[..i]
    else
      && order[i] in cp && cp[order[i]].header && cp[order[i]].body
      && forall r :: r in Needs(cp[order[i]]) ==> r in order[..i]
  }

  /** An order in which classes can be loaded without ever meeting one that is under way. */
  ghost predicate Derivation(cp: Classpath, base: Table, order: seq<Name>) {
    forall i: nat {:trigger Derives(cp, base, order, i)} :: i < |order| ==> Derives(cp, base, order, i)
  }

  /** Starting from the classes in `base`. */
  ghost predicate Loadable(cp: Classpath, base: Table, name: Name) {
    exists order :: Derivation(cp, base, order) && name in order
  }

  /** Nothing before position `k` is being loaded. */
  predicate Free(table: Table, order: seq<Name>, k: nat)
    requires k <= |order|
  {
    forall n :: n in order[..k] && n in table ==> Ready(table, n)
  }

  /** What a load that started from `base` has in its table: more classes from files, arrays, and classes under way. */
  ghost predicate Extends(base: Table, table: Table) {
    && (forall n :: n in base ==> n in table && table[n] == base[n])
    && (forall n :: n in table && n !in base ==> IsArray(n) || table[n].status == Loaded || table[n].status == Loading)
  }

  lemma GrowsExtends(base: Table, table: Table, table': Table)
    requires Extends(base, table) && Grows(table, table')
    ensures Extends(base, table')
  {
  }

  /** A class with a derivation is loaded: its dependencies come earlier, so none of them can meet it. */
  lemma {:induction false} LoadSucceeds(cp: Classpath, base: Table, table: Table, order: seq<Name>, i: nat, fuel: nat)
    requires Honest(cp) && Inv(cp, table) && Derivation(cp, base, order) && i < |order| && Extends(base, table)
    requires Free(table, order, i + 1) && fuel >= Depth(cp, table, order[i])
    ensures var out := Load(cp, table, order[i], fuel); out.Done? && out.ok
    decreases fuel, 1, 0
  {
    var name := order[i];
    assert Derives(cp, base, order, i);
    assert name in order[..i + 1];
    if name in table {
    } else if IsArray(name) {
      var j: nat :| j < i && order[j] == OBJECT;
      LoadSucceeds(cp, base, table, order, j, fuel - 1);
    } else {
      var k := Position(order, name);
      FirstPosition(order, name, i);
      assert Derives(cp, base, order, k);
      var t0 := table[name := Class(Loading, None, [])];
      EnterWorks(cp, table, name);
      LoadAllSucceeds(cp, base, t0, order, k, Needs(cp[name]), fuel - 1);
    }
  }

  lemma {:induction false} LoadAllSucceeds(cp: Classpath, base: Table, table: Table, order: seq<Name>, k: nat,
                                           names: seq<Name>, fuel: nat)
    requires Honest(cp) && Inv(cp, table) && Derivation(cp, base, order) && k <= |order| && Extends(base, table)
    requires Free(table, order, k) && fuel >= 2 * |Unloaded(cp, table)| + 2
    requires forall r :: r in names ==> r in order[..k]
    ensures var out := LoadAll(cp, table, names, fuel); out.Done? && out.ok
    decreases fuel, 2, |names|
  {
    if names != [] {
      assert names[0] in order[..k];
      var j: nat :| j < k && order[j] == names[0];
      LoadSucceeds(cp, base, table, order, j, fuel);
      LoadWorks(cp, table, names[0], fuel);
      var t := Load(cp, table, names[0], fuel).table;
      UnloadedShrinks(cp, table, t);
      LoadAllSucceeds(cp, base, t, order, k, names[1..], fuel);
    }
  }

  /** What has been loaded has a derivation: the order in which it was completed. */
  lemma LoadedIsLoadable(cp: Classpath, base: Table, table: Table, name: Name)
    requires Inv(cp, table) && Extends(base, table) && Settled(base) && Ready(table, name)
    ensures Loadable(cp, base, name)
  {
    var order :| Orders(table, order);
    forall i: nat | i < |order| ensures Derives(cp, base, order, i) {
      assert After(table, order, i);
      if IsArray(order[i]) {
        assert OBJECT in Refers(table[order[i]]);
      }
    }
  }

  /**
    A request succeeds exactly for the classes that are there, and those whose dependencies are
    all there or well formed, without a circle.
   */
  lemma LoadExact(cp: Classpath, table: Table, name: Name)
    requires Honest(cp) && Inv(cp, table) && Settled(table)
    ensures Loads(cp, table, name).Done?
    ensures Loads(cp, table, name).ok <==> Loadable(cp, table, name)
  {
    LoadWorks(cp, table, name, Depth(cp, table, name));
    var out := Loads(cp, table, name);
    if out.ok {
      LoadedIsLoadable(cp, table, out.table, name);
    }
    if Loadable(cp, table, name) {
      var order :| Derivation(cp, table, order) && name in order;
      var i: nat :| i < |order| && order[i] == name;
      LoadSucceeds(cp, table, table, order, i, Depth(cp, table, name));
    }
  }

  // ---------------------------------------------------------------- files that declare another name

  /** A file that declares another name and extends the name it is found under is parsed for ever. */
  lemma {:induction false} Diverges(cp: Classpath, table: Table, n: Name, fuel: nat)
    requires n in cp && !IsArray(n) && n !in table
    requires cp[n].name != n && cp[n].header && cp[n].super == Some(n)
    ensures Load(cp, table, n, fuel) == OutOfFuel
    decreases fuel
  {
    if fuel > 0 {
      var t0 := table[cp[n].name := Class(Loading, None, [])];
      Diverges(cp, t0, n, fuel - 1);
      assert Needs(cp[n])[0] == n;
      assert LoadAll(cp, t0, Needs(cp[n]), fuel - 1) == OutOfFuel;
    }
  }

  /** The files of the classpath declare these names. */
  predicate Declares(cp: Classpath, names: map<Name, Name>) {
    cp.Keys == names.Keys && forall n :: n in cp ==> cp[n].name == names[n]
  }

  ghost predicate Terminates(cp: Classpath, name: Name) { exists fuel: nat :: Load(cp, map[], name, fuel).Done? }

  /**
    Loading terminates, whatever else the files say, if and only if every file that can be
    asked for declares the name it is found under.
   */
  lemma TerminationExact(names: map<Name, Name>)
    ensures (forall n :: n in names ==> IsArray(n) || names[n] == n) <==>
      (forall cp: Classpath, name: Name :: Declares(cp, names) ==> Terminates(cp, name))
  {
    if forall n :: n in names ==> IsArray(n) || names[n] == n {
      forall cp: Classpath, name: Name | Declares(cp, names) ensures Terminates(cp, name) {
        assert Orders(map[], []);
        LoadWorks(cp, map[], name, Depth(cp, map[], name));
      }
    } else {
      var n :| n in names && !IsArray(n) && names[n] != n;
      var cp: Classpath := map m | m in names :: ClassFile(names[m], Some(n), [], true, true);
      forall fuel: nat ensures !Load(cp, map[], n, fuel).Done? {
        Diverges(cp, map[], n, fuel);
      }
      assert Declares(cp, names) && !Terminates(cp, n);
    }
  }

  /** The classpath of a loader that takes a file under another name than it declares for missing. */
  function Checked(cp: Classpath): Classpath { map n | n in cp && cp[n].name == n :: cp[n] }

  /** Such a loader terminates for all files, and none of the results here asks more of it. */
  lemma CheckedTerminates(cp: Classpath, name: Name)
    ensures Honest(Checked(cp)) && Terminates(Checked(cp), name)
    ensures forall n :: n in Checked(cp) <==> n in cp && cp[n].name == n
  {
    assert Orders(map[], []);
    LoadWorks(Checked(cp), map[], name, Depth(Checked(cp), map[], name));
  }

  // ---------------------------------------------------------------- the class loader

  /** More fuel changes nothing once there is enough. */
  lemma {:induction false} LoadMoreFuel(cp: Classpath, table: Table, name: Name, f: nat, g: nat)
    requires f <= g && Load(cp, table, name, f).Done?
    ensures Load(cp, table, name, g) == Load(cp, table, name, f)
    decreases f, 1, 0
  {
    if name !in table {
      if IsArray(name) {
        LoadMoreFuel(cp, table, OBJECT, f - 1, g - 1);
      } else if name in cp {
        ParseMoreFuel(cp, table, cp[name], f - 1, g - 1);
      }
    }
  }

  lemma {:induction false} ParseMoreFuel(cp: Classpath, table: Table, file: ClassFile, f: nat, g: nat)
    requires f <= g && Parse(cp, table, file, f).Done?
    ensures Parse(cp, table, file, g) == Parse(cp, table, file, f)
    decreases f, 3, 0
  {
    if file.header {
      LoadAllMoreFuel(cp, table[file.name := Class(Loading, None, [])], Needs(file), f, g);
    }
  }

  lemma {:induction false} LoadAllMoreFuel(cp: Classpath, table: Table, names: seq<Name>, f: nat, g: nat)
    requires f <= g && LoadAll(cp, table, names, f).Done?
    ensures LoadAll(cp, table, names, g) == LoadAll(cp, table, names, f)
    decreases f, 2, |names|
  {
    if names != [] {
      LoadMoreFuel(cp, table, names[0], f, g);
      var out := Load(cp, table, names[0], f);
      if out.ok {
        LoadAllMoreFuel(cp, out.table, names[1..], f, g);
      }
    }
  }

  /** Inside a parse, a nested load is a load of its own. */
  lemma NestedLoad(cp: Classpath, table: Table, names: seq<Name>, fuel: nat)
    requires Honest(cp) && Inv(cp, table) && names != [] && fuel >= 2 * |Unloaded(cp, table)| + 2
    ensures var out := Loads(cp, table, names[0]);
      && out.Done?
      && LoadAll(cp, table, names, fuel) == if out.ok then LoadAll(cp, out.table, names[1..], fuel) else out
  {
    LoadWorks(cp, table, names[0], Depth(cp, table, names[0]));
    LoadMoreFuel(cp, table, names[0], Depth(cp, table, names[0]), fuel);
  }

  class ClassLoader {
    const classpath: Classpath
    var loadedClasses: Table

    constructor (classpath: Classpath)
      ensures this.classpath == classpath && loadedClasses == map[]
    {
      this.classpath := classpath;
      loadedClasses := map[];
    }

    /** `loadClass0`. */
    method LoadClass0(name: Name) returns (found: bool)
      requires Honest(classpath) && Inv(classpath, loadedClasses)
      modifies this
      ensures Done(loadedClasses, found) == Loads(classpath, old(loadedClasses), name)
      ensures Good(classpath, old(loadedClasses), name, Done(loadedClasses, found))
      decreases |Unloaded(classpath, loadedClasses)|, if IsArray(name) then 3 else 1
    {
      LoadWorks(classpath, loadedClasses, name, Depth(classpath, loadedClasses, name));
      if name in loadedClasses {
        return loadedClasses[name].status != Loading;
      }
      if IsArray(name) {
        found := LoadArrayClass(name);
      } else if name !in classpath {
        found := false;
      } else {
        found := ParseClassFile(classpath[name]);
      }
    }

    /** `loadArrayClass`. */
    method LoadArrayClass(name: Name) returns (found: bool)
      requires Honest(classpath) && Inv(classpath, loadedClasses) && IsArray(name) && name !in loadedClasses
      modifies this
      ensures Done(loadedClasses, found) == Loads(classpath, old(loadedClasses), name)
      decreases |Unloaded(classpath, loadedClasses)|, 2
    {
      LoadWorks(classpath, loadedClasses, OBJECT, Depth(classpath, loadedClasses, OBJECT));
      found := LoadClass0(OBJECT);
      if found {
        loadedClasses := loadedClasses[name := Class(Initialized, Some(OBJECT), [])];
      }
    }

    /** The loop at lines 247-254. */
    method LoadInterfaces(interfaces: seq<Name>, ghost fuel: nat) returns (found: bool)
      requires Honest(classpath) && Inv(classpath, loadedClasses)
      requires fuel >= 2 * |Unloaded(classpath, loadedClasses)| + 2
      modifies this
      ensures Done(loadedClasses, found) == LoadAll(classpath, old(loadedClasses), interfaces, fuel)
      decreases |Unloaded(classpath, loadedClasses)|, 4
    {
      found := true;
      var i := 0;
      ghost var entered := loadedClasses;
      assert interfaces[0..] == interfaces;
      while found && i < |interfaces|
        invariant 0 <= i <= |interfaces| && Inv(classpath, loadedClasses)
        invariant |Unloaded(classpath, loadedClasses)| <= |Unloaded(classpath, entered)|
        invariant LoadAll(classpath, entered, interfaces, fuel) ==
          if found then LoadAll(classpath, loadedClasses, interfaces[i..], fuel) else Done(loadedClasses, false)
        decreases |interfaces| - i
      {
        ghost var before := loadedClasses;
        NestedLoad(classpath, loadedClasses, interfaces[i..], fuel);
        found := LoadClass0(interfaces[i]);
        UnloadedShrinks(classpath, before, loadedClasses);
        assert interfaces[i..][1..] == interfaces[i + 1..];
        i := i + 1;
      }
    }

    /** `parseClassFile`, up to the members: enter the class, load what it needs, complete or remove it. */
    method ParseClassFile(file: ClassFile) returns (found: bool)
      requires Honest(classpath) && Inv(classpath, loadedClasses)
      requires file.name in classpath && file == classpath[file.name] && file.name !in loadedClasses
      requires !IsArray(file.name)
      modifies this
      ensures Done(loadedClasses, found) ==
        Parse(classpath, old(loadedClasses), file, 2 * |Unloaded(classpath, old(loadedClasses))|)
      decreases |Unloaded(classpath, loadedClasses)|, 0
    {
      if !file.header {
        return false;
      }
      ghost var fuel := 2 * |Unloaded(classpath, loadedClasses)|;
      EnterWorks(classpath, loadedClasses, file.name);
      loadedClasses := loadedClasses[file.name := Class(Loading, None, [])];
      ghost var entered := loadedClasses;
      found := true;
      if file.super.Some? {
        NestedLoad(classpath, loadedClasses, Needs(file), fuel);
        found := LoadClass0(file.super.value);
        UnloadedShrinks(classpath, entered, loadedClasses);
        assert Needs(file)[1..] == file.interfaces;
      } else {
        assert Needs(file) == file.interfaces;
      }
      if found {
        found := LoadInterfaces(file.interfaces, fuel);
      }
      if found && file.body {
        loadedClasses := loadedClasses[file.name := Class(Loaded, file.super, file.interfaces)];
      } else {
        found := false;
        loadedClasses := loadedClasses - {file.name};
      }
    }
  }
}
