/**
  Which classes are in the table after a request, whether it succeeds or not: the other half
  of the module ClassLoading.

  A load visits the superclass and then the interfaces of a class file, up to the first that
  cannot be loaded.  What it has loaded on the way stays, also when what asked for it fails.
 */
module LoadedClasses {
  import opened Wrappers
  import opened ClassLoading

  /** The class `x` asks for the class `y`. */
  predicate Asks(cp: Classpath, x: Name, y: Name) {
    if IsArray(x) then y == OBJECT else x in cp && cp[x].header && y in Needs(cp[x])
  }

  /** Position `j` of the needs is come to: those before it can be loaded. */
  ghost predicate ComesTo(cp: Classpath, base: Table, needs: seq<Name>, j: nat) {
    j < |needs| && forall i :: 0 <= i < j ==> Loadable(cp, base, needs[i])
  }

  /** A load of `x` comes to load `y`. */
  ghost predicate Visits(cp: Classpath, base: Table, x: Name, y: Name) {
    if IsArray(x) then y == OBJECT
    else x in cp && cp[x].header && exists j: nat :: ComesTo(cp, base, Needs(cp[x]), j) && Needs(cp[x])[j] == y
  }

  /** From class to class, through classes that were not there. */
  ghost predicate IsTrail(cp: Classpath, base: Table, there: Table, path: seq<Name>) {
    path != [] && forall k :: 0 <= k < |path| - 1 ==> path[k] !in there && Visits(cp, base, path[k], path[k + 1])
  }

  ghost predicate Reaches(cp: Classpath, base: Table, there: Table, x: Name, m: Name) {
    exists path :: IsTrail(cp, base, there, path) && path[0] == x && path[|path| - 1] == m
  }

  /** What a load of `name` leaves in a table that had `there`. */
  ghost predicate Leaves(cp: Classpath, base: Table, there: Table, name: Name, after: Table) {
    forall m :: m in after <==> m in there || (Loadable(cp, base, m) && Reaches(cp, base, there, name, m))
  }

  // ---------------------------------------------------------------- classes under way

  /** One class asks for the next, and none of them was there from the start. */
  ghost predicate IsChain(cp: Classpath, base: Table, path: seq<Name>) {
    |path| >= 2 && forall k :: 0 <= k < |path| - 1 ==> path[k] !in base && Asks(cp, path[k], path[k + 1])
  }

  ghost predicate Depends(cp: Classpath, base: Table, x: Name, y: Name) {
    exists path :: IsChain(cp, base, path) && path[0] == x && path[|path| - 1] == y
  }

  /** Every class under way is waiting for `name`. */
  ghost predicate UnderWay(cp: Classpath, base: Table, table: Table, name: Name) {
    forall a :: a in table && table[a].status == Loading ==> a !in base && Depends(cp, base, a, name)
  }

  lemma DependsOn(cp: Classpath, base: Table, x: Name, y: Name, z: Name)
    requires Depends(cp, base, x, y) && y !in base && Asks(cp, y, z)
    ensures Depends(cp, base, x, z)
  {
    var path :| IsChain(cp, base, path) && path[0] == x && path[|path| - 1] == y;
    assert IsChain(cp, base, path + [z]);
  }

  lemma DependsAtOnce(cp: Classpath, base: Table, x: Name, y: Name)
    requires x !in base && Asks(cp, x, y)
    ensures Depends(cp, base, x, y)
  {
    assert IsChain(cp, base, [x, y]);
  }

  /** In a derivation a class comes after all it depends on. */
  lemma {:induction false} ChainDescends(cp: Classpath, base: Table, order: seq<Name>, path: seq<Name>, k: nat)
    requires Derivation(cp, base, order) && IsChain(cp, base, path) && k < |path| && path[0] in order
    ensures path[k] in order && Position(order, path[k]) + k <= Position(order, path[0])
  {
    if k > 0 {
      ChainDescends(cp, base, order, path, k - 1);
      var x, y := path[k - 1], path[k];
      assert x !in base && Asks(cp, x, y);
      var i := Position(order, x);
      assert Derives(cp, base, order, i);
      assert y in order[..i];
      var j: nat :| j < i && order[j] == y;
      FirstPosition(order, y, j);
    }
  }

  /** So nothing that a class needs which can be loaded is under way. */
  lemma FreeBefore(cp: Classpath, base: Table, table: Table, order: seq<Name>, name: Name)
    requires Derivation(cp, base, order) && name in order && UnderWay(cp, base, table, name)
    ensures Free(table, order, Position(order, name) + 1)
  {
    var i := Position(order, name);
    forall n | n in order[..i + 1] && n in table ensures Ready(table, n) {
      var j: nat :| j < i + 1 && order[j] == n;
      FirstPosition(order, n, j);
      if table[n].status == Loading {
        var path :| IsChain(cp, base, path) && path[0] == n && path[|path| - 1] == name;
        ChainDescends(cp, base, order, path, |path| - 1);
      }
    }
  }

  /** What every load here starts from. */
  ghost predicate Starts(cp: Classpath, base: Table, table: Table, name: Name) {
    && Honest(cp) && Settled(base) && Inv(cp, table) && Extends(base, table) && UnderWay(cp, base, table, name)
  }

  /** Also in the middle of other loads, a load succeeds exactly for what can be loaded. */
  lemma OkIff(cp: Classpath, base: Table, table: Table, name: Name, fuel: nat)
    requires Starts(cp, base, table, name) && fuel >= Depth(cp, table, name)
    ensures var out := Load(cp, table, name, fuel);
      && Good(cp, table, name, out) && Extends(base, out.table)
      && (out.ok <==> Loadable(cp, base, name))
  {
    LoadWorks(cp, table, name, fuel);
    var out := Load(cp, table, name, fuel);
    GrowsExtends(base, table, out.table);
    if out.ok { LoadedIsLoadable(cp, base, out.table, name); }
    if Loadable(cp, base, name) {
      var order :| Derivation(cp, base, order) && name in order;
      FreeBefore(cp, base, table, order, name);
      LoadSucceeds(cp, base, table, order, Position(order, name), fuel);
    }
  }

  // ---------------------------------------------------------------- trails

  lemma Itself(cp: Classpath, base: Table, there: Table, x: Name)
    ensures Reaches(cp, base, there, x, x)
  {
    assert IsTrail(cp, base, there, [x]);
  }

  /** A trail starts with a visit, or ends at once. */
  lemma FirstVisit(cp: Classpath, base: Table, there: Table, x: Name, m: Name) returns (y: Name)
    requires Reaches(cp, base, there, x, m) && x != m
    ensures x !in there && Visits(cp, base, x, y) && Reaches(cp, base, there, y, m)
  {
    var path :| IsTrail(cp, base, there, path) && path[0] == x && path[|path| - 1] == m;
    y := path[1];
    assert IsTrail(cp, base, there, path[1..]);
  }

  lemma VisitFirst(cp: Classpath, base: Table, there: Table, more: Table, x: Name, y: Name, m: Name)
    requires x !in there && Visits(cp, base, x, y) && Reaches(cp, base, more, y, m) && there.Keys <= more.Keys
    ensures Reaches(cp, base, there, x, m)
  {
    var path :| IsTrail(cp, base, more, path) && path[0] == y && path[|path| - 1] == m;
    var longer := [x] + path;
    forall k | 0 <= k < |longer| - 1 ensures longer[k] !in there && Visits(cp, base, longer[k], longer[k + 1]) {
      if k > 0 { assert longer[k] == path[k - 1] && longer[k + 1] == path[k]; }
    }
    assert IsTrail(cp, base, there, longer);
  }

  /** A trail that comes back to where it started has a shorter one that does not. */
  lemma {:induction false} LeaveForGood(cp: Classpath, base: Table, there: Table, path: seq<Name>, x: Name)
    returns (y: Name)
    requires IsTrail(cp, base, there, path) && path[0] == x && path[|path| - 1] != x
    ensures Visits(cp, base, x, y)
    ensures Reaches(cp, base, there[x := Class(Loading, None, [])], y, path[|path| - 1])
    decreases |path|
  {
    var rest := path[1..];
    if x in rest {
      var k :| 0 <= k < |rest| && rest[k] == x;
      assert IsTrail(cp, base, there, rest[k..]);
      y := LeaveForGood(cp, base, there, rest[k..], x);
    } else {
      y := rest[0];
      forall k | 0 <= k < |rest| - 1
        ensures rest[k] !in there[x := Class(Loading, None, [])] && Visits(cp, base, rest[k], rest[k + 1])
      {
        assert rest[k] == path[k + 1] && rest[k + 1] == path[k + 2];
      }
      assert IsTrail(cp, base, there[x := Class(Loading, None, [])], rest);
    }
  }

  /** From a class that has been loaded, a trail stays among those that have. */
  lemma {:induction false} StaysLoaded(cp: Classpath, base: Table, there: Table, table: Table, path: seq<Name>, k: nat)
    requires Inv(cp, table) && Extends(base, table) && Extends(base, there) && IsTrail(cp, base, there, path)
    requires k < |path| && Ready(table, path[0])
    ensures Ready(table, path[k])
  {
    if k > 0 {
      StaysLoaded(cp, base, there, table, path, k - 1);
      var x, y := path[k - 1], path[k];
      assert x !in there && Visits(cp, base, x, y);
      var order :| Orders(table, order);
      if !IsArray(x) {
        var j: nat :| ComesTo(cp, base, Needs(cp[x]), j) && Needs(cp[x])[j] == y;
      }
      assert y in Refers(table[x]);
      ReferredIsReady(table, order, x, y);
    }
  }

  /** What a trail leads to is there already, or the trail goes through nothing that is. */
  lemma {:induction false} ReachedOrLoaded(cp: Classpath, base: Table, there: Table, table: Table, path: seq<Name>)
    requires Inv(cp, table) && Extends(base, table) && Extends(base, there) && IsTrail(cp, base, there, path)
    requires forall n :: n in table && n !in there ==> Ready(table, n)
    ensures path[|path| - 1] in table || Reaches(cp, base, table, path[0], path[|path| - 1])
    decreases |path|
  {
    if |path| == 1 {
      Itself(cp, base, table, path[0]);
    } else if path[0] in table {
      StaysLoaded(cp, base, there, table, path, |path| - 1);
    } else {
      var rest := path[1..];
      assert IsTrail(cp, base, there, rest);
      ReachedOrLoaded(cp, base, there, table, rest);
      assert rest[|rest| - 1] == path[|path| - 1] && rest[0] == path[1];
      if rest[|rest| - 1] !in table { VisitFirst(cp, base, table, table, path[0], rest[0], rest[|rest| - 1]); }
    }
  }

  // ---------------------------------------------------------------- the loop over the needs

  /** What the loop over the needs of a class has entered when it has come to position `i`. */
  ghost predicate SoFar(cp: Classpath, base: Table, there: Table, needs: seq<Name>, i: nat, table: Table) {
    forall m :: m in table <==>
      m in there || (Loadable(cp, base, m) && ReachedBefore(cp, base, there, needs, i, m))
  }

  ghost predicate ReachedBefore(cp: Classpath, base: Table, there: Table, needs: seq<Name>, i: nat, m: Name) {
    exists j: nat :: j < i && ComesTo(cp, base, needs, j) && Reaches(cp, base, there, needs[j], m)
  }

  lemma OneMoreNeed(cp: Classpath, base: Table, there: Table, needs: seq<Name>, i: nat, table: Table, table': Table)
    requires Inv(cp, table) && Extends(base, table) && Extends(base, there) && Grows(there, table)
    requires ComesTo(cp, base, needs, i) && SoFar(cp, base, there, needs, i, table)
    requires Leaves(cp, base, table, needs[i], table')
    ensures SoFar(cp, base, there, needs, i + 1, table')
  {
    forall m ensures m in table' <==>
      m in there || (Loadable(cp, base, m) && ReachedBefore(cp, base, there, needs, i + 1, m))
    {
      if Loadable(cp, base, m) && ReachedBefore(cp, base, there, needs, i + 1, m) {
        NeedIsThere(cp, base, there, needs, i, table, table', m);
      }
      if m in table' && m !in there {
        NeedWasReached(cp, base, there, needs, i, table, table', m);
      }
    }
  }

  lemma NeedIsThere(cp: Classpath, base: Table, there: Table, needs: seq<Name>, i: nat, table: Table, table': Table,
                    m: Name)
    requires Inv(cp, table) && Extends(base, table) && Extends(base, there) && Grows(there, table)
    requires SoFar(cp, base, there, needs, i, table)
    requires Loadable(cp, base, m) && ReachedBefore(cp, base, there, needs, i + 1, m)
    requires i < |needs| && Leaves(cp, base, table, needs[i], table')
    ensures m in table'
  {
    var j: nat :| j < i + 1 && ComesTo(cp, base, needs, j) && Reaches(cp, base, there, needs[j], m);
    if j < i {
      assert ReachedBefore(cp, base, there, needs, i, m);
      assert m in table;
    } else {
      var path :| IsTrail(cp, base, there, path) && path[0] == needs[i] && path[|path| - 1] == m;
      ReachedOrLoaded(cp, base, there, table, path);
    }
  }

  lemma NeedWasReached(cp: Classpath, base: Table, there: Table, needs: seq<Name>, i: nat, table: Table, table': Table,
                       m: Name)
    requires Grows(there, table) && ComesTo(cp, base, needs, i) && SoFar(cp, base, there, needs, i, table)
    requires Leaves(cp, base, table, needs[i], table') && m in table' && m !in there
    ensures Loadable(cp, base, m) && ReachedBefore(cp, base, there, needs, i + 1, m)
  {
    if m in table {
      assert ReachedBefore(cp, base, there, needs, i, m);
    } else {
      var path :| IsTrail(cp, base, table, path) && path[0] == needs[i] && path[|path| - 1] == m;
      assert IsTrail(cp, base, there, path);
      assert Reaches(cp, base, there, needs[i], m);
    }
  }

  /** The class `x` under way asks for its needs, one after the other. */
  lemma NeedStarts(cp: Classpath, base: Table, table: Table, there: Table, t: Table, x: Name, i: nat)
    requires Honest(cp) && Settled(base) && x !in table && !IsArray(x) && x in cp && cp[x].header
    requires Extends(base, table) && UnderWay(cp, base, table, x) && there == table[x := Class(Loading, None, [])]
    requires Inv(cp, t) && Extends(base, t) && Grows(there, t) && i < |Needs(cp[x])|
    ensures Starts(cp, base, t, Needs(cp[x])[i])
  {
    var y := Needs(cp[x])[i];
    forall a | a in t && t[a].status == Loading ensures a !in base && Depends(cp, base, a, y) {
      if a == x {
        DependsAtOnce(cp, base, x, y);
      } else {
        assert a in there && a in table && table[a] == t[a];
        DependsOn(cp, base, a, x, y);
      }
    }
  }

  /** When the loop has ended, it has come to the positions before `i`, which are all or end with one that failed. */
  ghost predicate LoopEnded(cp: Classpath, base: Table, needs: seq<Name>, i: nat, ok: bool) {
    && i <= |needs|
    && (ok ==> i == |needs|)
    && (!ok ==> 0 < i && !Loadable(cp, base, needs[i - 1]))
  }

  /** The loop over the needs of `x`, which is under way in `there`, when it has come to position `i`. */
  ghost predicate Loop(cp: Classpath, base: Table, table: Table, there: Table, t: Table, x: Name, i: nat) {
    && Honest(cp) && Settled(base) && x !in table && !IsArray(x) && x in cp && cp[x].header
    && Extends(base, table) && UnderWay(cp, base, table, x)
    && there == table[x := Class(Loading, None, [])] && Extends(base, there)
    && Inv(cp, t) && Extends(base, t) && Grows(there, t) && i <= |Needs(cp[x])|
    && SoFar(cp, base, there, Needs(cp[x]), i, t)
    && forall k :: 0 <= k < i ==> Loadable(cp, base, Needs(cp[x])[k])
  }

  lemma LoopGoesOn(cp: Classpath, base: Table, table: Table, there: Table, t: Table, x: Name, i: nat, out: Outcome)
    requires Loop(cp, base, table, there, t, x, i) && i < |Needs(cp[x])|
    requires out.Done? && Good(cp, t, Needs(cp[x])[i], out) && Extends(base, out.table)
    requires out.ok <==> Loadable(cp, base, Needs(cp[x])[i])
    requires Leaves(cp, base, t, Needs(cp[x])[i], out.table)
    ensures SoFar(cp, base, there, Needs(cp[x]), i + 1, out.table)
    ensures out.ok ==> Loop(cp, base, table, there, out.table, x, i + 1)
  {
    OneMoreNeed(cp, base, there, Needs(cp[x]), i, t, out.table);
    GrowsOn(there, t, out.table);
  }

  lemma GrowsOn(a: Table, b: Table, c: Table)
    requires Grows(a, b) && Grows(b, c)
    ensures Grows(a, c)
  {
  }

  /** The first of the names decides how it goes on. */
  lemma AllSplits(cp: Classpath, t: Table, needs: seq<Name>, i: nat, fuel: nat)
    requires i < |needs|
    ensures LoadAll(cp, t, needs[i..], fuel) ==
      match Load(cp, t, needs[i], fuel)
      case OutOfFuel => OutOfFuel
      case Done(t', ok) => if ok then LoadAll(cp, t', needs[i + 1..], fuel) else Done(t', false)
  {
    assert needs[i..][0] == needs[i] && needs[i..][1..] == needs[i + 1..];
  }

  lemma {:induction false} NeedsLeave(cp: Classpath, base: Table, table: Table, there: Table, t: Table, x: Name, i: nat,
                                      fuel: nat)
    returns (n: nat)
    requires Loop(cp, base, table, there, t, x, i) && fuel >= 2 * |Unloaded(cp, t)| + 2
    ensures var out := LoadAll(cp, t, Needs(cp[x])[i..], fuel);
      && out.Done? && SoFar(cp, base, there, Needs(cp[x]), n, out.table)
      && LoopEnded(cp, base, Needs(cp[x]), n, out.ok)
    decreases fuel, 2, |Needs(cp[x])| - i
  {
    n := i;
    if i < |Needs(cp[x])| {
      n := i + 1;
      var out := Load(cp, t, Needs(cp[x])[i], fuel);
      assert out.Done? && SoFar(cp, base, there, Needs(cp[x]), i + 1, out.table)
        && (out.ok <==> Loadable(cp, base, Needs(cp[x])[i]))
        && (out.ok ==> Loop(cp, base, table, there, out.table, x, i + 1))
        && t.Keys <= out.table.Keys
      by {
        var o := NeedLeaves(cp, base, table, there, t, x, i, fuel);
        LoopGoesOn(cp, base, table, there, t, x, i, o);
      }
      AllSplits(cp, t, Needs(cp[x]), i, fuel);
      if out.ok {
        UnloadedShrinks(cp, t, out.table);
        n := NeedsLeave(cp, base, table, there, out.table, x, i + 1, fuel);
      }
    }
  }

  lemma {:induction false} NeedLeaves(cp: Classpath, base: Table, table: Table, there: Table, t: Table, x: Name, i: nat,
                                      fuel: nat)
    returns (out: Outcome)
    requires Loop(cp, base, table, there, t, x, i) && i < |Needs(cp[x])| && fuel >= 2 * |Unloaded(cp, t)| + 2
    ensures out == Load(cp, t, Needs(cp[x])[i], fuel)
    ensures out.Done? && Good(cp, t, Needs(cp[x])[i], out) && Extends(base, out.table)
    ensures out.ok <==> Loadable(cp, base, Needs(cp[x])[i])
    ensures Leaves(cp, base, t, Needs(cp[x])[i], out.table)
    decreases fuel, 2, 0
  {
    NeedStarts(cp, base, table, there, t, x, i);
    OkIff(cp, base, t, Needs(cp[x])[i], fuel);
    TableAfter(cp, base, t, Needs(cp[x])[i], fuel);
    out := Load(cp, t, Needs(cp[x])[i], fuel);
  }

  // ---------------------------------------------------------------- a whole load

  /** A class file: what its needs have left, and the class itself if it can be loaded. */
  lemma FileLeaves(cp: Classpath, base: Table, table: Table, x: Name, t: Table, after: Table, n: nat, ok: bool)
    requires x !in table && !IsArray(x) && x in cp && cp[x].header
    requires var there := table[x := Class(Loading, None, [])];
      SoFar(cp, base, there, Needs(cp[x]), n, t) && LoopEnded(cp, base, Needs(cp[x]), n, ok)
    requires forall m :: m in after <==> if m == x then Loadable(cp, base, x) else m in t
    ensures Leaves(cp, base, table, x, after)
  {
    var there := table[x := Class(Loading, None, [])];
    Itself(cp, base, table, x);
    forall m | m != x ensures m in t <==> m in table || (Loadable(cp, base, m) && Reaches(cp, base, table, x, m)) {
      if m in t && m !in table {
        var j: nat :| j < n && ComesTo(cp, base, Needs(cp[x]), j) && Reaches(cp, base, there, Needs(cp[x])[j], m);
        VisitFirst(cp, base, table, there, x, Needs(cp[x])[j], m);
      }
      if Loadable(cp, base, m) && Reaches(cp, base, table, x, m) {
        var path :| IsTrail(cp, base, table, path) && path[0] == x && path[|path| - 1] == m;
        var y := LeaveForGood(cp, base, table, path, x);
        var j: nat :| ComesTo(cp, base, Needs(cp[x]), j) && Needs(cp[x])[j] == y;
        assert j < n;
        assert ReachedBefore(cp, base, there, Needs(cp[x]), n, m);
      }
    }
  }

  /** A name that nothing can be found under, or whose file is not well formed. */
  lemma NothingLeft(cp: Classpath, base: Table, table: Table, name: Name)
    requires name !in table && !IsArray(name) && (name in cp ==> !cp[name].header) && Extends(base, table)
    ensures Leaves(cp, base, table, name, table)
  {
    NotLoadable(cp, base, name);
    forall m | m != name ensures !Reaches(cp, base, table, name, m) { NoTrail(cp, base, table, name, m); }
  }

  lemma NotLoadable(cp: Classpath, base: Table, name: Name)
    requires name !in base && !IsArray(name) && (name in cp ==> !cp[name].header)
    ensures !Loadable(cp, base, name)
  {
    forall order | name in order ensures !Derivation(cp, base, order) {
      assert !Derives(cp, base, order, Position(order, name));
    }
  }

  lemma NoTrail(cp: Classpath, base: Table, there: Table, name: Name, m: Name)
    requires !IsArray(name) && (name in cp ==> !cp[name].header) && m != name
    ensures !Reaches(cp, base, there, name, m)
  {
    forall path | path != [] && path[0] == name && path[|path| - 1] == m ensures !IsTrail(cp, base, there, path) {
      assert !Visits(cp, base, path[0], path[1]);
    }
  }

  lemma ArrayLeaves(cp: Classpath, base: Table, table: Table, name: Name, t: Table, after: Table)
    requires IsArray(name) && name !in table && Leaves(cp, base, table, OBJECT, t)
    requires forall m :: m in after <==> m in t || (m == name && Loadable(cp, base, name))
    ensures Leaves(cp, base, table, name, after)
  {
    Itself(cp, base, table, name);
    forall m ensures m in after <==> m in table || (Loadable(cp, base, m) && Reaches(cp, base, table, name, m)) {
      if m in t && m !in table { VisitFirst(cp, base, table, table, name, OBJECT, m); }
      if m != name && Loadable(cp, base, m) && Reaches(cp, base, table, name, m) {
        var y := FirstVisit(cp, base, table, name, m);
      }
    }
  }

  lemma ThereAlready(cp: Classpath, base: Table, table: Table, name: Name)
    requires name in table
    ensures Leaves(cp, base, table, name, table)
  {
    forall m | Reaches(cp, base, table, name, m) ensures m in table {
      if m != name { var y := FirstVisit(cp, base, table, name, m); }
    }
  }

  lemma {:induction false} TableAfter(cp: Classpath, base: Table, table: Table, name: Name, fuel: nat)
    requires Starts(cp, base, table, name) && fuel >= Depth(cp, table, name)
    ensures var out := Load(cp, table, name, fuel); out.Done? && Leaves(cp, base, table, name, out.table)
    decreases fuel, 1, 0
  {
    if name in table {
      ThereAlready(cp, base, table, name);
    } else if IsArray(name) {
      ArrayAfter(cp, base, table, name, fuel);
    } else if name !in cp || !cp[name].header {
      NothingLeft(cp, base, table, name);
    } else {
      FileAfter(cp, base, table, name, fuel);
    }
  }

  lemma {:induction false} ArrayAfter(cp: Classpath, base: Table, table: Table, name: Name, fuel: nat)
    requires Starts(cp, base, table, name) && fuel >= Depth(cp, table, name) && name !in table && IsArray(name)
    ensures var out := Load(cp, table, name, fuel); out.Done? && Leaves(cp, base, table, name, out.table)
    decreases fuel, 0, 0
  {
    var t, out := Load(cp, table, OBJECT, fuel - 1), Load(cp, table, name, fuel);
    assert out.Done? && (out.ok <==> Loadable(cp, base, name)) by { OkIff(cp, base, table, name, fuel); }
    assert t.Done? && Leaves(cp, base, table, OBJECT, t.table) by {
      ObjectStarts(cp, base, table, name);
      TableAfter(cp, base, table, OBJECT, fuel - 1);
    }
    ArrayLeaves(cp, base, table, name, t.table, out.table);
  }

  lemma ObjectStarts(cp: Classpath, base: Table, table: Table, name: Name)
    requires Starts(cp, base, table, name) && IsArray(name) && name !in table
    ensures Starts(cp, base, table, OBJECT)
  {
    forall a | a in table && table[a].status == Loading ensures a !in base && Depends(cp, base, a, OBJECT) {
      DependsOn(cp, base, a, name, OBJECT);
    }
  }

  lemma {:induction false} FileAfter(cp: Classpath, base: Table, table: Table, name: Name, fuel: nat)
    requires Starts(cp, base, table, name) && fuel >= Depth(cp, table, name)
    requires name !in table && !IsArray(name) && name in cp && cp[name].header
    ensures var out := Load(cp, table, name, fuel); out.Done? && Leaves(cp, base, table, name, out.table)
    decreases fuel, 0, 0
  {
    assert var out := Load(cp, table, name, fuel); out.Done? && (out.ok <==> Loadable(cp, base, name)) by {
      OkIff(cp, base, table, name, fuel);
    }
    var n := FileLoop(cp, base, table, table[name := Class(Loading, None, [])], name, fuel);
    FileEnds(cp, base, table, name, fuel, n);
  }

  lemma {:induction false} FileLoop(cp: Classpath, base: Table, table: Table, there: Table, name: Name, fuel: nat)
    returns (n: nat)
    requires Starts(cp, base, table, name) && there == table[name := Class(Loading, None, [])]
    requires name !in table && !IsArray(name) && name in cp && cp[name].header && fuel >= Depth(cp, table, name)
    ensures var all := LoadAll(cp, there, Needs(cp[name]), fuel - 1);
      && all.Done? && SoFar(cp, base, there, Needs(cp[name]), n, all.table)
      && LoopEnded(cp, base, Needs(cp[name]), n, all.ok)
    decreases fuel - 1, 3, 0
  {
    LoopStarts(cp, base, table, there, name);
    n := NeedsLeave(cp, base, table, there, there, name, 0, fuel - 1);
    assert Needs(cp[name])[0..] == Needs(cp[name]);
  }

  lemma LoopStarts(cp: Classpath, base: Table, table: Table, there: Table, name: Name)
    requires Starts(cp, base, table, name) && there == table[name := Class(Loading, None, [])]
    requires name !in table && !IsArray(name) && name in cp && cp[name].header
    ensures Loop(cp, base, table, there, there, name, 0) && |Unloaded(cp, there)| < |Unloaded(cp, table)|
  {
    EnterWorks(cp, table, name);
    assert SoFar(cp, base, there, Needs(cp[name]), 0, there);
  }

  lemma FileEnds(cp: Classpath, base: Table, table: Table, name: Name, fuel: nat, n: nat)
    requires name !in table && !IsArray(name) && name in cp && cp[name].header && cp[name].name == name && fuel > 0
    requires var there := table[name := Class(Loading, None, [])];
      var all := LoadAll(cp, there, Needs(cp[name]), fuel - 1);
      all.Done? && SoFar(cp, base, there, Needs(cp[name]), n, all.table)
      && LoopEnded(cp, base, Needs(cp[name]), n, all.ok)
    requires var out := Load(cp, table, name, fuel); out.Done? && (out.ok <==> Loadable(cp, base, name))
    ensures Leaves(cp, base, table, name, Load(cp, table, name, fuel).table)
  {
    var all := LoadAll(cp, table[name := Class(Loading, None, [])], Needs(cp[name]), fuel - 1);
    FileLeaves(cp, base, table, name, all.table, Load(cp, table, name, fuel).table, n, all.ok);
  }

  /**
    After any request, from any table that requests leave, exactly those classes have been
    added that can be loaded and that the load has come to: from the class asked for, and
    from each class on the way that was not there, to its superclass and its interfaces up to
    the first that cannot be loaded.
   */
  lemma RequestLeaves(cp: Classpath, table: Table, name: Name)
    requires Honest(cp) && Inv(cp, table) && Settled(table)
    ensures Loads(cp, table, name).Done?
    ensures forall m :: m in Loads(cp, table, name).table <==>
      m in table || (Loadable(cp, table, m) && Reaches(cp, table, table, name, m))
  {
    LoadWorks(cp, table, name, Depth(cp, table, name));
    TableAfter(cp, table, table, name, Depth(cp, table, name));
  }

  /** In particular, what a class needs and can be loaded stays when the class fails for a later one. */
  lemma FailureKeepsNeeds(cp: Classpath, table: Table, name: Name, j: nat)
    requires Honest(cp) && Inv(cp, table) && Settled(table)
    requires name !in table && name in cp && !IsArray(name) && cp[name].header
    requires j < |Needs(cp[name])| && forall i :: 0 <= i <= j ==> Loadable(cp, table, Needs(cp[name])[i])
    ensures var out := Loads(cp, table, name); out.Done? && Needs(cp[name])[j] in out.table
  {
    var y := Needs(cp[name])[j];
    RequestLeaves(cp, table, name);
    assert ComesTo(cp, table, Needs(cp[name]), j);
    Itself(cp, table, table, y);
    VisitFirst(cp, table, table, table, name, y, y);
  }
}
