/** Facts about sets and sequences that several modules use. */
module Collections {

  lemma SubsetSize<T>(a: set<T>, b: set<T>)
    requires a <= b
    ensures |a| <= |b| && (|a| == |b| ==> a == b)
  {
    assert b == a + (b - a);
    assert |b| == |a| + |b - a|;
  }

  predicate Distinct<T(==)>(s: seq<T>) { forall i, j :: 0 <= i < j < |s| ==> s[i] != s[j] }

  function Sum<T>(size: T -> nat, s: seq<T>): nat { if s == [] then 0 else size(s[0]) + Sum(size, s[1..]) }

  lemma {:induction false} SumSame<T>(before: T -> nat, after: T -> nat, s: seq<T>)
    requires forall x :: x in s ==> after(x) == before(x)
    ensures Sum(after, s) == Sum(before, s)
  {
    if s != [] {
      assert s[0] in s;
      SumSame(before, after, s[1..]);
    }
  }

  lemma {:induction false} SumDrops<T>(before: T -> nat, after: T -> nat, s: seq<T>, t: T)
    requires t in s && Distinct(s) && after(t) < before(t)
    requires forall x :: x in s && x != t ==> after(x) == before(x)
    ensures Sum(after, s) < Sum(before, s)
  {
    if s[0] == t {
      SumSame(before, after, s[1..]);
    } else {
      assert s[0] in s;
      SumDrops(before, after, s[1..], t);
    }
  }

  /** The elements `e` are found at `at`. */
  predicate Holds<T(==)>(data: seq<T>, at: nat, e: seq<T>) { at + |e| <= |data| && data[at..at + |e|] == e }

  lemma HoldsParts<T>(data: seq<T>, at: nat, a: seq<T>, b: seq<T>)
    requires Holds(data, at, a + b)
    ensures Holds(data, at, a) && Holds(data, at + |a|, b)
  {
    var s := data[at..at + |a + b|];
    assert s[..|a|] == a && s[|a|..] == b;
    assert data[at..at + |a|] == s[..|a|] && data[at + |a|..at + |a| + |b|] == s[|a|..];
  }
}
