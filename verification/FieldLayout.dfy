/**
  Where a class puts its fields (classloader.c:178-181, 272, 282 and 334-350, dataTypes.c:44-50).

  `objectSize` and `staticDataSize` are 16 bits wide, so the sums below are taken modulo
  `RANGE`, as the code takes them.
 */
module FieldLayout {

  const RANGE: nat := 0x1_0000

  datatype Field = Field(descriptor: string, isStatic: bool, objectOffset: nat)

  /** `getSizeOfTypeFromFieldDescriptor`: references are slots, long and double take eight bytes, the rest four. */
  function SizeOf(descriptor: string): (size: nat)
    ensures size == 4 || size == 8
  {
    if |descriptor| > 1 then 4 else if descriptor == "J" || descriptor == "D" then 8 else 4
  }

  function Size(f: Field): (size: nat)
    ensures size == 4 || size == 8
  {
    SizeOf(f.descriptor)
  }

  /** `fieldCompare`. */
  function FieldCompare(a: Field, b: Field): int { Size(b) - Size(a) }

  /** What `qsort` leaves, whatever it does with fields of the same size. */
  predicate Sorted(fields: seq<Field>) {
    forall i, j :: 0 <= i < j < |fields| ==> FieldCompare(fields[i], fields[j]) <= 0
  }

  /** The largest fields come first. */
  lemma SortedIsDescending(fields: seq<Field>)
    ensures Sorted(fields) <==> forall i, j :: 0 <= i < j < |fields| ==> Size(fields[i]) >= Size(fields[j])
  {
  }

  /** The bytes that the static, or the instance, fields take. */
  function Total(fields: seq<Field>, isStatic: bool): nat {
    if fields == [] then 0
    else
      var last := fields[|fields| - 1];
      Total(fields[..|fields| - 1], isStatic) + if last.isStatic == isStatic then Size(last) else 0
  }

  /** What a 16-bit register keeps of a sum. */
  function Wrap(n: nat): (r: nat)
    ensures r < RANGE && (n < RANGE ==> r == n)
  {
    if n < RANGE then n else Wrap(n - RANGE)
  }

  lemma {:induction false} WrapAdd(n: nat, k: nat)
    ensures Wrap(Wrap(n) + k) == Wrap(n + k)
  {
    if n >= RANGE {
      WrapAdd(n - RANGE, k);
    }
  }

  function Start(superSize: nat, isStatic: bool): nat { if isStatic then 0 else superSize }

  /** The place of field `i`: after the fields of its kind before it. */
  function Offset(fields: seq<Field>, superSize: nat, i: nat): nat
    requires i < |fields|
  {
    Wrap(Start(superSize, fields[i].isStatic) + Total(fields[..i], fields[i].isStatic))
  }

  /** The size of a class whose superclass has size `superSize`. */
  function ObjectSize(fields: seq<Field>, superSize: nat): nat { Wrap(superSize + Total(fields, false)) }

  function StaticSize(fields: seq<Field>): nat { Wrap(Total(fields, true)) }

  predicate PlacedAt(before: Field, after: Field, offset: nat) { after == before.(objectOffset := offset) }

  ghost function Places(fields: seq<Field>, superSize: nat): (places: seq<nat>)
    ensures |places| == |fields| && forall i: nat :: i < |fields| ==> places[i] == Offset(fields, superSize, i)
  {
    seq(|fields|, i requires 0 <= i < |fields| => Offset(fields, superSize, i))
  }

  /** What one more field adds to the two registers. */
  lemma OneMore(fields: seq<Field>, start: nat, isStatic: bool, i: nat)
    requires i < |fields|
    ensures Wrap(start + Total(fields[..i + 1], isStatic)) ==
      if fields[i].isStatic == isStatic then Wrap(Wrap(start + Total(fields[..i], isStatic)) + Size(fields[i]))
      else Wrap(start + Total(fields[..i], isStatic))
  {
    assert fields[..i + 1][..i] == fields[..i];
    WrapAdd(start + Total(fields[..i], isStatic), Size(fields[i]));
  }

  /** The registers after `i` fields. */
  predicate Registers(fields: seq<Field>, superSize: nat, i: nat, objectSize: nat, staticDataSize: nat)
    requires i <= |fields|
  {
    objectSize == ObjectSize(fields[..i], superSize) && staticDataSize == StaticSize(fields[..i])
  }

  lemma NextRegisters(fields: seq<Field>, superSize: nat, i: nat, objectSize: nat, staticDataSize: nat)
    requires i < |fields| && Registers(fields, superSize, i, objectSize, staticDataSize)
    ensures Offset(fields, superSize, i) == if fields[i].isStatic then staticDataSize else objectSize
    ensures var size := Size(fields[i]);
      if fields[i].isStatic then Registers(fields, superSize, i + 1, objectSize, Wrap(staticDataSize + size))
      else Registers(fields, superSize, i + 1, Wrap(objectSize + size), staticDataSize)
  {
    NextObjectSize(fields, superSize, i);
    NextStaticSize(fields, i);
  }

  lemma NextObjectSize(fields: seq<Field>, superSize: nat, i: nat)
    requires i < |fields|
    ensures ObjectSize(fields[..i + 1], superSize) ==
      if fields[i].isStatic then ObjectSize(fields[..i], superSize)
      else Wrap(ObjectSize(fields[..i], superSize) + Size(fields[i]))
  {
    OneMore(fields, superSize, false, i);
  }

  lemma NextStaticSize(fields: seq<Field>, i: nat)
    requires i < |fields|
    ensures StaticSize(fields[..i + 1]) ==
      if fields[i].isStatic then Wrap(StaticSize(fields[..i]) + Size(fields[i])) else StaticSize(fields[..i])
  {
    OneMore(fields, 0, true, i);
  }

  /** Lines 334-350. */
  method Layout(fields: array<Field>, superSize: nat) returns (objectSize: nat, staticDataSize: nat)
    requires superSize < RANGE
    modifies fields
    ensures forall i :: 0 <= i < fields.Length ==>
      PlacedAt(old(fields[i]), fields[i], Offset(old(fields[..]), superSize, i))
    ensures objectSize == ObjectSize(old(fields[..]), superSize)
    ensures staticDataSize == StaticSize(old(fields[..]))
  {
    ghost var was := fields[..];
    ghost var places := Places(was, superSize);
    staticDataSize := 0;
    objectSize := superSize;
    var i := 0;
    while i < fields.Length
      invariant 0 <= i <= fields.Length
      invariant Registers(was, superSize, i, objectSize, staticDataSize)
      invariant forall j :: 0 <= j < i ==> PlacedAt(was[j], fields[j], places[j])
      invariant forall j :: i <= j < fields.Length ==> fields[j] == was[j]
    {
      NextRegisters(was, superSize, i, objectSize, staticDataSize);
      assert places[i] == Offset(was, superSize, i);
      var field := fields[i];
      if field.isStatic {
        fields[i] := field.(objectOffset := staticDataSize);
        staticDataSize := Wrap(staticDataSize + Size(field));
      } else {
        fields[i] := field.(objectOffset := objectSize);
        objectSize := Wrap(objectSize + Size(field));
      }
      i := i + 1;
    }
    assert was[..i] == was;
    forall j | 0 <= j < fields.Length ensures PlacedAt(was[j], fields[j], Offset(was, superSize, j)) {
      assert PlacedAt(was[j], fields[j], places[j]);
    }
  }

  // ---------------------------------------------------------------- places do not overlap

  /** Field `i` lies between `from` and `to`. */
  predicate Within(fields: seq<Field>, superSize: nat, i: nat, from: nat, to: nat)
    requires i < |fields|
  {
    from <= Offset(fields, superSize, i) && Offset(fields, superSize, i) + Size(fields[i]) <= to
  }

  predicate Disjoint(fields: seq<Field>, superSize: nat, i: nat, j: nat)
    requires i < |fields| && j < |fields|
  {
    || Offset(fields, superSize, i) + Size(fields[i]) <= Offset(fields, superSize, j)
    || Offset(fields, superSize, j) + Size(fields[j]) <= Offset(fields, superSize, i)
  }

  lemma {:induction false} TotalGrows(fields: seq<Field>, isStatic: bool, i: nat, j: nat)
    requires i < j <= |fields|
    ensures Total(fields[..i], isStatic) + (if fields[i].isStatic == isStatic then Size(fields[i]) else 0)
      <= Total(fields[..j], isStatic)
  {
    assert fields[..j][..j - 1] == fields[..j - 1];
    if i < j - 1 {
      TotalGrows(fields, isStatic, i, j - 1);
    }
  }

  /** The fields of a kind are inside their area and apart, when the area's size fits the register. */
  lemma FieldsApart(fields: seq<Field>, superSize: nat, isStatic: bool, i: nat, j: nat)
    requires i < j < |fields| && fields[i].isStatic == fields[j].isStatic == isStatic
    requires Start(superSize, isStatic) + Total(fields, isStatic) < RANGE
    ensures Disjoint(fields, superSize, i, j)
  {
    TotalGrows(fields, isStatic, i, j);
    TotalGrows(fields, isStatic, j, |fields|);
    assert fields[..|fields|] == fields;
  }

  /** All fields of a kind lie inside their area. */
  predicate AllWithin(fields: seq<Field>, superSize: nat, isStatic: bool) {
    forall i: nat :: i < |fields| && fields[i].isStatic == isStatic ==>
      Within(fields, superSize, i, Start(superSize, isStatic),
        Wrap(Start(superSize, isStatic) + Total(fields, isStatic)))
  }

  /** The field whose end first goes past the register's range. */
  lemma {:induction false} Overflowing(fields: seq<Field>, start: nat, isStatic: bool, n: nat) returns (k: nat)
    requires n <= |fields| && start < RANGE && start + Total(fields[..n], isStatic) >= RANGE
    ensures k < n && fields[k].isStatic == isStatic
    ensures start + Total(fields[..k], isStatic) < RANGE
    ensures start + Total(fields[..k], isStatic) + Size(fields[k]) >= RANGE
  {
    assert n > 0 && fields[..n][..n - 1] == fields[..n - 1];
    if start + Total(fields[..n - 1], isStatic) >= RANGE {
      k := Overflowing(fields, start, isStatic, n - 1);
    } else {
      k := n - 1;
    }
  }

  lemma FieldWithin(fields: seq<Field>, superSize: nat, isStatic: bool, i: nat)
    requires i < |fields| && fields[i].isStatic == isStatic
    requires Start(superSize, isStatic) + Total(fields, isStatic) < RANGE
    ensures Within(fields, superSize, i, Start(superSize, isStatic),
      Start(superSize, isStatic) + Total(fields, isStatic))
  {
    TotalGrows(fields, isStatic, i, |fields|);
    assert fields[..|fields|] == fields;
  }

  lemma FieldOutside(fields: seq<Field>, superSize: nat, isStatic: bool) returns (k: nat)
    requires superSize < RANGE && Start(superSize, isStatic) + Total(fields, isStatic) >= RANGE
    ensures k < |fields| && fields[k].isStatic == isStatic
    ensures Offset(fields, superSize, k) + Size(fields[k]) >= RANGE
  {
    assert fields[..|fields|] == fields;
    k := Overflowing(fields, Start(superSize, isStatic), isStatic, |fields|);
  }

  /** The fields of a kind lie inside their area if and only if the area's size fits 16 bits. */
  lemma WithinIff(fields: seq<Field>, superSize: nat, isStatic: bool)
    requires superSize < RANGE
    ensures AllWithin(fields, superSize, isStatic) <==> Start(superSize, isStatic) + Total(fields, isStatic) < RANGE
  {
    if Start(superSize, isStatic) + Total(fields, isStatic) < RANGE {
      forall i: nat | i < |fields| && fields[i].isStatic == isStatic
        ensures Within(fields, superSize, i, Start(superSize, isStatic),
          Start(superSize, isStatic) + Total(fields, isStatic))
      {
        FieldWithin(fields, superSize, isStatic, i);
      }
    } else {
      var k := FieldOutside(fields, superSize, isStatic);
    }
  }

  // ---------------------------------------------------------------- alignment

  /** For the two sizes a field can have. */
  predicate Multiple(n: nat, size: nat) { if size == 8 then n % 8 == 0 else n % 4 == 0 }

  predicate Aligned(fields: seq<Field>, superSize: nat, i: nat)
    requires i < |fields|
  {
    Multiple(Offset(fields, superSize, i), Size(fields[i]))
  }

  lemma {:induction false} LargeFirst(fields: seq<Field>, isStatic: bool, i: nat)
    requires Sorted(fields) && i < |fields| && Size(fields[i]) == 8
    ensures Total(fields[..i], isStatic) % 8 == 0
  {
    if i > 0 {
      assert fields[..i][..i - 1] == fields[..i - 1];
      assert FieldCompare(fields[i - 1], fields[i]) <= 0;
      LargeFirst(fields, isStatic, i - 1);
    }
  }

  /** Wrapping takes away a multiple of eight. */
  lemma {:induction false} WrapAligned(n: nat) returns (q: nat)
    ensures n == Wrap(n) + 8 * q
  {
    if n < RANGE {
      q := 0;
    } else {
      q := WrapAligned(n - RANGE);
      q := q + 0x2000;
    }
  }

  lemma {:induction false} TotalOfFours(fields: seq<Field>, isStatic: bool)
    ensures Total(fields, isStatic) % 4 == 0
  {
    if fields != [] {
      TotalOfFours(fields[..|fields| - 1], isStatic);
    }
  }

  lemma SameModuloEight(w: nat, n: nat, k: int)
    requires w == n + 8 * k
    ensures w % 8 == n % 8
  {
    SameQuotient(w, w / 8, w % 8, n / 8, n % 8, k, 8);
  }

  lemma SameModuloFour(w: nat, n: nat, k: int)
    requires w == n + 4 * k
    ensures w % 4 == n % 4
  {
    SameQuotient(w, w / 4, w % 4, n / 4, n % 4, k, 4);
  }

  lemma SameQuotient(w: int, p: int, r: int, q: int, s: int, k: int, m: int)
    requires 0 <= r < m && 0 <= s < m && (m == 4 || m == 8)
    requires m == 8 ==> w == 8 * p + r == 8 * q + s + 8 * k
    requires m == 4 ==> w == 4 * p + r == 4 * q + s + 4 * k
    ensures r == s
  {
  }

  lemma SumAligned(start: nat, total: nat, size: nat)
    requires start % 4 == 0 && total % 4 == 0 && (size == 4 || (size == 8 && total % 8 == 0))
    ensures Multiple(Wrap(start + total), size) <==> start % 8 == 0 || size == 4
  {
    var q := WrapAligned(start + total);
    if size == 8 {
      SameModuloEight(Wrap(start + total), start, total / 8 - q);
    } else {
      SameModuloFour(Wrap(start + total), start, total / 4 - 2 * q);
    }
  }

  /** A field is aligned exactly when its area starts at a multiple of eight, or it is a small one. */
  lemma AlignedIff(fields: seq<Field>, superSize: nat, i: nat)
    requires Sorted(fields) && i < |fields| && superSize % 4 == 0
    ensures Aligned(fields, superSize, i) <==> Start(superSize, fields[i].isStatic) % 8 == 0 || Size(fields[i]) == 4
  {
    var kind := fields[i].isStatic;
    TotalOfFours(fields[..i], kind);
    if Size(fields[i]) == 8 {
      LargeFirst(fields, kind, i);
    }
    SumAligned(Start(superSize, kind), Total(fields[..i], kind), Size(fields[i]));
  }

  /** Because of the sort, static fields are naturally aligned. */
  lemma StaticsAligned(fields: seq<Field>, superSize: nat, i: nat)
    requires Sorted(fields) && i < |fields| && fields[i].isStatic
    ensures Aligned(fields, superSize, i)
  {
    assert Offset(fields, superSize, i) == Offset(fields, 0, i);
    AlignedIff(fields, 0, i);
  }

  /**
    Instance fields are naturally aligned if and only if the superclass ends at a multiple
    of eight or no instance field takes eight bytes: nothing is padded.
   */
  lemma InstancesAlignedIff(fields: seq<Field>, superSize: nat)
    requires Sorted(fields) && superSize % 4 == 0
    ensures (forall i: nat :: i < |fields| && !fields[i].isStatic ==> Aligned(fields, superSize, i)) <==>
      (superSize % 8 == 0 || forall i: nat :: i < |fields| && !fields[i].isStatic ==> Size(fields[i]) == 4)
  {
    forall i: nat | i < |fields| && !fields[i].isStatic
      ensures Aligned(fields, superSize, i) <==> superSize % 8 == 0 || Size(fields[i]) == 4
    {
      AlignedIff(fields, superSize, i);
    }
  }

  /** A long behind a superclass with a single int is at a multiple of four only. */
  lemma LongAfterIntIsNotAligned(name: nat)
    ensures var fields := [Field("J", false, name)];
      Sorted(fields) && Offset(fields, 112 + 4, 0) == 116 && !Aligned(fields, 112 + 4, 0)
  {
    var fields := [Field("J", false, name)];
    AlignedIff(fields, 116, 0);
  }

  // ---------------------------------------------------------------- inheritance

  /** The fields of a class after those of its superclasses, the root first. */
  function Inherited(chain: seq<seq<Field>>): seq<Field> {
    if chain == [] then [] else Inherited(chain[..|chain| - 1]) + chain[|chain| - 1]
  }

  /** The size the last class of a chain gets, each starting at the size of the one before. */
  function ChainSize(chain: seq<seq<Field>>, header: nat): nat {
    if chain == [] then header
    else ObjectSize(chain[|chain| - 1], ChainSize(chain[..|chain| - 1], header))
  }

  lemma {:induction false} TotalSplits(a: seq<Field>, b: seq<Field>, isStatic: bool)
    ensures Total(a + b, isStatic) == Total(a, isStatic) + Total(b, isStatic)
  {
    if b == [] {
      assert a + b == a;
    } else {
      assert (a + b)[..|a + b| - 1] == a + b[..|b| - 1];
      TotalSplits(a, b[..|b| - 1], isStatic);
    }
  }

  lemma SizeAppended(above: seq<Field>, own: seq<Field>, header: nat)
    ensures ObjectSize(own, ObjectSize(above, header)) == ObjectSize(above + own, header)
  {
    TotalSplits(above, own, false);
    WrapAdd(header + Total(above, false), Total(own, false));
  }

  lemma {:induction false} ChainSizeIsSum(chain: seq<seq<Field>>, header: nat)
    requires header < RANGE
    ensures ChainSize(chain, header) == ObjectSize(Inherited(chain), header)
  {
    if chain != [] {
      var above, own := chain[..|chain| - 1], chain[|chain| - 1];
      ChainSizeIsSum(above, header);
      SizeAppended(Inherited(above), own, header);
    }
  }

  /** A class lays its fields out as if it declared those of its superclasses before its own. */
  lemma ChainIsOneLayout(above: seq<seq<Field>>, own: seq<Field>, header: nat, i: nat)
    requires header < RANGE && i < |own| && !own[i].isStatic
    ensures |Inherited(above + [own])| == |Inherited(above)| + |own|
    ensures Offset(own, ChainSize(above, header), i) == Offset(Inherited(above + [own]), header, |Inherited(above)| + i)
  {
    assert (above + [own])[..|above + [own]| - 1] == above;
    ChainSizeIsSum(above, header);
    AppendedOffset(Inherited(above), own, header, i);
  }

  lemma AppendedOffset(a: seq<Field>, b: seq<Field>, header: nat, i: nat)
    requires i < |b| && !b[i].isStatic
    ensures Offset(b, ObjectSize(a, header), i) == Offset(a + b, header, |a| + i)
  {
    assert (a + b)[..|a| + i] == a + b[..i] && (a + b)[|a| + i] == b[i];
    TotalSplits(a, b[..i], false);
    WrapAdd(header + Total(a, false), Total(b[..i], false));
  }

  /**
    Along an inheritance chain whose fields fit 16 bits, all instance fields are pairwise
    apart and inside the object behind its header, and the size is the exact sum.
   */
  lemma ChainApart(chain: seq<seq<Field>>, header: nat, i: nat, j: nat)
    requires header + Total(Inherited(chain), false) < RANGE
    requires i < j < |Inherited(chain)| && !Inherited(chain)[i].isStatic && !Inherited(chain)[j].isStatic
    ensures Disjoint(Inherited(chain), header, i, j)
    ensures Within(Inherited(chain), header, i, header, ChainSize(chain, header))
    ensures Within(Inherited(chain), header, j, header, ChainSize(chain, header))
    ensures ChainSize(chain, header) == header + Total(Inherited(chain), false)
  {
    ChainSizeIsSum(chain, header);
    FieldsApart(Inherited(chain), header, false, i, j);
    WithinIff(Inherited(chain), header, false);
  }
}
