/**
  What the arrays that `newArray` creates take of eden (mm.c:31-78, classfile.c:13-60), from
  their component type and their sizes alone.
 */
module ArrayExtents {
  import opened Collections
  import opened Heap
  import opened JavaTypes
  import opened SlotTypes
  import opened Wrappers
  import opened ObjectCreation

  /** The component types of section 4.3.2 of the JVMS; `Of` is a class, an interface or an array type. */
  datatype Component = Simple(p: Primitive) | Of(name: string) {
    /** The name of its class, which for a primitive type is the letter of the type. */
    function ClassName(): string { if Simple? then [p.Letter()] else name }

    /** The bytes of an element; a reference is a slot. */
    function Width(): nat { if Simple? then p.Width() else 4 }
  }

  /** Of `n` dimensions all but the last hold references. */
  function WidthAt(n: nat, comp: Component): nat { if n == 1 then comp.Width() else 4 }

  /** A class whose name is one letter is taken for a primitive type (classfile.c:22-24). */
  predicate Proper(comp: Component) { comp.Of? ==> |comp.name| != 1 }

  /**
    The code finds the width of the elements from the second letter of the array's name.  That
    is right if and only if the component is not a class with a name of one letter, in an
    array of one dimension, for which another width would be found.
   */
  lemma ElementSizeExact(n: nat, comp: Component)
    requires n >= 1
    ensures ElementSize(ArrayName(n, comp.ClassName())) == WidthAt(n, comp) <==>
      n > 1 || Proper(comp) || comp.name[0] in {'I', 'F', 'L', '['}
  {
    var name := comp.ClassName();
    assert ArrayName(n, name)[0] == '[';
    if n == 1 {
      assert Brackets(1) == "[";
      assert ArrayName(1, name)[1] == if IsArrayClass(name) || IsPrimitiveClass(name) then name[0] else 'L';
    } else {
      assert ArrayName(n, name)[1] == Brackets(n)[1] == '[';
    }
  }

  /** What is no array has no elements. */
  lemma NoArrayHasNone(name: string)
    ensures name == [] || name[0] != '[' ==> ElementSize(name) == 0
  {
  }

  /** An array of a class called J takes eight bytes for each reference, one of a class called P none. */
  lemma OneLetterClassIsMistaken()
    ensures ElementSize(ArrayName(1, Of("J").ClassName())) == 8 && ElementSize(ArrayName(1, Of("P").ClassName())) == 0
  {
    assert Brackets(1) == "[";
    assert ArrayName(1, "J") == "[J" && ArrayName(1, "P") == "[P";
  }

  // ---------------------------------------------------------------- the extents, in the order of creation

  /** The byte counts of the arrays of a tree, outermost first. */
  function Lengths(sizes: seq<int>, comp: Component): seq<int>
    decreases |sizes|, 1, 0
  {
    if sizes == [] then []
    else
      [HEADER + WidthAt(|sizes|, comp) * sizes[0]] +
        if |sizes| == 1 then [] else LengthsAll(sizes[0], sizes[1..], comp)
  }

  function LengthsAll(n: int, sizes: seq<int>, comp: Component): seq<int>
    decreases |sizes|, 2, n
  {
    if n <= 0 then [] else Lengths(sizes, comp) + LengthsAll(n - 1, sizes, comp)
  }

  lemma {:induction false} LengthsCount(sizes: seq<int>, comp: Component)
    ensures |Lengths(sizes, comp)| == Count(sizes)
    decreases |sizes|, 1, 0
  {
    if |sizes| > 1 { LengthsAllCount(sizes[0], sizes[1..], comp); }
  }

  lemma {:induction false} LengthsAllCount(n: int, sizes: seq<int>, comp: Component)
    ensures |LengthsAll(n, sizes, comp)| == CountAll(n, sizes)
    decreases |sizes|, 2, n
  {
    if n > 0 {
      LengthsCount(sizes, comp);
      LengthsAllCount(n - 1, sizes, comp);
    }
  }

  /** Extents of these sizes have been added to eden. */
  predicate Added(before: seq<Extent>, after: seq<Extent>, lengths: seq<int>) {
    && |after| == |before| + |lengths|
    && forall i {:trigger lengths[i]} :: 0 <= i < |lengths| ==> after[|before| + i].size == lengths[i]
  }

  /** Nothing that was there has been moved. */
  predicate Grown(before: seq<Extent>, after: seq<Extent>) {
    |before| <= |after| && forall i {:trigger after[i]} :: 0 <= i < |before| ==> after[i] == before[i]
  }

  lemma AddedBoth(a: seq<Extent>, b: seq<Extent>, c: seq<Extent>, xs: seq<int>, ys: seq<int>)
    requires Added(a, b, xs) && Added(b, c, ys) && Grown(b, c)
    ensures Added(a, c, xs + ys)
  {
    forall i | 0 <= i < |xs + ys| ensures c[|a| + i].size == (xs + ys)[i] {
      if i < |xs| {
        assert b[|a| + i].size == xs[i] && c[|a| + i] == b[|a| + i];
      } else {
        assert c[|b| + (i - |xs|)].size == ys[i - |xs|];
      }
    }
  }

  /** What the code allocates for the outermost array. */
  lemma OutermostAdded(m: Memory, sizes: seq<int>, c: Config, comp: Component)
    requires Ready(m) && sizes != [] && NonNegative(sizes) && InRange(sizes, c.cls) && c.cls == comp.ClassName()
    requires Proper(comp) && Round(ElementBytes(sizes, c.cls)) <= Free(m)
    ensures var m1 := Outermost(m, sizes, c);
      && Grown(m.eden.objects, m1.eden.objects)
      && Added(m.eden.objects, m1.eden.objects, [HEADER + WidthAt(|sizes|, comp) * sizes[0]])
  {
    ElementSizeExact(|sizes|, comp);
    OneExtent(m.eden, ElementBytes(sizes, c.cls), c.releases);
  }

  lemma {:induction false} ArrayAdds(m: Memory, sizes: seq<int>, c: Config, comp: Component)
    requires Ready(m) && sizes != [] && NonNegative(sizes) && InRange(sizes, c.cls)
    requires c.cls == comp.ClassName() && Proper(comp) && NewArray(m, sizes, c).1 != 0
    ensures var m' := NewArray(m, sizes, c).0;
      Grown(m.eden.objects, m'.eden.objects) && Added(m.eden.objects, m'.eden.objects, Lengths(sizes, comp))
    decreases |sizes|, 1, 0
  {
    NewArrayWorks(m, sizes, c);
    EnoughForOutermost(m, sizes, c);
    GoesOn(m, sizes, c);
    OutermostAdded(m, sizes, c, comp);
    var m1 := Outermost(m, sizes, c);
    if |sizes| > 1 {
      var (m2, _, ok) := NewArrays(m1, sizes[0], sizes[1..], c);
      assert ok;
      ArraysAdd(m1, sizes[0], sizes[1..], c, comp);
      AddedBoth(m.eden.objects, m1.eden.objects, m2.eden.objects,
        [HEADER + WidthAt(|sizes|, comp) * sizes[0]], LengthsAll(sizes[0], sizes[1..], comp));
    }
  }

  lemma EnoughForOutermost(m: Memory, sizes: seq<int>, c: Config)
    requires sizes != [] && NonNegative(sizes) && InRange(sizes, c.cls) && Enough(m, sizes, c)
    ensures Supply(m.slots) != [] && ArrayName(|sizes|, c.cls) in c.loads
    ensures Round(ElementBytes(sizes, c.cls)) <= Free(m)
  {
    OutermostTakes(sizes, c.cls);
  }

  /** The tree takes a slot, and at least the bytes of its outermost array. */
  lemma OutermostTakes(sizes: seq<int>, cls: string)
    requires sizes != [] && NonNegative(sizes) && InRange(sizes, cls)
    ensures Count(sizes) >= 1 && Round(ElementBytes(sizes, cls)) <= Bytes(sizes, cls)
  {
  }

  lemma {:induction false} ArraysAdd(m: Memory, n: int, sizes: seq<int>, c: Config, comp: Component)
    requires Ready(m) && sizes != [] && NonNegative(sizes) && InRange(sizes, c.cls) && n >= 0
    requires c.cls == comp.ClassName() && Proper(comp) && NewArrays(m, n, sizes, c).2
    ensures var m' := NewArrays(m, n, sizes, c).0;
      Grown(m.eden.objects, m'.eden.objects) && Added(m.eden.objects, m'.eden.objects, LengthsAll(n, sizes, comp))
    decreases |sizes|, 2, n
  {
    if n > 0 {
      var (m1, slot) := NewArray(m, sizes, c);
      assert slot != 0;
      NewArrayWorks(m, sizes, c);
      ArrayAdds(m, sizes, c, comp);
      ArraysAdd(m1, n - 1, sizes, c, comp);
      var m2 := NewArrays(m1, n - 1, sizes, c).0;
      AddedBoth(m.eden.objects, m1.eden.objects, m2.eden.objects, Lengths(sizes, comp),
        LengthsAll(n - 1, sizes, comp));
    }
  }

  // ---------------------------------------------------------------- the tree

  /** An extent of eden lies at `place` and has that many bytes. */
  predicate Takes(e: Eden, place: Word, bytes: int) {
    exists i :: 0 <= i < |e.objects| && e.objects[i].at == place && e.objects[i].size == bytes
  }

  /**
    Followed from its slot through the table and the elements, every array of the tree has an
    extent for its header and exactly its elements.
   */
  predicate Roomy(m: Memory, slot: Slot, sizes: seq<int>, comp: Component)
    decreases |sizes|, 1, 0
  {
    && sizes != [] && slot in m.table && m.table[slot] in m.objects
    && Takes(m.eden, m.table[slot], HEADER + WidthAt(|sizes|, comp) * sizes[0])
    && (|sizes| > 1 ==>
          var o := m.objects[m.table[slot]];
          |o.elements| == sizes[0] && forall k :: 0 <= k < |o.elements| ==> Roomy(m, o.elements[k], sizes[1..], comp))
  }

  /** The slots lead to extents of these sizes. */
  ghost predicate Lead(m: Memory, taken: seq<Slot>, lengths: seq<int>) {
    && |taken| == |lengths|
    && forall i {:trigger taken[i]} :: 0 <= i < |taken| ==>
         taken[i] in m.table && Takes(m.eden, m.table[taken[i]], lengths[i])
  }

  lemma LeadParts(m: Memory, taken: seq<Slot>, lengths: seq<int>, n: nat, a: seq<int>, b: seq<int>)
    requires Lead(m, taken, lengths) && lengths == a + b && n == |a|
    ensures n <= |taken| && Lead(m, taken[..n], a) && Lead(m, taken[n..], b)
  {
    forall i | 0 <= i < |b| ensures taken[n..][i] in m.table && Takes(m.eden, m.table[taken[n..][i]], b[i]) {
      assert taken[n..][i] == taken[n + i] && lengths[n + i] == b[i];
    }
    forall i | 0 <= i < |a| ensures taken[..n][i] in m.table && Takes(m.eden, m.table[taken[..n][i]], a[i]) {
      assert taken[..n][i] == taken[i] && lengths[i] == a[i];
    }
  }

  lemma {:induction false} BuiltIsRoomy(m: Memory, slot: Slot, sizes: seq<int>, comp: Component, taken: seq<Slot>,
                                        lo: int)
    requires NonNegative(sizes) && Built(m, slot, sizes, comp.ClassName(), taken, lo)
    requires Lead(m, taken, Lengths(sizes, comp))
    ensures Roomy(m, slot, sizes, comp)
    decreases |sizes|, 1, 0
  {
    var o := m.objects[m.table[slot]];
    var rest := if |sizes| == 1 then [] else LengthsAll(sizes[0], sizes[1..], comp);
    LeadParts(m, taken, Lengths(sizes, comp), 1, [HEADER + WidthAt(|sizes|, comp) * sizes[0]], rest);
    assert taken[..1][0] == slot;
    if |sizes| > 1 { AllAreRoomy(m, o.elements, sizes[1..], comp, taken[1..], lo); }
  }

  lemma {:induction false} AllAreRoomy(m: Memory, elements: seq<Slot>, sizes: seq<int>, comp: Component,
                                       taken: seq<Slot>, lo: int)
    requires sizes != [] && NonNegative(sizes) && BuiltAll(m, elements, sizes, comp.ClassName(), taken, lo)
    requires Lead(m, taken, LengthsAll(|elements|, sizes, comp))
    ensures forall k :: 0 <= k < |elements| ==> Roomy(m, elements[k], sizes, comp)
    decreases |sizes|, 2, |elements|
  {
    if elements != [] {
      LengthsCount(sizes, comp);
      LeadParts(m, taken, LengthsAll(|elements|, sizes, comp), Count(sizes), Lengths(sizes, comp),
        LengthsAll(|elements| - 1, sizes, comp));
      BuiltIsRoomy(m, elements[0], sizes, comp, taken[..Count(sizes)], lo);
      AllAreRoomy(m, elements[1..], sizes, comp, taken[Count(sizes)..], lo);
      forall k | 0 <= k < |elements| ensures Roomy(m, elements[k], sizes, comp) {
        assert k > 0 ==> elements[k] == elements[1..][k - 1];
      }
    }
  }

  lemma TakenLead(m: Memory, m': Memory, taken: seq<Slot>, lengths: seq<int>)
    requires Placed(m, m', taken) && Added(m.eden.objects, m'.eden.objects, lengths)
    ensures Lead(m', taken, lengths)
  {
    var n := |m.eden.objects|;
    forall i | 0 <= i < |taken| ensures taken[i] in m'.table && Takes(m'.eden, m'.table[taken[i]], lengths[i]) {
      assert m'.eden.objects[n + i].size == lengths[i];
      assert m'.eden.objects[n + i].at == m'.table[taken[i]];
    }
  }

  /**
    A successful call for any component type gives every array of the tree room for its header
    and as many elements of the right width as it has.
   */
  lemma ArraysAreRoomy(m: Memory, sizes: seq<int>, c: Config, comp: Component)
    requires Ready(m) && sizes != [] && NonNegative(sizes) && InRange(sizes, c.cls)
    requires c.cls == comp.ClassName() && Proper(comp) && NewArray(m, sizes, c).1 != 0
    ensures Roomy(NewArray(m, sizes, c).0, NewArray(m, sizes, c).1, sizes, comp)
  {
    var (m', slot) := NewArray(m, sizes, c);
    NewArrayWorks(m, sizes, c);
    var taken := Supply(m.slots)[..Count(sizes)];
    ArrayAdds(m, sizes, c, comp);
    TakenLead(m, m', taken, Lengths(sizes, comp));
    BuiltIsRoomy(m', slot, sizes, comp, taken, m.eden.next);
  }

  /** The elements of an array with such an extent are apart from each other and its header, and inside it. */
  lemma ElementsApart(place: int, width: nat, n: nat, i: nat, j: nat)
    requires i < j < n
    ensures var first := place + HEADER;
      && place + HEADER <= first + width * i && first + width * i + width <= first + width * j
      && first + width * j + width <= place + (HEADER + width * n)
  {
    Scaled(width, i, j);
    Scaled(width, j, n);
  }

  lemma Scaled(width: nat, i: nat, j: nat)
    requires i < j
    ensures 0 <= width * i && width * i + width <= width * j
  {
    var d := j - i - 1;
    assert width * (i + 1 + d) == width * i + width + width * d;
  }
}
