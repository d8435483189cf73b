/**
  The heap's regions and the bump allocation in eden (heap.c:12-104, main.c:76-79).

  Positions are offsets from the start of the heap, and `size_t` has 64 bits.  `releases`
  selects what a failing allocation does with `allocationMutex`: as written (lines 62 and 90)
  it returns holding it; in the evident intent it unlocks it first.  A collection does not
  change eden: the collector's body is empty in gc.c.
 */
module Heap {
  import opened Wrappers

  const WORD_MODULUS: nat := 0x1_0000_0000_0000_0000

  type Word = x: int | 0 <= x < WORD_MODULUS

  // ---------------------------------------------------------------- the four regions

  datatype Regions = Regions(edenSize: nat, youngSize: nat, oldSize: nat) {
    function Young1(): nat { edenSize }
    function Young2(): nat { Young1() + youngSize }
    function Old(): nat { Young2() + youngSize }
    function End(): nat { Old() + oldSize }
  }

  /** `initHeap`. */
  function InitHeap(maxHeap: Word): Regions { Regions(maxHeap / 4, maxHeap / 4 / 2, maxHeap / 2) }

  /**
    The regions stay inside the mapping, and fill it if and only if its size is a multiple of
    eight; then the old generation is half of it, eden a quarter, and each half of the young
    generation as large as the other.
   */
  lemma RegionsTileIff(maxHeap: Word)
    ensures InitHeap(maxHeap).End() <= maxHeap
    ensures InitHeap(maxHeap).End() == maxHeap <==> maxHeap % 8 == 0
    ensures maxHeap % 8 == 0 ==>
      var r := InitHeap(maxHeap);
      && r.End() - r.Old() == r.Old() && r.Young1() == r.Old() - r.Young1()
      && r.Young2() - r.Young1() == r.Old() - r.Young2()
  {
    var q, r := maxHeap / 8, maxHeap % 8;
    assert maxHeap == 8 * q + r && maxHeap / 4 == 2 * q + r / 4 && maxHeap / 4 / 2 == q && maxHeap / 2 == 4 * q + r / 2;
  }

  lemma Eighths(x: nat, y: nat)
    requires x == 8 * y
    ensures x % 8 == 0
  {
  }

  /**
    The option -Xmx admits multiples of 4096 only, so eden's size is a multiple of eight,
    and the regions fill the heap.
   */
  lemma AdmittedHeap(maxHeap: Word)
    requires maxHeap % 4096 == 0
    ensures InitHeap(maxHeap).edenSize % 8 == 0 && InitHeap(maxHeap).edenSize < WORD_MODULUS - 8
    ensures InitHeap(maxHeap).End() == maxHeap
  {
    var q := maxHeap / 4096;
    Eighths(1024 * q, 128 * q);
    Eighths(maxHeap, 512 * q);
    RegionsTileIff(maxHeap);
  }

  // ---------------------------------------------------------------- bump allocation

  /** `ALIGN`, and addition, in 64 bits. */
  function Align(x: Word): Word {
    if x + 7 >= WORD_MODULUS then 0 else (x + 7) / 8 * 8
  }

  function Add(x: Word, y: Word): Word { if x + y >= WORD_MODULUS then x + y - WORD_MODULUS else x + y }

  function Subtract(x: Word, y: Word): Word { if x < y then x - y + WORD_MODULUS else x - y }

  datatype Extent = Extent(at: Word, size: Word)

  /** Eden, who-knows-who holding the mutex, and the objects handed out so far. */
  datatype Eden = Eden(size: Word, next: Word, held: bool, objects: seq<Extent>)

  /** `allocateObject` and `allocateArrayObject` for a total of `size` bytes. */
  function Allocate(e: Eden, size: Word, releases: bool): (Eden, Option<Word>) {
    if Subtract(e.size, e.next) < size then (e.(held := !releases), None)
    else (e.(next := Add(e.next, Align(size)), objects := e.objects + [Extent(e.next, size)]), Some(e.next))
  }

  function Start(edenSize: Word): Eden { Eden(edenSize, 0, false, []) }

  /** `edens` is a run of allocations, by any threads; the mutex keeps each one whole. */
  ghost predicate IsRun(edens: seq<Eden>, sizes: seq<Word>, releases: bool) {
    && |edens| == |sizes| + 1 && edens[0] == Start(edens[0].size)
    && forall i :: 0 <= i < |sizes| ==> !edens[i].held && edens[i + 1] == Allocate(edens[i], sizes[i], releases).0
  }

  /** Where the next object goes: behind the last one, aligned. */
  function Behind(objects: seq<Extent>): int {
    if objects == [] then 0 else objects[|objects| - 1].at + (objects[|objects| - 1].size + 7) / 8 * 8
  }

  /** Objects lie one behind the other. */
  predicate Packed(objects: seq<Extent>) { forall i: nat :: i < |objects| ==> PackedAt(objects, i) }

  predicate PackedAt(objects: seq<Extent>, i: nat)
    requires i < |objects|
  {
    objects[i].at == Behind(objects[..i])
  }

  predicate Inv(e: Eden) {
    && e.size % 8 == 0 && e.next % 8 == 0 && e.next <= e.size < WORD_MODULUS - 8
    && e.next == Behind(e.objects) && Packed(e.objects)
  }

  /** The least multiple of eight that is not below, in 64 bits: past the largest one it is 0. */
  lemma AlignExact(x: Word)
    ensures Align(x) % 8 == 0
    ensures if x <= WORD_MODULUS - 8 then x <= Align(x) < x + 8 else Align(x) == 0
  {
  }

  lemma AlignFits(free: Word, size: Word)
    requires free % 8 == 0 && size <= free < WORD_MODULUS - 8
    ensures Align(size) == (size + 7) / 8 * 8 && size <= Align(size) <= free && Align(size) % 8 == 0
  {
    assert (size + 7) / 8 <= free / 8;
  }

  lemma AllocateAnswers(e: Eden, size: Word, releases: bool)
    requires Inv(e)
    ensures var (e', obj) := Allocate(e, size, releases);
      && (obj.Some? <==> e.next + size <= e.size)
      && (obj.Some? ==> obj.value == e.next && e.next + size <= e'.next <= e.size)
  {
    if size <= e.size - e.next { AlignFits(e.size - e.next, size); }
  }

  lemma AllocateKeeps(e: Eden, size: Word, releases: bool)
    requires Inv(e)
    ensures Inv(Allocate(e, size, releases).0)
  {
    if size <= e.size - e.next {
      AlignFits(e.size - e.next, size);
      var e' := Allocate(e, size, releases).0;
      forall i: nat | i < |e'.objects| ensures PackedAt(e'.objects, i) {
        if i < |e.objects| {
          assert PackedAt(e.objects, i) && e'.objects[..i] == e.objects[..i];
        } else {
          assert e'.objects[..i] == e.objects;
        }
      }
    }
  }

  lemma {:induction false} InvAlways(edens: seq<Eden>, sizes: seq<Word>, releases: bool, i: nat)
    requires IsRun(edens, sizes, releases) && i < |edens|
    requires edens[0].size % 8 == 0 && edens[0].size < WORD_MODULUS - 8
    ensures Inv(edens[i]) && edens[i].size == edens[0].size
  {
    if i > 0 {
      InvAlways(edens, sizes, releases, i - 1);
      AllocateKeeps(edens[i - 1], sizes[i - 1], releases);
    }
  }

  lemma {:induction false} PackedApart(objects: seq<Extent>, i: nat, j: nat)
    requires Packed(objects) && i < j <= |objects|
    ensures objects[i].at + objects[i].size <= Behind(objects[..j])
    ensures Behind(objects[..i]) % 8 == 0 ==> objects[i].at % 8 == 0
  {
    assert PackedAt(objects, i);
    if j == i + 1 {
      assert objects[..j][|objects[..j]| - 1] == objects[i];
    } else {
      PackedApart(objects, i, j - 1);
      assert PackedAt(objects, j - 1) && objects[..j][|objects[..j]| - 1] == objects[j - 1];
    }
  }

  lemma {:induction false} BehindAligned(objects: seq<Extent>, j: nat)
    requires Packed(objects) && j <= |objects|
    ensures Behind(objects[..j]) % 8 == 0
  {
    if j > 0 {
      assert PackedAt(objects, j - 1) && objects[..j][|objects[..j]| - 1] == objects[j - 1];
      BehindAligned(objects, j - 1);
    }
  }

  /** In every run, objects are 8-aligned, pairwise apart and inside eden. */
  lemma ObjectsApart(edens: seq<Eden>, sizes: seq<Word>, releases: bool, k: nat, i: nat, j: nat)
    requires IsRun(edens, sizes, releases) && k < |edens|
    requires edens[0].size % 8 == 0 && edens[0].size < WORD_MODULUS - 8
    requires i < j < |edens[k].objects|
    ensures var o := edens[k].objects;
      && o[i].at % 8 == 0 && o[j].at % 8 == 0
      && o[i].at + o[i].size <= o[j].at
      && o[j].at + o[j].size <= edens[k].next <= edens[0].size
  {
    InvAlways(edens, sizes, releases, k);
    var o := edens[k].objects;
    assert PackedAt(o, i) && PackedAt(o, j);
    PackedApart(o, i, j);
    PackedApart(o, j, |o|);
    assert o[..|o|] == o;
    BehindAligned(o, i);
    BehindAligned(o, j);
  }

  /** The next position stays inside eden, in every run, if and only if eden's size is a multiple of eight. */
  lemma EdenInBoundsIff(edenSize: Word, releases: bool)
    requires edenSize < WORD_MODULUS - 8
    ensures edenSize % 8 == 0 <==>
      (forall edens: seq<Eden>, sizes: seq<Word> :: IsRun(edens, sizes, releases) && edens[0].size == edenSize ==>
          edens[|sizes|].next <= edenSize)
  {
    if edenSize % 8 == 0 {
      forall edens: seq<Eden>, sizes: seq<Word> | IsRun(edens, sizes, releases) && edens[0].size == edenSize
        ensures edens[|sizes|].next <= edenSize
      {
        InvAlways(edens, sizes, releases, |sizes|);
      }
    } else {
      var e := Start(edenSize);
      var edens, sizes := [e, Allocate(e, edenSize, releases).0], [edenSize];
      assert IsRun(edens, sizes, releases) && edens[0].size == edenSize;
      assert (edenSize + 7) / 8 * 8 > edenSize;
      assert edens[|sizes|].next > edenSize;
    }
  }

  // ---------------------------------------------------------------- a failing allocation

  /** What becomes of a request: a place, NULL, or no return from `pthread_mutex_lock`. */
  datatype Answer = Given(place: Word) | Refused | Waiting

  /** The requests of any threads, one after the other. */
  function Answers(e: Eden, sizes: seq<Word>, releases: bool): seq<Answer>
    decreases |sizes|
  {
    if sizes == [] then []
    else if e.held then [Waiting] + Answers(e, sizes[1..], releases)
    else
      var (e', place) := Allocate(e, sizes[0], releases);
      [if place.Some? then Given(place.value) else Refused] + Answers(e', sizes[1..], releases)
  }

  /** The same requests, each answered by its size and by what was given before. */
  function BySize(edenSize: nat, next: nat, sizes: seq<Word>): seq<Answer>
    requires next <= edenSize < WORD_MODULUS - 8 && next % 8 == 0 && edenSize % 8 == 0
    decreases |sizes|
  {
    if sizes == [] then []
    else if sizes[0] > edenSize - next then [Refused] + BySize(edenSize, next, sizes[1..])
    else
      AlignFits(edenSize - next, sizes[0]);
      [Given(next)] + BySize(edenSize, next + (sizes[0] + 7) / 8 * 8, sizes[1..])
  }

  lemma {:induction false} BySizeLength(edenSize: nat, next: nat, sizes: seq<Word>)
    requires next <= edenSize < WORD_MODULUS - 8 && next % 8 == 0 && edenSize % 8 == 0
    ensures |BySize(edenSize, next, sizes)| == |sizes|
    decreases |sizes|
  {
    if sizes != [] {
      if sizes[0] > edenSize - next {
        BySizeLength(edenSize, next, sizes[1..]);
      } else {
        AlignFits(edenSize - next, sizes[0]);
        BySizeLength(edenSize, next + (sizes[0] + 7) / 8 * 8, sizes[1..]);
      }
    }
  }

  /** Some request that is not the last is refused. */
  predicate RefusedEarly(answers: seq<Answer>) { exists i :: 0 <= i < |answers| - 1 && answers[i].Refused? }

  lemma RefusedEarlyCons(a: Answer, rest: seq<Answer>)
    ensures RefusedEarly([a] + rest) <==> (a.Refused? && rest != []) || RefusedEarly(rest)
  {
    var all := [a] + rest;
    if a.Refused? && rest != [] { assert all[0].Refused?; }
    if RefusedEarly(rest) { var i :| 0 <= i < |rest| - 1 && rest[i].Refused?; assert all[i + 1].Refused?; }
    if RefusedEarly(all) && !a.Refused? { var i :| 0 <= i < |all| - 1 && all[i].Refused?; assert rest[i - 1].Refused?; }
  }

  lemma {:induction false} AnswersFrom(e: Eden, sizes: seq<Word>, releases: bool)
    requires Inv(e) && !e.held
    ensures Answers(e, sizes, releases) == BySize(e.size, e.next, sizes)
      <==> releases || !RefusedEarly(BySize(e.size, e.next, sizes))
    decreases |sizes|
  {
    if sizes != [] {
      var (e', place) := Allocate(e, sizes[0], releases);
      AllocateKeeps(e, sizes[0], releases);
      if place.Some? {
        AlignFits(e.size - e.next, sizes[0]);
        AnswersFrom(e', sizes[1..], releases);
        RefusedEarlyCons(Given(e.next), BySize(e.size, e'.next, sizes[1..]));
        SameTail(Given(e.next), Answers(e', sizes[1..], releases), BySize(e.size, e'.next, sizes[1..]));
      } else {
        RefusedEarlyCons(Refused, BySize(e.size, e.next, sizes[1..]));
        BySizeLength(e.size, e.next, sizes[1..]);
        SameTail(Refused, Answers(e', sizes[1..], releases), BySize(e.size, e.next, sizes[1..]));
        if releases {
          AnswersFrom(e, sizes[1..], releases);
        } else if |sizes| > 1 {
          NeverWaiting(e.size, e.next, sizes[1..]);
          assert Answers(e', sizes[1..], releases)[0] == Waiting;
        }
      }
    }
  }

  lemma SameTail(a: Answer, r: seq<Answer>, s: seq<Answer>)
    ensures [a] + r == [a] + s <==> r == s
  {
    assert ([a] + r)[1..] == r && ([a] + s)[1..] == s;
  }

  lemma NeverWaiting(edenSize: nat, next: nat, sizes: seq<Word>)
    requires next <= edenSize < WORD_MODULUS - 8 && next % 8 == 0 && edenSize % 8 == 0 && sizes != []
    ensures BySize(edenSize, next, sizes) != [] && BySize(edenSize, next, sizes)[0] != Waiting
  {
    if sizes[0] <= edenSize - next { AlignFits(edenSize - next, sizes[0]); }
  }

  /**
    Every request is given a place or refused on its size alone, after whatever requests, if
    and only if the mutex is released by a failing one or none but the last one fails.
   */
  lemma AnsweredBySizeIff(edenSize: Word, sizes: seq<Word>, releases: bool)
    requires edenSize % 8 == 0 && edenSize < WORD_MODULUS - 8
    ensures Answers(Start(edenSize), sizes, releases) == BySize(edenSize, 0, sizes)
      <==> releases || !RefusedEarly(BySize(edenSize, 0, sizes))
  {
    assert Packed(Start(edenSize).objects);
    AnswersFrom(Start(edenSize), sizes, releases);
  }

  /** A request for more than there is makes every later one wait, even for a single byte. */
  lemma FailureBlocksOthers(edenSize: Word, more: Word)
    requires 8 <= edenSize < WORD_MODULUS - 8 && edenSize % 8 == 0 && edenSize < more
    ensures Answers(Start(edenSize), [more, 1], false) == [Refused, Waiting]
    ensures BySize(edenSize, 0, [more, 1]) == [Refused, Given(0)]
  {
    var e := Start(edenSize);
    var e' := Allocate(e, more, false).0;
    assert e'.held && Answers(e', [1], false) == [Waiting];
    assert [more, 1][1..] == [1] && BySize(edenSize, 0, [1]) == [Given(0)];
  }

  // ---------------------------------------------------------------- the heap object

  const INT_LIMIT: int := 0x8000_0000

  /** Line 78: the product is an `int`, which is sign-extended before the addition. */
  function ArrayBytes(objectSize: Word, elementSize: nat, numElements: int): Word
    requires objectSize < 0x1_0000 && -INT_LIMIT <= elementSize * numElements < INT_LIMIT
  {
    var bytes := objectSize + elementSize * numElements;
    if bytes < 0 then bytes + WORD_MODULUS else bytes
  }

  /**
    An array of non-negative length has room for its header and elements.  One of negative
    length gets less than its header, or asks for more than any eden has.
   */
  lemma ArrayFits(objectSize: Word, elementSize: nat, numElements: int)
    requires objectSize < 0x1_0000 && -INT_LIMIT <= elementSize * numElements < INT_LIMIT && elementSize > 0
    ensures var bytes := ArrayBytes(objectSize, elementSize, numElements);
      && (numElements >= 0 ==> bytes == objectSize + elementSize * numElements)
      && (numElements < 0 ==> bytes < objectSize || bytes >= WORD_MODULUS - INT_LIMIT)
  {
    if numElements < 0 {
      assert elementSize * numElements <= elementSize * -1 < 0;
    } else {
      assert elementSize * numElements >= 0;
    }
  }

  class Heap {
    const regions: Regions
    const releases: bool
    var eden: Eden

    ghost predicate Valid()
      reads this
    {
      Inv(eden) && eden.size == regions.edenSize
    }

    constructor (maxHeap: Word, releases: bool)
      requires maxHeap % 4096 == 0
      ensures Valid() && regions == InitHeap(maxHeap) && this.releases == releases
      ensures eden == Start(regions.edenSize) && regions.End() == maxHeap
    {
      AdmittedHeap(maxHeap);
      var r := InitHeap(maxHeap);
      regions := r;
      this.releases := releases;
      eden := Start(r.edenSize);
    }

    /** Both allocation methods, for a total of `size` bytes; the two collections in between leave eden as it is. */
    method Bump(size: Word) returns (obj: Option<Word>)
      requires Valid() && !eden.held
      modifies this
      ensures Valid() && (eden, obj) == Allocate(old(eden), size, releases)
      ensures obj.Some? <==> old(eden).next + size <= regions.edenSize
      ensures obj.Some? ==> obj.value == old(eden).next && obj.value + size <= eden.next <= regions.edenSize
    {
      AllocateKeeps(eden, size, releases);
      AllocateAnswers(eden, size, releases);
      if Subtract(eden.size, eden.next) < size {
        eden := eden.(held := !releases);
        return None;
      }
      obj := Some(eden.next);
      eden := eden.(next := Add(eden.next, Align(size)), objects := eden.objects + [Extent(eden.next, size)]);
    }

    method AllocateArrayObject(objectSize: Word, elementSize: nat, numElements: int) returns (obj: Option<Word>)
      requires Valid() && !eden.held && objectSize < 0x1_0000
      requires -INT_LIMIT <= elementSize * numElements < INT_LIMIT
      modifies this
      ensures Valid() && (eden, obj) == Allocate(old(eden), ArrayBytes(objectSize, elementSize, numElements), releases)
    {
      obj := Bump(ArrayBytes(objectSize, elementSize, numElements));
    }
  }
}
