/** Big-endian integers, as the class-file readers and the operand readers see them. */
module Bytes {
  import opened Collections

  type Byte = x: int | 0 <= x < 256

  predicate IsInt32(x: int) { -0x8000_0000 <= x < 0x8000_0000 }

  /** What a signed 32-bit register holds after a shift that carried a one into the sign bit. */
  function Wrap32(x: int): (r: int)
    requires -0x8000_0000 <= x < 0x1_0000_0000
    ensures IsInt32(r)
  {
    if x >= 0x8000_0000 then x - 0x1_0000_0000 else x
  }

  /** How many values `n` bytes can hold. */
  function Capacity(n: nat): (c: nat)
    ensures c > 0
  {
    if n == 0 then 1 else 256 * Capacity(n - 1)
  }

  /** `u` in `n` bytes, most significant first. */
  function Digits(u: nat, n: nat): (b: seq<Byte>)
    ensures |b| == n
  {
    if n == 0 then [] else Digits(u / 256, n - 1) + [u % 256]
  }

  /** `readu1` to `readu8`: the `n` bytes at `at`, shifted one after the other into an unsigned register. */
  function Value(code: seq<Byte>, at: nat, n: nat): (u: nat)
    requires at + n <= |code|
    ensures u < Capacity(n)
  {
    if n == 0 then 0 else Value(code, at, n - 1) * 256 + code[at + n - 1]
  }

  /** Reading inverts printing for every width. */
  lemma {:induction false} ValueOfDigits(code: seq<Byte>, at: nat, u: nat, n: nat)
    requires at + n <= |code| && code[at..at + n] == Digits(u, n) && u < Capacity(n)
    ensures Value(code, at, n) == u
  {
    if n > 0 {
      var b := code[at..at + n];
      assert b[n - 1] == code[at + n - 1] && code[at..at + (n - 1)] == b[..n - 1] == Digits(u / 256, n - 1);
      ValueOfDigits(code, at, u / 256, n - 1);
    }
  }

  /** Four parts, one behind the other. */
  lemma HoldsFour(data: seq<Byte>, at: nat, a: seq<Byte>, b: seq<Byte>, c: seq<Byte>, d: seq<Byte>, p: nat, q: nat,
                  r: nat)
    requires Holds(data, at, a + (b + (c + d))) && p == at + |a| && q == p + |b| && r == q + |c|
    ensures Holds(data, at, a) && Holds(data, p, b) && Holds(data, q, c) && Holds(data, r, d)
  {
    HoldsParts(data, at, a, b + (c + d));
    HoldsParts(data, p, b, c + d);
    HoldsParts(data, q, c, d);
  }

  /** A printed number reads back wherever it is found. */
  lemma HoldsValue(data: seq<Byte>, at: nat, u: nat, n: nat)
    requires Holds(data, at, Digits(u, n)) && u < Capacity(n)
    ensures at + n <= |data| && Value(data, at, n) == u
  {
    ValueOfDigits(data, at, u, n);
  }

  /** Two bytes, the more significant first. */
  lemma ShortValue(data: seq<Byte>, at: nat)
    requires at + 2 <= |data|
    ensures Value(data, at, 2) == 256 * (data[at] as int) + data[at + 1] as int
  {
    assert Value(data, at, 1) == data[at] as int;
  }

  lemma LongValue(data: seq<Byte>, at: nat)
    requires at + 4 <= |data| && data[at] == data[at + 1] == data[at + 2] == 0
    ensures Value(data, at, 4) == data[at + 3]
  {
    ShortValue(data, at);
    assert Value(data, at, 3) == 0;
  }

  /** The bytes from `at` on, one by one. */
  predicate Shows(data: seq<Byte>, at: nat, bytes: seq<Byte>) {
    at + |bytes| <= |data| && forall i {:trigger bytes[i]} :: 0 <= i < |bytes| ==> data[at + i] == bytes[i]
  }

  lemma TwoShown(data: seq<Byte>, at: nat, b: seq<Byte>)
    requires Shows(data, at, b) && |b| == 2
    ensures at + 2 <= |data| && Value(data, at, 2) == 256 * (b[0] as int) + b[1] as int
  {
    assert data[at + 0] == b[0] && data[at + 1] == b[1];
    ShortValue(data, at);
  }

  lemma FourShown(data: seq<Byte>, at: nat, b: seq<Byte>)
    requires Shows(data, at, b) && |b| == 4 && b[0] == b[1] == b[2] == 0
    ensures at + 4 <= |data| && Value(data, at, 4) == b[3]
  {
    assert data[at + 0] == b[0] && data[at + 1] == b[1] && data[at + 2] == b[2] && data[at + 3] == b[3];
    LongValue(data, at);
  }

  /** `x` as four bytes in two's complement. */
  function EncodeInt(x: int): (b: seq<Byte>)
    requires IsInt32(x)
    ensures |b| == 4
  {
    Digits(if x < 0 then x + 0x1_0000_0000 else x, 4)
  }

  /** The `n` bytes at `at`, shifted one after the other into a signed 32-bit register. */
  function Shift(code: seq<Byte>, at: nat, n: nat): (x: int)
    requires n <= 4 && at + n <= |code|
    ensures n == 0 ==> x == 0
    ensures n <= 1 ==> 0 <= x < 0x100
    ensures n <= 2 ==> 0 <= x < 0x1_0000
    ensures n <= 3 ==> 0 <= x < 0x100_0000
    ensures IsInt32(x)
  {
    if n == 0 then 0 else Wrap32(Shift(code, at, n - 1) * 256 + code[at + n - 1])
  }

  /** `readIntOperand`. */
  function ReadInt(code: seq<Byte>, at: nat): (x: int)
    requires at + 4 <= |code|
  {
    Shift(code, at, 4)
  }

  /** The sign bit is all that tells the signed register from the unsigned one. */
  lemma {:induction false} ShiftIsValue(code: seq<Byte>, at: nat, n: nat)
    requires n <= 4 && at + n <= |code|
    ensures Value(code, at, n) < 0x1_0000_0000 && Shift(code, at, n) == Wrap32(Value(code, at, n))
  {
    if n > 0 {
      ShiftIsValue(code, at, n - 1);
    }
  }

  /** Reading inverts encoding, sign included. */
  lemma ReadsEncoded(code: seq<Byte>, at: nat, x: int)
    requires at + 4 <= |code| && IsInt32(x) && code[at..at + 4] == EncodeInt(x)
    ensures ReadInt(code, at) == x
  {
    ValueOfDigits(code, at, if x < 0 then x + 0x1_0000_0000 else x, 4);
    ShiftIsValue(code, at, 4);
  }

  lemma SliceSplits(a: seq<Byte>, i: nat, n: nat)
    requires 0 < n && i + n <= |a|
    ensures a[i..i + n][n - 1] == a[i + n - 1] && a[i..i + n][..n - 1] == a[i..i + (n - 1)]
  {
  }

  /** The same bytes read the same anywhere. */
  lemma {:induction false} ShiftSame(a: seq<Byte>, i: nat, b: seq<Byte>, j: nat, n: nat)
    requires n <= 4 && i + n <= |a| && j + n <= |b| && a[i..i + n] == b[j..j + n]
    ensures Shift(a, i, n) == Shift(b, j, n)
  {
    if n > 0 {
      SliceSplits(a, i, n);
      SliceSplits(b, j, n);
      ShiftSame(a, i, b, j, n - 1);
    }
  }

  predicate AllInt32(xs: seq<int>) { forall i :: 0 <= i < |xs| ==> IsInt32(xs[i]) }

  /** A table of integers, one after the other. */
  function EncodeInts(xs: seq<int>): (b: seq<Byte>)
    requires AllInt32(xs)
    ensures |b| == 4 * |xs|
  {
    if xs == [] then [] else EncodeInt(xs[0]) + EncodeInts(xs[1..])
  }

  lemma {:induction false} EncodedEntry(xs: seq<int>, i: nat)
    requires i < |xs| && AllInt32(xs)
    ensures EncodeInts(xs)[4 * i..4 * i + 4] == EncodeInt(xs[i])
  {
    var b, rest := EncodeInts(xs), EncodeInts(xs[1..]);
    if i == 0 {
      assert b[0..4] == EncodeInt(xs[0]);
    } else {
      EncodedEntry(xs[1..], i - 1);
      assert b[4 * i..4 * i + 4] == rest[4 * (i - 1)..4 * (i - 1) + 4];
    }
  }

  /** Where a block placed somewhere in a sequence is found. */
  lemma BlockAt(code: seq<Byte>, before: seq<Byte>, block: seq<Byte>, after: seq<Byte>, from: nat, to: nat)
    requires code == before + block + after && from <= to <= |block|
    ensures |before| + to <= |code| && code[|before| + from..|before| + to] == block[from..to]
  {
  }

  /** An entry of an encoded table reads back. */
  lemma ReadsEntry(code: seq<Byte>, before: seq<Byte>, xs: seq<int>, after: seq<Byte>, i: nat)
    requires AllInt32(xs) && code == before + EncodeInts(xs) + after && i < |xs|
    ensures |before| + 4 * i + 4 <= |code| && ReadInt(code, |before| + 4 * i) == xs[i]
  {
    BlockAt(code, before, EncodeInts(xs), after, 4 * i, 4 * i + 4);
    EncodedEntry(xs, i);
    var at := |before| + 4 * i;
    assert code[at..at + 4] == EncodeInt(xs[i]);
    ReadsEncoded(code, at, xs[i]);
  }
}
