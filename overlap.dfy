/**
 * `bound` and `may_share_memory`, which array.py and compyte/array.py define
 * identically: the byte range spanned by a strided array and the
 * conservative overlap test built on it.
 */
module Overlap {
  import opened Shapes

  /**
   * What the two functions read of an array object: its identity (`is`),
   * its class, its base address `bytes`, shape, strides (in bytes) and
   * itemsize.
   */
  datatype ArrayInfo = ArrayInfo(identity: nat, cls: nat, bytes: int, shape: seq<int>, strides: seq<int>, itemsize: int)

  /** Number of (stride, size) pairs `zip(a.strides, a.shape)` yields. */
  function ZipLen(a: ArrayInfo): nat
  {
    if |a.strides| <= |a.shape| then |a.strides| else |a.shape|
  }

  /** How far `low` moves over the first `n` pairs: the negative strides times `shp - 1`. */
  function LowShift(strides: seq<int>, shape: seq<int>, n: nat): int
    requires n <= |strides| && n <= |shape|
  {
    if n == 0 then 0
    else LowShift(strides, shape, n - 1) + (if strides[n - 1] < 0 then strides[n - 1] * (shape[n - 1] - 1) else 0)
  }

  /** How far `high` moves over the first `n` pairs: the non-negative strides times `shp - 1`. */
  function HighShift(strides: seq<int>, shape: seq<int>, n: nat): int
    requires n <= |strides| && n <= |shape|
  {
    if n == 0 then 0
    else HighShift(strides, shape, n - 1) + (if strides[n - 1] < 0 then 0 else strides[n - 1] * (shape[n - 1] - 1))
  }

  function BoundOf(a: ArrayInfo): (int, int)
  {
    (a.bytes + LowShift(a.strides, a.shape, ZipLen(a)), a.bytes + HighShift(a.strides, a.shape, ZipLen(a)))
  }

  /** `bound`: the loop over `zip(a.strides, a.shape)` moving `low` down and `high` up. */
  method Bound(a: ArrayInfo) returns (low: int, high: int)
    ensures (low, high) == BoundOf(a)
  {
    high := a.bytes;
    low := a.bytes;
    var i := 0;
    while i < ZipLen(a)
      invariant 0 <= i <= ZipLen(a)
      invariant low == a.bytes + LowShift(a.strides, a.shape, i)
      invariant high == a.bytes + HighShift(a.strides, a.shape, i)
    {
      var stri, shp := a.strides[i], a.shape[i];
      if stri < 0 {
        low := low + stri * (shp - 1);
      } else {
        high := high + stri * (shp - 1);
      }
      i := i + 1;
    }
  }

  lemma MulBetween(i: int, n: int, s: int)
    requires 0 <= i < n
    ensures s < 0 ==> s * (n - 1) <= i * s <= 0
    ensures s >= 0 ==> 0 <= i * s <= s * (n - 1)
  {
    if s < 0 {
      assert (n - 1 - i) * s <= 0;
    } else {
      assert (n - 1 - i) * s >= 0;
    }
  }

  /** With no empty axis, `low <= a.bytes <= high`. */
  lemma {:induction false} BoundBracketsBytes(strides: seq<int>, shape: seq<int>, n: nat)
    requires n <= |strides| && n <= |shape|
    requires forall k :: 0 <= k < n ==> shape[k] >= 1
    ensures LowShift(strides, shape, n) <= 0 <= HighShift(strides, shape, n)
  {
    if n > 0 {
      BoundBracketsBytes(strides, shape, n - 1);
      MulBetween(0, shape[n - 1], strides[n - 1]);
    }
  }

  /** Every element's address lies between `low` and `high`. */
  lemma {:induction false} BoundContainsElements(strides: seq<int>, shape: seq<int>, idx: seq<int>)
    requires |strides| == |shape|
    requires InShape(idx, shape)
    ensures LowShift(strides, shape, |shape|) <= Dot(strides, idx) <= HighShift(strides, shape, |shape|)
    decreases |shape|
  {
    var n := |shape|;
    if n > 0 {
      var sh, st, ix := shape[..n - 1], strides[..n - 1], idx[..n - 1];
      BoundContainsElements(st, sh, ix);
      assert LowShift(strides, shape, n - 1) == LowShift(st, sh, n - 1) by { ShiftPrefix(strides, shape, n - 1); }
      assert HighShift(strides, shape, n - 1) == HighShift(st, sh, n - 1) by { ShiftPrefix(strides, shape, n - 1); }
      MulBetween(idx[n - 1], shape[n - 1], strides[n - 1]);
    }
  }

  lemma {:induction false} ShiftPrefix(strides: seq<int>, shape: seq<int>, n: nat)
    requires n <= |strides| && n <= |shape|
    ensures LowShift(strides, shape, n) == LowShift(strides[..n], shape[..n], n)
    ensures HighShift(strides, shape, n) == HighShift(strides[..n], shape[..n], n)
  {
    ShiftPrefixUpTo(strides, shape, n, n);
  }

  lemma {:induction false} ShiftPrefixUpTo(strides: seq<int>, shape: seq<int>, n: nat, m: nat)
    requires m <= n <= |strides| && n <= |shape|
    ensures LowShift(strides, shape, m) == LowShift(strides[..n], shape[..n], m)
    ensures HighShift(strides, shape, m) == HighShift(strides[..n], shape[..n], m)
  {
    if m > 0 {
      ShiftPrefixUpTo(strides, shape, n, m - 1);
    }
  }

  /**
   * A one-axis array of length zero with a positive stride: `bound` moves
   * `high` one stride below `low`, so the interval it reports is empty.
   */
  lemma EmptyAxisInvertsBound(a: ArrayInfo)
    requires |a.shape| == |a.strides| == 1 && a.shape[0] == 0 && a.strides[0] > 0
    ensures BoundOf(a) == (a.bytes, a.bytes - a.strides[0])
    ensures BoundOf(a).1 < BoundOf(a).0
  {
    assert ZipLen(a) == 1;
    assert LowShift(a.strides, a.shape, 1) == 0;
    assert HighShift(a.strides, a.shape, 1) == -a.strides[0];
  }

  predicate Within(x: int, lo: int, hi: int) { lo <= x < hi }

  /** `may_share_memory`. */
  function MayShareMemory(a: ArrayInfo, b: ArrayInfo): bool
  {
    if a.identity == b.identity then true
    else if a.cls == b.cls then
      var (al, ah) := BoundOf(a);
      var (bl, bh) := BoundOf(b);
      !(bl >= ah || al >= bh)
    else false
  }

  /**
   * `may_share_memory` is symmetric, true for the same object, false for
   * different classes, and otherwise, when both half-open intervals
   * `[low, high)` are non-empty, true exactly when they intersect.
   */
  lemma MayShareMemoryMeaning(a: ArrayInfo, b: ArrayInfo)
    ensures MayShareMemory(a, b) == MayShareMemory(b, a)
    ensures a.identity == b.identity ==> MayShareMemory(a, b)
    ensures a.identity != b.identity && a.cls != b.cls ==> !MayShareMemory(a, b)
    ensures a.identity != b.identity && a.cls == b.cls &&
            BoundOf(a).0 < BoundOf(a).1 && BoundOf(b).0 < BoundOf(b).1 ==>
      (MayShareMemory(a, b) <==>
       exists x :: Within(x, BoundOf(a).0, BoundOf(a).1) && Within(x, BoundOf(b).0, BoundOf(b).1))
  {
    var al, ah := BoundOf(a).0, BoundOf(a).1;
    var bl, bh := BoundOf(b).0, BoundOf(b).1;
    if a.identity != b.identity && a.cls == b.cls && al < ah && bl < bh {
      if MayShareMemory(a, b) {
        var x := if al <= bl then bl else al;
        assert Within(x, al, ah) && Within(x, bl, bh);
      }
    }
  }

  /**
   * As written, `high` is the address of the last element, not the end of
   * its bytes, so two distinct views of one single element are reported as
   * not sharing memory.
   */
  lemma SameElementReportedDisjoint()
    ensures var a := ArrayInfo(1, 0, 1000, [1], [8], 8);
            var b := ArrayInfo(2, 0, 1000, [1], [8], 8);
            1000 + Dot(a.strides, [0]) == 1000 + Dot(b.strides, [0]) && !MayShareMemory(a, b)
  {
  }

  /** Byte range `[low, high + itemsize)`: the end now covers the last element's bytes. */
  function BoundFixed(a: ArrayInfo): (int, int)
  {
    (BoundOf(a).0, BoundOf(a).1 + a.itemsize)
  }

  /** `may_share_memory` over the corrected byte range. */
  function MayShareMemoryFixed(a: ArrayInfo, b: ArrayInfo): bool
  {
    if a.identity == b.identity then true
    else if a.cls == b.cls then
      var (al, ah) := BoundFixed(a);
      var (bl, bh) := BoundFixed(b);
      !(bl >= ah || al >= bh)
    else false
  }

  /**
   * The corrected test is sound: two arrays of one class that have
   * elements whose bytes overlap are reported as possibly sharing memory.
   */
  lemma FixedIsSound(a: ArrayInfo, b: ArrayInfo, ia: seq<int>, ib: seq<int>)
    requires a.cls == b.cls
    requires |a.strides| == |a.shape| && |b.strides| == |b.shape|
    requires InShape(ia, a.shape) && InShape(ib, b.shape)
    requires var ea, eb := a.bytes + Dot(a.strides, ia), b.bytes + Dot(b.strides, ib);
             ea < eb + b.itemsize && eb < ea + a.itemsize
    ensures MayShareMemoryFixed(a, b)
  {
    BoundContainsElements(a.strides, a.shape, ia);
    BoundContainsElements(b.strides, b.shape, ib);
  }

  /** The corrected test finds the single shared element the original misses. */
  lemma FixedFindsSameElement()
    ensures MayShareMemoryFixed(ArrayInfo(1, 0, 1000, [1], [8], 8), ArrayInfo(2, 0, 1000, [1], [8], 8))
  {
  }
}
