/**
 * Integer-sequence helpers shared by the stride, overlap and subscript
 * models: products of shapes, the element address of an index vector, and
 * what it means for an index vector to lie inside a shape.
 */
module Shapes {

  /** Python's `max(1, s)`, used by array.py to clamp zero-sized axes. */
  function Clamp1(x: int): int { if x < 1 then 1 else x }

  /** Product of the entries of a shape (pytools.product, numpy's size). */
  function Prod(s: seq<int>): int
  {
    if s == [] then 1 else s[0] * Prod(s[1..])
  }

  /** Product of `max(1, s)` over the entries of a shape. */
  function ProdClamped(s: seq<int>): int
  {
    if s == [] then 1 else Clamp1(s[0]) * ProdClamped(s[1..])
  }

  lemma {:induction false} ProdAppend(s: seq<int>, x: int)
    ensures Prod(s + [x]) == Prod(s) * x
  {
    if s != [] {
      assert (s + [x])[1..] == s[1..] + [x];
      ProdAppend(s[1..], x);
    }
  }

  lemma {:induction false} ProdClampedAppend(s: seq<int>, x: int)
    ensures ProdClamped(s + [x]) == ProdClamped(s) * Clamp1(x)
  {
    if s != [] {
      assert (s + [x])[1..] == s[1..] + [x];
      ProdClampedAppend(s[1..], x);
    }
  }

  /** Clamped products are at least one. */
  lemma {:induction false} ProdClampedPositive(s: seq<int>)
    ensures ProdClamped(s) >= 1
  {
    if s != [] {
      ProdClampedPositive(s[1..]);
      MulAtLeastOne(Clamp1(s[0]), ProdClamped(s[1..]));
    }
  }

  lemma MulAtLeastOne(a: int, b: int)
    requires a >= 1 && b >= 1
    ensures a * b >= 1 && a * b >= a && a * b >= b
  {
  }

  /** A product vanishes exactly when some axis has size zero. */
  lemma {:induction false} ProdZeroIff(s: seq<int>)
    ensures Prod(s) == 0 <==> exists i :: 0 <= i < |s| && s[i] == 0
  {
    if s != [] {
      ProdZeroIff(s[1..]);
      if Prod(s[1..]) == 0 {
        var i :| 0 <= i < |s[1..]| && s[1..][i] == 0;
        assert s[i + 1] == 0;
      }
      if exists i :: 0 <= i < |s| && s[i] == 0 {
        var i :| 0 <= i < |s| && s[i] == 0;
        if i > 0 { assert s[1..][i - 1] == 0; }
      }
    }
  }

  /** With no axis below one, clamping changes nothing. */
  lemma {:induction false} ProdClampedNoZero(s: seq<int>)
    requires forall i :: 0 <= i < |s| ==> s[i] >= 1
    ensures ProdClamped(s) == Prod(s)
  {
    if s != [] {
      ProdClampedNoZero(s[1..]);
    }
  }

  /** `idx` addresses an element of an array of shape `shape`. */
  predicate InShape(idx: seq<int>, shape: seq<int>)
  {
    |idx| == |shape| && forall k :: 0 <= k < |idx| ==> 0 <= idx[k] < shape[k]
  }

  /**
   * Offset (in the unit of the strides) of the element with index vector
   * `idx`: the sum of `idx[k] * strides[k]`.
   */
  function Dot(strides: seq<int>, idx: seq<int>): int
    requires |strides| == |idx|
  {
    if strides == [] then 0
    else Dot(strides[..|strides| - 1], idx[..|idx| - 1]) + idx[|idx| - 1] * strides[|strides| - 1]
  }

  lemma DotAppend(strides: seq<int>, idx: seq<int>, s: int, i: int)
    requires |strides| == |idx|
    ensures Dot(strides + [s], idx + [i]) == Dot(strides, idx) + i * s
  {
    assert (strides + [s])[..|strides|] == strides;
    assert (idx + [i])[..|idx|] == idx;
  }

  lemma {:induction false} DotPrepend(strides: seq<int>, idx: seq<int>, s: int, i: int)
    requires |strides| == |idx|
    ensures Dot([s] + strides, [i] + idx) == i * s + Dot(strides, idx)
    decreases |strides|
  {
    if strides == [] {
    } else {
      var n := |strides|;
      assert ([s] + strides)[..n] == [s] + strides[..n - 1];
      assert ([i] + idx)[..n] == [i] + idx[..n - 1];
      DotPrepend(strides[..n - 1], idx[..n - 1], s, i);
    }
  }
}
