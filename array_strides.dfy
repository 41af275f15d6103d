/**
 * Stride construction and contiguity tests of array.py.  This variant
 * clamps zero-sized axes with `max(1, s)` when it builds strides and
 * ignores axes of size one when it compares strides.
 */
module ArrayStrides {
  import opened Shapes

  /** Fortran order: axis `i` steps over `itemsize` times the clamped sizes of the axes before it. */
  function FStrides(itemsize: int, shape: seq<int>): (r: seq<int>)
    ensures |r| == |shape|
  {
    seq(|shape|, i requires 0 <= i < |shape| => itemsize * ProdClamped(shape[..i]))
  }

  /** C order: axis `i` steps over `itemsize` times the clamped sizes of the axes after it. */
  function CStrides(itemsize: int, shape: seq<int>): (r: seq<int>)
    ensures |r| == |shape|
  {
    seq(|shape|, i requires 0 <= i < |shape| => itemsize * ProdClamped(shape[i + 1..]))
  }

  function Reverse(s: seq<int>): (r: seq<int>)
    ensures |r| == |s| && forall i :: 0 <= i < |s| ==> r[i] == s[|s| - 1 - i]
  {
    if s == [] then [] else Reverse(s[1..]) + [s[0]]
  }

  /** `f_contiguous_strides`: appends `strides[-1] * max(1, s)` for every axis but the last. */
  method FContiguousStrides(itemsize: int, shape: seq<int>) returns (r: seq<int>)
    ensures r == FStrides(itemsize, shape)
  {
    if |shape| == 0 {
      return [];
    }
    var strides := [itemsize];
    var i := 0;
    while i < |shape| - 1
      invariant 0 <= i <= |shape| - 1
      invariant strides == FStrides(itemsize, shape)[..i + 1]
    {
      ProdClampedAppend(shape[..i], shape[i]);
      assert shape[..i + 1] == shape[..i] + [shape[i]];
      strides := strides + [strides[|strides| - 1] * Clamp1(shape[i])];
      i := i + 1;
    }
    r := strides;
  }

  /**
   * `c_contiguous_strides`: walks `shape[:0:-1]` (every axis but the first,
   * last axis first), appending, then reverses the list.
   */
  method CContiguousStrides(itemsize: int, shape: seq<int>) returns (r: seq<int>)
    ensures r == CStrides(itemsize, shape)
  {
    if |shape| == 0 {
      return [];
    }
    var n := |shape|;
    var strides := [itemsize];
    var j := 0;
    while j < n - 1
      invariant 0 <= j <= n - 1
      invariant |strides| == j + 1
      invariant forall k :: 0 <= k <= j ==> strides[k] == itemsize * ProdClamped(shape[n - k..])
    {
      var s := shape[n - 1 - j];
      assert shape[n - (j + 1)..] == [s] + shape[n - j..];
      strides := strides + [strides[|strides| - 1] * Clamp1(s)];
      j := j + 1;
    }
    r := Reverse(strides);
  }

  /** Fortran strides start at `itemsize` and grow by the clamped size of each axis. */
  lemma FStridesRecurrence(itemsize: int, shape: seq<int>)
    requires |shape| > 0
    ensures FStrides(itemsize, shape)[0] == itemsize
    ensures forall i :: 0 <= i < |shape| - 1 ==>
      FStrides(itemsize, shape)[i + 1] == FStrides(itemsize, shape)[i] * Clamp1(shape[i])
  {
    var f := FStrides(itemsize, shape);
    forall i | 0 <= i < |shape| - 1
      ensures f[i + 1] == f[i] * Clamp1(shape[i])
    {
      assert shape[..i + 1] == shape[..i] + [shape[i]];
      ProdClampedAppend(shape[..i], shape[i]);
    }
  }

  /** C strides end with `itemsize` and grow, right to left, by the clamped size of the next axis. */
  lemma CStridesRecurrence(itemsize: int, shape: seq<int>)
    requires |shape| > 0
    ensures CStrides(itemsize, shape)[|shape| - 1] == itemsize
    ensures forall i :: 0 <= i < |shape| - 1 ==>
      CStrides(itemsize, shape)[i] == CStrides(itemsize, shape)[i + 1] * Clamp1(shape[i + 1])
  {
    var c := CStrides(itemsize, shape);
    forall i | 0 <= i < |shape| - 1
      ensures c[i] == c[i + 1] * Clamp1(shape[i + 1])
    {
      assert shape[i + 1..][1..] == shape[i + 2..];
    }
  }

  /** With a positive itemsize no stride of either order is below it (never 0, even for empty axes). */
  lemma StridesAtLeastItemsize(itemsize: int, shape: seq<int>)
    requires itemsize > 0
    ensures forall i :: 0 <= i < |shape| ==> FStrides(itemsize, shape)[i] >= itemsize
    ensures forall i :: 0 <= i < |shape| ==> CStrides(itemsize, shape)[i] >= itemsize
  {
    forall i | 0 <= i < |shape|
      ensures FStrides(itemsize, shape)[i] >= itemsize && CStrides(itemsize, shape)[i] >= itemsize
    {
      ProdClampedPositive(shape[..i]);
      ProdClampedPositive(shape[i + 1..]);
      MulAtLeastOne(itemsize, ProdClamped(shape[..i]));
      MulAtLeastOne(itemsize, ProdClamped(shape[i + 1..]));
    }
  }

  /** The zip loop of `equal_strides`: every axis of size other than one has equal strides. */
  function AxesAgree(strides1: seq<int>, strides2: seq<int>, shape: seq<int>): bool
    requires |strides1| == |strides2| == |shape|
  {
    shape == [] || ((shape[0] == 1 || strides1[0] == strides2[0]) && AxesAgree(strides1[1..], strides2[1..], shape[1..]))
  }

  /** `equal_strides`. */
  function EqualStrides(strides1: seq<int>, strides2: seq<int>, shape: seq<int>): bool
  {
    strides1 == strides2 ||
    (|strides1| == |strides2| && |strides2| == |shape| && AxesAgree(strides1, strides2, shape))
  }

  /** `equal_strides` holds iff the tuples are identical or they differ only on axes of size one. */
  lemma EqualStridesMeaning(strides1: seq<int>, strides2: seq<int>, shape: seq<int>)
    ensures EqualStrides(strides1, strides2, shape) <==>
      strides1 == strides2 ||
      (|strides1| == |strides2| == |shape| &&
       forall i :: 0 <= i < |shape| && shape[i] != 1 ==> strides1[i] == strides2[i])
  {
    if |strides1| == |strides2| == |shape| {
      AxesAgreeMeaning(strides1, strides2, shape);
    }
  }

  lemma {:induction false} AxesAgreeMeaning(strides1: seq<int>, strides2: seq<int>, shape: seq<int>)
    requires |strides1| == |strides2| == |shape|
    ensures AxesAgree(strides1, strides2, shape) <==>
      forall i :: 0 <= i < |shape| && shape[i] != 1 ==> strides1[i] == strides2[i]
  {
    if shape != [] {
      AxesAgreeMeaning(strides1[1..], strides2[1..], shape[1..]);
      if forall i :: 0 <= i < |shape| && shape[i] != 1 ==> strides1[i] == strides2[i] {
        forall i | 0 <= i < |shape[1..]| && shape[1..][i] != 1
          ensures strides1[1..][i] == strides2[1..][i]
        {
          assert shape[i + 1] != 1;
        }
      }
      if AxesAgree(strides1, strides2, shape) {
        forall i | 0 <= i < |shape| && shape[i] != 1
          ensures strides1[i] == strides2[i]
        {
          if i > 0 { assert shape[1..][i - 1] != 1; }
        }
      }
    }
  }

  /** `equal_strides` is reflexive and symmetric in its two stride arguments. */
  lemma EqualStridesReflexiveSymmetric(strides1: seq<int>, strides2: seq<int>, shape: seq<int>)
    ensures EqualStrides(strides1, strides1, shape)
    ensures EqualStrides(strides1, strides2, shape) == EqualStrides(strides2, strides1, shape)
  {
    EqualStridesMeaning(strides1, strides2, shape);
    EqualStridesMeaning(strides2, strides1, shape);
  }

  /** `is_f_contiguous_strides`. */
  predicate IsFContiguousStrides(strides: seq<int>, itemsize: int, shape: seq<int>)
  {
    EqualStrides(strides, FStrides(itemsize, shape), shape) || Prod(shape) == 0
  }

  /** `is_c_contiguous_strides`. */
  predicate IsCContiguousStrides(strides: seq<int>, itemsize: int, shape: seq<int>)
  {
    EqualStrides(strides, CStrides(itemsize, shape), shape) || Prod(shape) == 0
  }

  /** An array with an axis of size zero counts as both C- and Fortran-contiguous, whatever its strides. */
  lemma EmptyAxisIsContiguous(strides: seq<int>, itemsize: int, shape: seq<int>, k: int)
    requires 0 <= k < |shape| && shape[k] == 0
    ensures IsFContiguousStrides(strides, itemsize, shape)
    ensures IsCContiguousStrides(strides, itemsize, shape)
  {
    ProdZeroIff(shape);
  }

  /** Strides that differ from the canonical ones only on axes of size one still count as contiguous. */
  lemma SizeOneAxesIgnored(strides: seq<int>, itemsize: int, shape: seq<int>)
    requires |strides| == |shape|
    requires forall i :: 0 <= i < |shape| && shape[i] != 1 ==> strides[i] == CStrides(itemsize, shape)[i]
    ensures IsCContiguousStrides(strides, itemsize, shape)
  {
    EqualStridesMeaning(strides, CStrides(itemsize, shape), shape);
  }

  /** `ArrayFlags`: the two contiguity tests and their disjunction `forc`. */
  datatype ArrayFlags = ArrayFlags(fContiguous: bool, cContiguous: bool, forc: bool)

  function MakeArrayFlags(strides: seq<int>, itemsize: int, shape: seq<int>): ArrayFlags
  {
    var f := IsFContiguousStrides(strides, itemsize, shape);
    var c := IsCContiguousStrides(strides, itemsize, shape);
    ArrayFlags(f, c, f || c)
  }

  /** For 0-d and 1-d shapes the two stride tuples coincide, so the two flags always agree. */
  lemma LowRankFlagsAgree(strides: seq<int>, itemsize: int, shape: seq<int>)
    requires |shape| <= 1
    ensures FStrides(itemsize, shape) == CStrides(itemsize, shape)
    ensures MakeArrayFlags(strides, itemsize, shape).fContiguous == MakeArrayFlags(strides, itemsize, shape).cContiguous
    ensures MakeArrayFlags(strides, itemsize, shape).forc == MakeArrayFlags(strides, itemsize, shape).cContiguous
  {
    if |shape| == 1 {
      assert shape[..0] == [] && shape[1..] == [];
    }
  }
}
