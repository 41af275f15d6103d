/**
 * Stride construction and contiguity flags of compyte/array.py.  Unlike
 * array.py, this variant multiplies by the raw axis sizes (no clamping) and
 * compares stride tuples exactly (no allowance for axes of size one).
 */
module CompyteStrides {
  import opened Shapes
  import ArrayStrides

  /** Fortran order: `itemsize` times the product of the axes before axis `i`. */
  function FStrides(itemsize: int, shape: seq<int>): (r: seq<int>)
    ensures |r| == |shape|
  {
    seq(|shape|, i requires 0 <= i < |shape| => itemsize * Prod(shape[..i]))
  }

  /** C order: `itemsize` times the product of the axes after axis `i`. */
  function CStrides(itemsize: int, shape: seq<int>): (r: seq<int>)
    ensures |r| == |shape|
  {
    seq(|shape|, i requires 0 <= i < |shape| => itemsize * Prod(shape[i + 1..]))
  }

  /** `f_contiguous_strides`: appends `strides[-1] * s` for every axis but the last. */
  method FContiguousStrides(itemsize: int, shape: seq<int>) returns (r: seq<int>)
    ensures r == FStrides(itemsize, shape)
  {
    if |shape| == 0 {
      return [];
    }
    var strides := [itemsize];
    var i := 0;
    while i < |shape| - 1
      invariant 0 <= i <= |shape| - 1
      invariant strides == FStrides(itemsize, shape)[..i + 1]
    {
      FStridesNext(itemsize, shape, i);
      strides := strides + [strides[|strides| - 1] * shape[i]];
      i := i + 1;
    }
    r := strides;
  }

  /** One more Fortran stride: the last one times its axis. */
  lemma FStridesNext(itemsize: int, shape: seq<int>, i: nat)
    requires i + 1 < |shape|
    ensures FStrides(itemsize, shape)[..i + 2] ==
              FStrides(itemsize, shape)[..i + 1] + [FStrides(itemsize, shape)[i] * shape[i]]
  {
    var f := FStrides(itemsize, shape);
    assert shape[..i + 1] == shape[..i] + [shape[i]];
    ProdAppend(shape[..i], shape[i]);
    MulAssoc(itemsize, Prod(shape[..i]), shape[i]);
    assert f[i + 1] == f[i] * shape[i];
  }

  /** `c_contiguous_strides`: walks `shape[:0:-1]`, appending, then reverses the list. */
  method CContiguousStrides(itemsize: int, shape: seq<int>) returns (r: seq<int>)
    ensures r == CStrides(itemsize, shape)
  {
    if |shape| == 0 {
      return [];
    }
    var n := |shape|;
    var strides := [itemsize];
    var j := 0;
    while j < n - 1
      invariant 0 <= j <= n - 1
      invariant |strides| == j + 1
      invariant forall k :: 0 <= k <= j ==> strides[k] == itemsize * Prod(shape[n - k..])
    {
      var s := shape[n - 1 - j];
      assert shape[n - (j + 1)..] == [s] + shape[n - j..];
      strides := strides + [strides[|strides| - 1] * s];
      j := j + 1;
    }
    r := ArrayStrides.Reverse(strides);
  }

  /** The recurrences of the two builders, without clamping. */
  lemma StridesRecurrence(itemsize: int, shape: seq<int>)
    requires |shape| > 0
    ensures FStrides(itemsize, shape)[0] == itemsize
    ensures CStrides(itemsize, shape)[|shape| - 1] == itemsize
    ensures forall i :: 0 <= i < |shape| - 1 ==>
      FStrides(itemsize, shape)[i + 1] == FStrides(itemsize, shape)[i] * shape[i]
    ensures forall i :: 0 <= i < |shape| - 1 ==>
      CStrides(itemsize, shape)[i] == CStrides(itemsize, shape)[i + 1] * shape[i + 1]
  {
    var f := FStrides(itemsize, shape);
    var c := CStrides(itemsize, shape);
    forall i | 0 <= i < |shape| - 1
      ensures f[i + 1] == f[i] * shape[i]
      ensures c[i] == c[i + 1] * shape[i + 1]
    {
      assert shape[..i + 1] == shape[..i] + [shape[i]];
      ProdAppend(shape[..i], shape[i]);
      assert shape[i + 1..][1..] == shape[i + 2..];
    }
  }

  /** The outermost stride times its axis is the byte size of the whole array, in both orders. */
  lemma TotalBytes(itemsize: int, shape: seq<int>)
    requires |shape| > 0
    ensures FStrides(itemsize, shape)[|shape| - 1] * shape[|shape| - 1] == itemsize * Prod(shape)
    ensures CStrides(itemsize, shape)[0] * shape[0] == itemsize * Prod(shape)
  {
    FTotalBytes(itemsize, shape);
    CTotalBytes(itemsize, shape);
  }

  lemma FTotalBytes(itemsize: int, shape: seq<int>)
    requires |shape| > 0
    ensures FStrides(itemsize, shape)[|shape| - 1] * shape[|shape| - 1] == itemsize * Prod(shape)
  {
    var n := |shape|;
    var front := Prod(shape[..n - 1]);
    assert shape == shape[..n - 1] + [shape[n - 1]];
    ProdAppend(shape[..n - 1], shape[n - 1]);
    MulAssoc(itemsize, front, shape[n - 1]);
  }

  lemma CTotalBytes(itemsize: int, shape: seq<int>)
    requires |shape| > 0
    ensures CStrides(itemsize, shape)[0] * shape[0] == itemsize * Prod(shape)
  {
    var back := Prod(shape[1..]);
    MulAssoc(itemsize, back, shape[0]);
  }

  lemma MulAssoc(a: int, b: int, c: int)
    ensures (a * b) * c == a * (b * c) == a * (c * b)
  {
  }

  /** An axis of size zero zeroes every Fortran stride after it and every C stride before it. */
  lemma ZeroAxisZeroesStrides(itemsize: int, shape: seq<int>, k: int)
    requires 0 <= k < |shape| && shape[k] == 0
    ensures forall i :: k < i < |shape| ==> FStrides(itemsize, shape)[i] == 0
    ensures forall i :: 0 <= i < k ==> CStrides(itemsize, shape)[i] == 0
  {
    forall i | k < i < |shape|
      ensures FStrides(itemsize, shape)[i] == 0
    {
      assert shape[..i][k] == 0;
      ProdZeroIff(shape[..i]);
    }
    forall i | 0 <= i < k
      ensures CStrides(itemsize, shape)[i] == 0
    {
      assert shape[i + 1..][k - i - 1] == 0;
      ProdZeroIff(shape[i + 1..]);
    }
  }

  /** `ArrayFlags`: exact tuple equality against the two builders, and their disjunction. */
  datatype ArrayFlags = ArrayFlags(fContiguous: bool, cContiguous: bool, forc: bool)

  function MakeArrayFlags(strides: seq<int>, itemsize: int, shape: seq<int>): ArrayFlags
  {
    var f := strides == FStrides(itemsize, shape);
    var c := strides == CStrides(itemsize, shape);
    ArrayFlags(f, c, f || c)
  }

  /** A 0-d array with strides `()` is both C- and Fortran-contiguous. */
  lemma ScalarBothContiguous(itemsize: int)
    ensures MakeArrayFlags([], itemsize, []) == ArrayFlags(true, true, true)
  {
  }

  /** Without zero-sized axes the two modules build the same strides. */
  lemma {:induction false} AgreeWithoutEmptyAxes(itemsize: int, shape: seq<int>)
    requires forall i :: 0 <= i < |shape| ==> shape[i] >= 1
    ensures FStrides(itemsize, shape) == ArrayStrides.FStrides(itemsize, shape)
    ensures CStrides(itemsize, shape) == ArrayStrides.CStrides(itemsize, shape)
  {
    forall i | 0 <= i < |shape|
      ensures FStrides(itemsize, shape)[i] == ArrayStrides.FStrides(itemsize, shape)[i]
      ensures CStrides(itemsize, shape)[i] == ArrayStrides.CStrides(itemsize, shape)[i]
    {
      ProdClampedNoZero(shape[..i]);
      ProdClampedNoZero(shape[i + 1..]);
    }
  }

  /**
   * The exact test is stricter: exact contiguity implies the array.py test
   * when no axis is empty, while an axis of size one with an arbitrary
   * stride passes array.py's test and fails this one.
   */
  lemma ExactIsStricter(strides: seq<int>, itemsize: int, shape: seq<int>)
    requires forall i :: 0 <= i < |shape| ==> shape[i] >= 1
    ensures MakeArrayFlags(strides, itemsize, shape).cContiguous ==>
      ArrayStrides.MakeArrayFlags(strides, itemsize, shape).cContiguous
    ensures MakeArrayFlags(strides, itemsize, shape).fContiguous ==>
      ArrayStrides.MakeArrayFlags(strides, itemsize, shape).fContiguous
  {
    AgreeWithoutEmptyAxes(itemsize, shape);
  }

  lemma SizeOneAxisExample()
    ensures !MakeArrayFlags([8, 100], 8, [2, 1]).cContiguous
    ensures ArrayStrides.MakeArrayFlags([8, 100], 8, [2, 1]).cContiguous
  {
    var shape := [2, 1];
    assert shape[1..] == [1] && shape[2..] == [];
    assert Prod([1]) == 1 && ProdClamped([1]) == 1;
    assert CStrides(8, shape) == [8, 8];
    assert ArrayStrides.CStrides(8, shape)[0] == 8;
    ArrayStrides.SizeOneAxesIgnored([8, 100], 8, shape);
  }
}
