/**
 * What subscripting a GPU array produces, stated on shapes and strides
 * alone: for every key `a[key]` either returns `a` itself, fails with a
 * Python exception, or is a view whose dims, strides and data offset are
 * computed here.  The `NdArray` class builds its views in place and is
 * proved to agree with `SubscriptSpec`.
 */
module NdSpec {
  import opened Wrappers
  import opened Shapes
  import opened Slices

  /** The Python exceptions raised by the array engine. */
  datatype PyError =
    | IndexError
    | ValueError
    | NotImplementedError
    | MemoryError       // a device allocation failed
    | TransferError     // a device copy or fill reported an error

  /** One entry of a subscript tuple. */
  datatype Item =
    | ItemIndex(i: int)          // an integer-convertible scalar
    | ItemSlice(s: Slice)
    | ItemOther(isScalar: bool)  // neither; `isScalar` is numpy's "any scalar" test

  /** A subscript key. */
  datatype Key =
    | KeyEllipsis
    | KeyIndex(i: int)           // anything integer-convertible
    | KeySlice(s: Slice)
    | KeyTuple(items: seq<Item>)
    | KeyOther

  /** The outcome of `a[key]`: `a` itself, a view, or an exception. */
  datatype Sub =
    | SameObject
    | View(dims: seq<int>, strides: seq<int>, delta: int)
    | Fail(err: PyError)

  /** The views built along the axes of a tuple key. */
  datatype Acc = Acc(dims: seq<int>, strides: seq<int>, delta: int)
  datatype Fold = Ok(acc: Acc) | Err(err: PyError)

  /** The dims and strides of an array with `nd` dimensions (`nd < 0`: uninitialised, no dims). */
  predicate Shaped(nd: int, dims: seq<int>, strides: seq<int>)
  {
    nd >= -1 && |dims| == |strides| == (if nd < 0 then 0 else nd)
  }

  predicate NonNegative(dims: seq<int>)
  {
    forall k :: 0 <= k < |dims| ==> dims[k] >= 0
  }

  /**
   * Integer indexing of one axis of length `dim`: accepted exactly for
   * `-dim <= i < dim`, giving the unique position in `[0, dim)` that is
   * congruent to `i` modulo `dim`.
   */
  function AxisIndex(i: int, dim: int): (r: Option<int>)
    ensures r.Some? <==> -dim <= i < dim
    ensures r.Some? ==> 0 <= r.value < dim && (r.value == i || r.value == i + dim)
  {
    if 0 <= i < dim then Some(i)
    else if i < 0 && i >= -dim then Some(dim + i)
    else None
  }

  predicate IsScalar(it: Item)
  {
    it.ItemIndex? || (it.ItemOther? && it.isScalar)
  }

  /** How many entries numpy counts as scalars; each removes one dimension. */
  function CountScalars(items: seq<Item>): nat
  {
    if items == [] then 0
    else CountScalars(items[..|items| - 1]) + (if IsScalar(items[|items| - 1]) then 1 else 0)
  }

  function Min(a: int, b: int): int { if a < b then a else b }

  /** The effect of the tuple key on axis `d` (of length `dim`, stride `stride`). */
  function AxisStep(acc: Acc, items: seq<Item>, dim: int, stride: int, d: nat): Fold
  {
    if d >= |items| then Ok(Acc(acc.dims + [dim], acc.strides + [stride], acc.delta))
    else match items[d]
      case ItemSlice(s) =>
        (match GetIndices(s, dim)
         case None => Err(ValueError)
         case Some(ix) =>
           Ok(Acc(acc.dims + [ix.length], acc.strides + [ix.step * stride], acc.delta + ix.start * stride)))
      case ItemIndex(i) =>
        (match AxisIndex(i, dim)
         case None => Err(IndexError)
         case Some(n) => Ok(acc.(delta := acc.delta + n * stride)))
      case ItemOther(_) => Err(IndexError)
  }

  /** The tuple key applied to axes `0 .. n-1`, left to right. */
  function TupleUpTo(items: seq<Item>, dims: seq<int>, strides: seq<int>, n: nat): (r: Fold)
    requires n <= |dims| == |strides|
    ensures r.Ok? ==> |r.acc.dims| == |r.acc.strides| <= n
  {
    if n == 0 then Ok(Acc([], [], 0))
    else match TupleUpTo(items, dims, strides, n - 1)
      case Err(e) => Err(e)
      case Ok(acc) => AxisStep(acc, items, dims[n - 1], strides[n - 1], n - 1)
  }

  /** The outcome of `a[key]` for an array with `nd` dimensions. */
  function SubscriptSpec(nd: int, dims: seq<int>, strides: seq<int>, key: Key): (r: Sub)
    requires Shaped(nd, dims, strides)
    ensures r.View? ==> |r.dims| == |r.strides|
  {
    match key
    case KeyEllipsis => SameObject
    case KeyIndex(i) =>
      if nd <= 0 then Fail(IndexError)
      else (match AxisIndex(i, dims[0])
            case None => Fail(IndexError)
            case Some(n) => View(dims[1..], strides[1..], n * strides[0]))
    case KeySlice(s) =>
      if nd <= 0 then Fail(ValueError)
      else (match GetIndices(s, dims[0])
            case None => Fail(ValueError)
            case Some(ix) =>
              View([ix.length] + dims[1..], [ix.step * strides[0]] + strides[1..], ix.start * strides[0]))
    case KeyTuple(items) =>
      if |items| > nd then Fail(IndexError)
      else (match TupleUpTo(items, dims, strides, nd)
            case Err(e) => Fail(e)
            case Ok(acc) => View(acc.dims, acc.strides, acc.delta))
    case KeyOther => Fail(NotImplementedError)
  }

  // ---------------------------------------------------------------- integers

  /**
   * An integer key is accepted exactly on an initialised array of rank at
   * least one with `-dims[0] <= i < dims[0]`; the view drops axis 0.
   */
  lemma IntKeyRule(nd: int, dims: seq<int>, strides: seq<int>, i: int)
    requires Shaped(nd, dims, strides)
    ensures var r := SubscriptSpec(nd, dims, strides, KeyIndex(i));
            (r.View? <==> nd > 0 && -dims[0] <= i < dims[0]) &&
            (!r.View? ==> r == Fail(IndexError)) &&
            (r.View? ==> r.dims == dims[1..] && r.strides == strides[1..] && |r.dims| == nd - 1)
  {
  }

  // ------------------------------------------------------------------ slices

  /** A slice key keeps the rank and replaces axis 0 only; a zero step or a rank below one fails. */
  lemma SliceKeyRule(nd: int, dims: seq<int>, strides: seq<int>, s: Slice)
    requires Shaped(nd, dims, strides)
    ensures var r := SubscriptSpec(nd, dims, strides, KeySlice(s));
            (r.View? <==> nd > 0 && s.step != Some(0)) &&
            (!r.View? ==> r == Fail(ValueError)) &&
            (r.View? ==> |r.dims| == nd && r.dims[1..] == dims[1..] && r.strides[1..] == strides[1..])
  {
    var r := SubscriptSpec(nd, dims, strides, KeySlice(s));
    if nd > 0 {
      GetIndicesFails(s, dims[0]);
      if r.View? {
        assert r.dims[1..] == dims[1..];
        assert r.strides[1..] == strides[1..];
      }
    }
  }

  /**
   * The slice path as the source writes it: a rank below zero is not
   * rejected, and axis 0's length is then read through a null dims
   * pointer.  `None` stands for that undefined read.
   */
  function SliceKeyAsWritten(nd: int, dims: seq<int>, strides: seq<int>, s: Slice): (r: Option<Sub>)
    requires Shaped(nd, dims, strides)
    ensures r.None? <==> nd < 0
  {
    if nd == 0 then Some(Fail(ValueError))
    else if nd < 0 then None
    else (match GetIndices(s, dims[0])
          case None => Some(Fail(ValueError))
          case Some(ix) =>
            Some(View([ix.length] + dims[1..], [ix.step * strides[0]] + strides[1..], ix.start * strides[0])))
  }

  /** Slicing an uninitialised array reads its missing dims. */
  lemma SliceOfUninitialisedIsUndefined()
    ensures SliceKeyAsWritten(-1, [], [], Slice(None, None, None)).None?
  {
  }

  /**
   * The corrected slice path rejects every array of rank below one, and
   * agrees with the code as written wherever the latter is defined.
   */
  lemma SliceRejectsUninitialised(nd: int, dims: seq<int>, strides: seq<int>, s: Slice)
    requires Shaped(nd, dims, strides)
    ensures nd < 1 ==> SubscriptSpec(nd, dims, strides, KeySlice(s)) == Fail(ValueError)
    ensures SliceKeyAsWritten(nd, dims, strides, s).Some? ==>
              SliceKeyAsWritten(nd, dims, strides, s).value == SubscriptSpec(nd, dims, strides, KeySlice(s))
  {
  }

  // ------------------------------------------------------------------ tuples

  /** A tuple entry that makes the whole key fail on an axis of length `dim`. */
  predicate ItemFails(it: Item, dim: int)
  {
    match it
    case ItemSlice(s) => s.step == Some(0)
    case ItemIndex(i) => !(-dim <= i < dim)
    case ItemOther(_) => true
  }

  /** A tuple key fails on the first `n` axes exactly when one of its entries there fails. */
  lemma {:induction false} TupleFailsIff(items: seq<Item>, dims: seq<int>, strides: seq<int>, n: nat)
    requires n <= |dims| == |strides|
    ensures TupleUpTo(items, dims, strides, n).Err? <==>
            exists d :: 0 <= d < Min(n, |items|) && ItemFails(items[d], dims[d])
  {
    if n > 0 {
      TupleFailsIff(items, dims, strides, n - 1);
      var d := n - 1;
      if d < |items| && items[d].ItemSlice? {
        GetIndicesFails(items[d].s, dims[d]);
      }
    }
  }

  lemma CountScalarsAppend(a: seq<Item>, b: seq<Item>)
    ensures CountScalars(a + b) == CountScalars(a) + CountScalars(b)
    decreases |b|
  {
    if b == [] {
      assert a + b == a;
    } else {
      var last := b[|b| - 1];
      assert (a + b)[..|a + b| - 1] == a + b[..|b| - 1];
      CountScalarsAppend(a, b[..|b| - 1]);
    }
  }

  lemma {:induction false} CountScalarsBound(items: seq<Item>)
    ensures CountScalars(items) <= |items|
  {
    if items != [] {
      CountScalarsBound(items[..|items| - 1]);
    }
  }

  /** After the first `n` axes the view has `n` axes less one per scalar entry seen. */
  lemma {:induction false} TupleRank(items: seq<Item>, dims: seq<int>, strides: seq<int>, n: nat)
    requires n <= |dims| == |strides|
    requires TupleUpTo(items, dims, strides, n).Ok?
    ensures |TupleUpTo(items, dims, strides, n).acc.dims| + CountScalars(items[..Min(n, |items|)]) == n
  {
    if n > 0 {
      var d := n - 1;
      TupleRank(items, dims, strides, d);
      if d < |items| {
        assert items[..Min(n, |items|)][..d] == items[..Min(d, |items|)];
      } else {
        assert Min(n, |items|) == Min(d, |items|);
      }
    }
  }

  /**
   * While the tuple key is applied, the next axis the view gains still
   * fits in the rank computed up front, `nd` minus the scalar entries.
   */
  lemma NextAxisFits(items: seq<Item>, nd: int, d: int)
    requires |items| <= nd && 0 <= d < nd
    requires d >= |items| || items[d].ItemSlice?
    ensures d - CountScalars(items[..Min(d, |items|)]) < nd - CountScalars(items)
  {
    if d >= |items| {
      assert items[..Min(d, |items|)] == items;
    } else {
      assert items[..Min(d, |items|)] == items[..d];
      SliceEntryFits(items, nd, d);
    }
  }

  /** The case of `NextAxisFits` where the entry for the axis is a slice. */
  lemma SliceEntryFits(items: seq<Item>, nd: int, d: int)
    requires |items| <= nd && 0 <= d < |items| && items[d].ItemSlice?
    ensures d - CountScalars(items[..d]) < nd - CountScalars(items)
  {
    var upTo, rest := items[..d + 1], items[d + 1..];
    assert upTo[..d] == items[..d];
    assert items == upTo + rest;
    CountScalarsAppend(upTo, rest);
    assert CountScalars(upTo) == CountScalars(items[..d]);
    CountScalarsBound(rest);
  }

  /** The axes a tuple key has produced so far never exceed the rank computed up front. */
  lemma AxesSoFarFit(items: seq<Item>, nd: int, d: int)
    requires |items| <= nd && 0 <= d <= nd
    ensures d - CountScalars(items[..Min(d, |items|)]) <= nd - CountScalars(items)
  {
    var k := Min(d, |items|);
    assert items == items[..k] + items[k..];
    CountScalarsAppend(items[..k], items[k..]);
    CountScalarsBound(items[k..]);
  }

  /**
   * The rank bookkeeping of the tuple-key loop: after `d` axes the view
   * has no more axes than the rank computed up front, one less when the
   * next axis adds one, and exactly that rank once all axes are done.
   */
  lemma TupleRankFits(items: seq<Item>, dims: seq<int>, strides: seq<int>, nd: int, d: nat)
    requires |items| <= nd == |dims| == |strides| && d <= nd
    requires TupleUpTo(items, dims, strides, d).Ok?
    ensures var n := |TupleUpTo(items, dims, strides, d).acc.dims|;
            n <= nd - CountScalars(items) &&
            (d < nd && (d >= |items| || items[d].ItemSlice?) ==> n < nd - CountScalars(items)) &&
            (d == nd ==> n == nd - CountScalars(items))
  {
    TupleRank(items, dims, strides, d);
    AxesSoFarFit(items, nd, d);
    if d < nd && (d >= |items| || items[d].ItemSlice?) {
      NextAxisFits(items, nd, d);
    }
    if d == nd {
      assert items[..Min(nd, |items|)] == items;
    }
  }

  /** A successful tuple key has rank `nd` minus the number of scalar entries. */
  lemma TupleKeyRank(nd: int, dims: seq<int>, strides: seq<int>, items: seq<Item>)
    requires Shaped(nd, dims, strides)
    requires SubscriptSpec(nd, dims, strides, KeyTuple(items)).View?
    ensures |SubscriptSpec(nd, dims, strides, KeyTuple(items)).dims| == nd - CountScalars(items)
  {
    TupleRank(items, dims, strides, nd);
    assert items[..Min(nd, |items|)] == items;
  }

  /** Axes beyond the tuple's entries are copied unchanged after the ones the entries produce. */
  lemma {:induction false} TupleBeyondItems(items: seq<Item>, dims: seq<int>, strides: seq<int>, n: nat)
    requires |items| <= n <= |dims| == |strides|
    requires TupleUpTo(items, dims, strides, |items|).Ok?
    ensures var a := TupleUpTo(items, dims, strides, |items|).acc;
            TupleUpTo(items, dims, strides, n) ==
              Ok(Acc(a.dims + dims[|items|..n], a.strides + strides[|items|..n], a.delta))
  {
    var a := TupleUpTo(items, dims, strides, |items|).acc;
    if n == |items| {
      assert a.dims + dims[|items|..n] == a.dims;
      assert a.strides + strides[|items|..n] == a.strides;
    } else {
      TupleBeyondItems(items, dims, strides, n - 1);
      assert dims[|items|..n] == dims[|items|..n - 1] + [dims[n - 1]];
      assert strides[|items|..n] == strides[|items|..n - 1] + [strides[n - 1]];
    }
  }

  /** Once a tuple key has failed on some axis, it fails with the same error on all later ones. */
  lemma {:induction false} TupleErrSticks(items: seq<Item>, dims: seq<int>, strides: seq<int>, n: nat, m: nat)
    requires n <= m <= |dims| == |strides|
    requires TupleUpTo(items, dims, strides, n).Err?
    ensures TupleUpTo(items, dims, strides, m) == TupleUpTo(items, dims, strides, n)
    decreases m
  {
    if m > n {
      TupleErrSticks(items, dims, strides, n, m - 1);
    }
  }

  /**
   * An integer key is the one-entry tuple holding that integer, at every
   * rank: below rank 1 both are IndexError.
   */
  lemma IntKeyIsOneTuple(nd: int, dims: seq<int>, strides: seq<int>, i: int)
    requires Shaped(nd, dims, strides)
    ensures SubscriptSpec(nd, dims, strides, KeyIndex(i)) ==
            SubscriptSpec(nd, dims, strides, KeyTuple([ItemIndex(i)]))
  {
    if nd < 1 {
      return;
    }
    var items := [ItemIndex(i)];
    var first := TupleUpTo(items, dims, strides, 1);
    if first.Ok? {
      TupleBeyondItems(items, dims, strides, nd);
      assert first.acc == Acc([], [], AxisIndex(i, dims[0]).value * strides[0]);
      assert [] + dims[1..nd] == dims[1..];
      assert [] + strides[1..nd] == strides[1..];
    } else {
      TupleErrSticks(items, dims, strides, 1, nd);
    }
  }

  /**
   * A slice key is the one-entry tuple holding that slice, from rank 1 up;
   * below it the slice is a ValueError and the tuple an IndexError.
   */
  lemma SliceKeyIsOneTuple(nd: int, dims: seq<int>, strides: seq<int>, s: Slice)
    requires Shaped(nd, dims, strides) && nd >= 1
    ensures SubscriptSpec(nd, dims, strides, KeySlice(s)) ==
            SubscriptSpec(nd, dims, strides, KeyTuple([ItemSlice(s)]))
  {
    var items := [ItemSlice(s)];
    var first := TupleUpTo(items, dims, strides, 1);
    if first.Ok? {
      TupleBeyondItems(items, dims, strides, nd);
      var ix := GetIndices(s, dims[0]).value;
      assert first.acc == Acc([ix.length], [ix.step * strides[0]], ix.start * strides[0]);
      assert [ix.length] + dims[1..nd] == [ix.length] + dims[1..];
      assert [ix.step * strides[0]] + strides[1..nd] == [ix.step * strides[0]] + strides[1..];
    } else {
      TupleErrSticks(items, dims, strides, 1, nd);
    }
  }

  /** Below rank 1 a slice key and its one-entry tuple raise different errors. */
  lemma SliceKeyBelowRankOne(nd: int, dims: seq<int>, strides: seq<int>, s: Slice)
    requires Shaped(nd, dims, strides) && nd < 1
    ensures SubscriptSpec(nd, dims, strides, KeySlice(s)) == Fail(ValueError)
    ensures SubscriptSpec(nd, dims, strides, KeyTuple([ItemSlice(s)])) == Fail(IndexError)
  {
  }

  // ------------------------------------------------- views address the parent

  lemma Distribute(start: int, j: int, step: int, stride: int)
    ensures start * stride + j * (step * stride) == (start + j * step) * stride
  {
    assert j * (step * stride) == (j * step) * stride;
  }

  /** Every axis length of a view built by a tuple key is non-negative. */
  lemma {:induction false} TupleDimsNonNegative(items: seq<Item>, dims: seq<int>, strides: seq<int>, n: nat)
    requires n <= |dims| == |strides| && NonNegative(dims)
    requires TupleUpTo(items, dims, strides, n).Ok?
    ensures NonNegative(TupleUpTo(items, dims, strides, n).acc.dims)
  {
    if n > 0 {
      var d := n - 1;
      TupleDimsNonNegative(items, dims, strides, d);
      if d < |items| && items[d].ItemSlice? {
        SelectionEnds(items[d].s, dims[d]);
      }
    }
  }

  /** Every axis length of any view is non-negative. */
  lemma ViewDimsNonNegative(nd: int, dims: seq<int>, strides: seq<int>, key: Key)
    requires Shaped(nd, dims, strides) && NonNegative(dims)
    requires SubscriptSpec(nd, dims, strides, key).View?
    ensures NonNegative(SubscriptSpec(nd, dims, strides, key).dims)
  {
    match key {
      case KeySlice(s) =>
        SelectionEnds(s, dims[0]);
      case KeyTuple(items) =>
        TupleDimsNonNegative(items, dims, strides, nd);
      case _ =>
    }
  }

  /**
   * Each element of the view built from the first `n` axes is the element
   * of the parent at the returned index: same byte offset from the
   * parent's data.
   */
  lemma {:induction false} TupleElementInParent(items: seq<Item>, dims: seq<int>, strides: seq<int>, n: nat,
                                                vidx: seq<int>) returns (idx: seq<int>)
    requires n <= |dims| == |strides| && NonNegative(dims)
    requires TupleUpTo(items, dims, strides, n).Ok?
    requires InShape(vidx, TupleUpTo(items, dims, strides, n).acc.dims)
    ensures InShape(idx, dims[..n])
    ensures TupleUpTo(items, dims, strides, n).acc.delta + Dot(TupleUpTo(items, dims, strides, n).acc.strides, vidx)
            == Dot(strides[..n], idx)
  {
    if n == 0 {
      idx := [];
    } else {
      var d := n - 1;
      var a0 := TupleUpTo(items, dims, strides, d).acc;
      var acc := TupleUpTo(items, dims, strides, n).acc;
      assert strides[..n] == strides[..d] + [strides[d]];
      assert dims[..n] == dims[..d] + [dims[d]];
      assert acc == AxisStep(a0, items, dims[d], strides[d], d).acc;
      if d < |items| && items[d].ItemIndex? {
        var m := AxisIndex(items[d].i, dims[d]).value;
        var idx0 := TupleElementInParent(items, dims, strides, d, vidx);
        idx := idx0 + [m];
        DotAppend(strides[..d], idx0, strides[d], m);
      } else {
        var k := |a0.dims|;
        var sub := vidx[..k];
        var j := vidx[k];
        assert vidx == sub + [j];
        assert InShape(sub, a0.dims);
        var idx0 := TupleElementInParent(items, dims, strides, d, sub);
        if d >= |items| {
          idx := idx0 + [j];
          KeptAxisInParent(a0, strides[..d], dims[..d], idx0, sub, dims[d], strides[d], j);
        } else {
          idx := SlicedAxisInParent(a0, strides[..d], dims[..d], idx0, sub, items[d].s, dims[d], strides[d], j);
        }
      }
    }
  }

  /** The step of `TupleElementInParent` for an axis copied unchanged. */
  lemma KeptAxisInParent(a0: Acc, strides0: seq<int>, dims0: seq<int>, idx0: seq<int>, sub: seq<int>,
                         dim: int, stride: int, j: int)
    requires |a0.strides| == |sub| && |strides0| == |idx0| && InShape(idx0, dims0)
    requires a0.delta + Dot(a0.strides, sub) == Dot(strides0, idx0)
    requires 0 <= j < dim
    ensures InShape(idx0 + [j], dims0 + [dim])
    ensures a0.delta + Dot(a0.strides + [stride], sub + [j]) == Dot(strides0 + [stride], idx0 + [j])
  {
    DotAppend(a0.strides, sub, stride, j);
    DotAppend(strides0, idx0, stride, j);
  }

  /** The step of `TupleElementInParent` for an axis a slice entry selects from. */
  lemma SlicedAxisInParent(a0: Acc, strides0: seq<int>, dims0: seq<int>, idx0: seq<int>, sub: seq<int>,
                           s: Slice, dim: int, stride: int, j: int) returns (idx: seq<int>)
    requires |a0.strides| == |sub| && |strides0| == |idx0| && InShape(idx0, dims0)
    requires a0.delta + Dot(a0.strides, sub) == Dot(strides0, idx0)
    requires dim >= 0 && GetIndices(s, dim).Some? && 0 <= j < GetIndices(s, dim).value.length
    ensures var ix := GetIndices(s, dim).value;
            InShape(idx, dims0 + [dim]) &&
            a0.delta + ix.start * stride + Dot(a0.strides + [ix.step * stride], sub + [j]) ==
              Dot(strides0 + [stride], idx)
  {
    var ix := GetIndices(s, dim).value;
    SelectionInBounds(s, dim, j);
    var p := ix.start + j * ix.step;
    idx := idx0 + [p];
    DotAppend(a0.strides, sub, ix.step * stride, j);
    DotAppend(strides0, idx0, stride, p);
    Distribute(ix.start, j, ix.step, stride);
  }

  /** The integer-key case of `ViewElementInParent`. */
  lemma IntViewElementInParent(nd: int, dims: seq<int>, strides: seq<int>, i: int, vidx: seq<int>)
    returns (idx: seq<int>)
    requires Shaped(nd, dims, strides)
    requires SubscriptSpec(nd, dims, strides, KeyIndex(i)).View?
    requires InShape(vidx, dims[1..])
    ensures InShape(idx, dims)
    ensures SubscriptSpec(nd, dims, strides, KeyIndex(i)).delta + Dot(strides[1..], vidx) == Dot(strides, idx)
  {
    var m := AxisIndex(i, dims[0]).value;
    idx := [m] + vidx;
    assert dims == [dims[0]] + dims[1..];
    assert strides == [strides[0]] + strides[1..];
    DotPrepend(strides[1..], vidx, strides[0], m);
  }

  /** The slice-key case of `ViewElementInParent`. */
  lemma SliceViewElementInParent(nd: int, dims: seq<int>, strides: seq<int>, s: Slice, vidx: seq<int>)
    returns (idx: seq<int>)
    requires Shaped(nd, dims, strides) && NonNegative(dims)
    requires SubscriptSpec(nd, dims, strides, KeySlice(s)).View?
    requires InShape(vidx, SubscriptSpec(nd, dims, strides, KeySlice(s)).dims)
    ensures InShape(idx, dims)
    ensures SubscriptSpec(nd, dims, strides, KeySlice(s)).delta +
            Dot(SubscriptSpec(nd, dims, strides, KeySlice(s)).strides, vidx) == Dot(strides, idx)
  {
    var ix := GetIndices(s, dims[0]).value;
    var view := SubscriptSpec(nd, dims, strides, KeySlice(s));
    assert view == View([ix.length] + dims[1..], [ix.step * strides[0]] + strides[1..], ix.start * strides[0]);
    assert dims == [dims[0]] + dims[1..];
    assert strides == [strides[0]] + strides[1..];
    idx := SlicedFirstAxis(s, dims[0], strides[0], dims[1..], strides[1..], vidx);
  }

  /** `SliceViewElementInParent` with the parent's first axis split off. */
  lemma SlicedFirstAxis(s: Slice, dim: int, stride: int, dims1: seq<int>, strides1: seq<int>, vidx: seq<int>)
    returns (idx: seq<int>)
    requires dim >= 0 && GetIndices(s, dim).Some? && |dims1| == |strides1|
    requires InShape(vidx, [GetIndices(s, dim).value.length] + dims1)
    ensures InShape(idx, [dim] + dims1)
    ensures var ix := GetIndices(s, dim).value;
            ix.start * stride + Dot([ix.step * stride] + strides1, vidx) == Dot([stride] + strides1, idx)
  {
    var ix := GetIndices(s, dim).value;
    var j := vidx[0];
    SelectionInBounds(s, dim, j);
    var p := ix.start + j * ix.step;
    var rest := vidx[1..];
    idx := [p] + rest;
    assert vidx == [j] + rest;
    DotPrepend(strides1, rest, ix.step * stride, j);
    DotPrepend(strides1, rest, stride, p);
    Distribute(ix.start, j, ix.step, stride);
  }

  /**
   * Every element of a view is an element of the parent: for each index of
   * the view there is an index of the parent addressing the same byte
   * offset, `delta + Dot(view strides, vidx) == Dot(strides, idx)`.
   */
  lemma ViewElementInParent(nd: int, dims: seq<int>, strides: seq<int>, key: Key, vidx: seq<int>)
    returns (idx: seq<int>)
    requires Shaped(nd, dims, strides) && NonNegative(dims)
    requires SubscriptSpec(nd, dims, strides, key).View?
    requires InShape(vidx, SubscriptSpec(nd, dims, strides, key).dims)
    ensures InShape(idx, dims)
    ensures SubscriptSpec(nd, dims, strides, key).delta + Dot(SubscriptSpec(nd, dims, strides, key).strides, vidx)
            == Dot(strides, idx)
  {
    match key {
      case KeyIndex(i) =>
        idx := IntViewElementInParent(nd, dims, strides, i, vidx);
      case KeySlice(s) =>
        idx := SliceViewElementInParent(nd, dims, strides, s, vidx);
      case KeyTuple(items) =>
        idx := TupleElementInParent(items, dims, strides, nd, vidx);
        assert dims[..nd] == dims && strides[..nd] == strides;
    }
  }

  // ---------------------------------------------------------- worked example

  /**
   * A 3x4 array of 8-byte items laid out in C order (strides 32 and 8
   * bytes): `a[1]`, `a[::-1]`, `a[1:, -1]`, `a[::0]`, `a[0, 0, 0]` and
   * `a[1:, "x"]`.
   */
  lemma ThreeByFourExamples()
    ensures SubscriptSpec(2, [3, 4], [32, 8], KeyIndex(1)) == View([4], [8], 32)
    ensures SubscriptSpec(2, [3, 4], [32, 8], KeySlice(Slice(None, None, Some(-1)))) == View([3, 4], [-32, 8], 64)
    ensures SubscriptSpec(2, [3, 4], [32, 8], KeyTuple([ItemSlice(Slice(Some(1), None, None)), ItemIndex(-1)]))
            == View([2], [32], 56)
    ensures SubscriptSpec(2, [3, 4], [32, 8], KeySlice(Slice(None, None, Some(0)))) == Fail(ValueError)
    ensures SubscriptSpec(2, [3, 4], [32, 8], KeyTuple([ItemIndex(0), ItemIndex(0), ItemIndex(0)])) == Fail(IndexError)
    ensures SubscriptSpec(2, [3, 4], [32, 8], KeyTuple([ItemSlice(Slice(Some(1), None, None)), ItemOther(true)]))
            == Fail(IndexError)
  {
    var dims, strides := [3, 4], [32, 8];
    assert dims[1..] == [4] && strides[1..] == [8];
    var t := [ItemSlice(Slice(Some(1), None, None)), ItemIndex(-1)];
    assert GetIndices(Slice(Some(1), None, None), 3) == Some(Indices(1, 3, 1, 2));
    assert TupleUpTo(t, dims, strides, 1) == Ok(Acc([2], [32], 32));
  }
}
