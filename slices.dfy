/**
 * Slice normalisation as CPython's `PySlice_GetIndicesEx` performs it
 * (Objects/sliceobject.c of CPython 2.7): the slice's start, stop and step
 * are resolved against a sequence length, clamped to it, and the number of
 * selected items is computed with C's truncating division.
 */
module Slices {
  import opened Wrappers

  /** A slice object `start:stop:step`; `None` stands for an omitted field. */
  datatype Slice = Slice(start: Option<int>, stop: Option<int>, step: Option<int>)

  /** The resolved `start`, `stop`, `step` and `slicelength`. */
  datatype Indices = Indices(start: int, stop: int, step: int, length: int)

  function Abs(x: int): nat { if x < 0 then -x else x }

  /** C's integer division, which truncates toward zero. */
  function CDiv(a: int, b: int): int
    requires b != 0
  {
    if (a < 0) == (b < 0) then Abs(a) / Abs(b) else -(Abs(a) / Abs(b))
  }

  /** Resolution of an explicit start or stop: wrap negatives once, then clamp. */
  function ClampIndex(v: int, length: int, step: int): int
  {
    var wrapped := if v < 0 then v + length else v;
    var low := if wrapped < 0 then (if step < 0 then -1 else 0) else wrapped;
    if low >= length then (if step < 0 then length - 1 else length) else low
  }

  /**
   * `PySlice_GetIndicesEx`; `None` is its failure, the ValueError "slice
   * step cannot be zero".
   */
  function GetIndices(s: Slice, length: int): Option<Indices>
  {
    var step := if s.step.None? then 1 else s.step.value;
    if step == 0 then None
    else
      var start := if s.start.None? then (if step < 0 then length - 1 else 0)
                   else ClampIndex(s.start.value, length, step);
      var stop := if s.stop.None? then (if step < 0 then -1 else length)
                  else ClampIndex(s.stop.value, length, step);
      var slen := if (step < 0 && stop >= start) || (step > 0 && start >= stop) then 0
                  else if step < 0 then CDiv(stop - start + 1, step) + 1
                  else CDiv(stop - start - 1, step) + 1;
      Some(Indices(start, stop, step, slen))
  }

  /** The `k`-th selected position lies strictly before `stop` in the direction of `step`. */
  predicate BeforeStop(x: int, stop: int, step: int)
  {
    if step > 0 then x < stop else x > stop
  }

  /** Normalisation fails exactly for a zero step. */
  lemma GetIndicesFails(s: Slice, length: int)
    ensures GetIndices(s, length).None? <==> s.step == Some(0)
  {
  }

  lemma MulMonotone(k: int, q: int, m: int)
    requires 0 <= k <= q && m > 0
    ensures k * m <= q * m
  {
    assert (q - k) * m >= 0;
  }

  /** Euclidean division of a non-negative `a` by a positive `m`. */
  lemma DivBounds(a: int, m: int)
    requires a >= 0 && m > 0
    ensures (a / m) * m <= a < (a / m) * m + m
  {
  }

  /** The arithmetic of an ascending run of `len` positions from `start` toward `stop`. */
  lemma AscendingRun(start: int, stop: int, step: int, len: int)
    requires step > 0 && start < stop && len == (stop - start - 1) / step + 1
    ensures len >= 1
    ensures start + (len - 1) * step < stop <= start + len * step
  {
    DivBounds(stop - start - 1, step);
    assert len * step == (len - 1) * step + step;
  }

  /** The same for a descending run, written with `m = -step`. */
  lemma DescendingRun(start: int, stop: int, m: int, len: int)
    requires m > 0 && stop < start && len == (start - stop - 1) / m + 1
    ensures len >= 1
    ensures start - (len - 1) * m > stop >= start - len * m
  {
    DivBounds(start - stop - 1, m);
    assert len * m == (len - 1) * m + m;
  }

  /** The bounds a successful normalisation gives `start`, `stop` and `slicelength`. */
  predicate WellResolved(ix: Indices, length: int)
  {
            ix.step != 0 &&
            (ix.step > 0 ==> 0 <= ix.start <= length && 0 <= ix.stop <= length) &&
            (ix.step < 0 ==> -1 <= ix.start < length && -1 <= ix.stop < length) &&
            (ix.step > 0 && ix.start < ix.stop ==> ix.length == (ix.stop - ix.start - 1) / ix.step + 1) &&
            (ix.step < 0 && ix.stop < ix.start ==> ix.length == (ix.start - ix.stop - 1) / -ix.step + 1) &&
            (ix.step > 0 && ix.start >= ix.stop ==> ix.length == 0) &&
            (ix.step < 0 && ix.stop >= ix.start ==> ix.length == 0)
  }

  lemma Resolved(s: Slice, length: int)
    requires length >= 0
    requires GetIndices(s, length).Some?
    ensures WellResolved(GetIndices(s, length).value, length)
  {
  }

  /**
   * The selected positions `start + k*step`, `k < slicelength`, are all
   * valid indices of a sequence of the given length and lie before `stop`.
   */
  lemma SelectionInBounds(s: Slice, length: int, k: int)
    requires length >= 0
    requires GetIndices(s, length).Some?
    requires 0 <= k < GetIndices(s, length).value.length
    ensures var ix := GetIndices(s, length).value;
            0 <= ix.start + k * ix.step < length && BeforeStop(ix.start + k * ix.step, ix.stop, ix.step)
  {
    Resolved(s, length);
    RunInBounds(GetIndices(s, length).value, length, k);
  }

  lemma RunInBounds(ix: Indices, length: int, k: int)
    requires WellResolved(ix, length)
    requires 0 <= k < ix.length
    ensures 0 <= ix.start + k * ix.step < length && BeforeStop(ix.start + k * ix.step, ix.stop, ix.step)
  {
    if ix.step > 0 {
      AscendingRun(ix.start, ix.stop, ix.step, ix.length);
      MulMonotone(k, ix.length - 1, ix.step);
    } else {
      var m := -ix.step;
      DescendingRun(ix.start, ix.stop, m, ix.length);
      MulMonotone(k, ix.length - 1, m);
      assert k * ix.step == -(k * m);
    }
  }

  /**
   * `slicelength` is never negative and counts exactly the positions before
   * `stop`: the position after the selection is no longer before it.
   */
  lemma SelectionEnds(s: Slice, length: int)
    requires length >= 0
    requires GetIndices(s, length).Some?
    ensures var ix := GetIndices(s, length).value;
            ix.length >= 0 && !BeforeStop(ix.start + ix.length * ix.step, ix.stop, ix.step)
  {
    Resolved(s, length);
    RunEnds(GetIndices(s, length).value, length);
  }

  lemma RunEnds(ix: Indices, length: int)
    requires WellResolved(ix, length)
    ensures ix.length >= 0 && !BeforeStop(ix.start + ix.length * ix.step, ix.stop, ix.step)
  {
    if ix.step > 0 && ix.start < ix.stop {
      AscendingRun(ix.start, ix.stop, ix.step, ix.length);
    } else if ix.step < 0 && ix.stop < ix.start {
      var m := -ix.step;
      DescendingRun(ix.start, ix.stop, m, ix.length);
      assert ix.length * ix.step == -(ix.length * m);
    }
  }

  /** The full slice `[:]` selects every index in order. */
  lemma FullSlice(length: int)
    requires length >= 0
    ensures GetIndices(Slice(None, None, None), length) == Some(Indices(0, length, 1, length))
  {
  }

  /** The reversing slice `[::-1]` selects every index, last first. */
  lemma ReversedSlice(length: int)
    requires length >= 0
    ensures GetIndices(Slice(None, None, Some(-1)), length) == Some(Indices(length - 1, -1, -1, length))
  {
  }
}
