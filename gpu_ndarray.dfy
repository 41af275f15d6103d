/**
 * The GPU array object of `ndarray/pygpu_ndarray.cpp`: a record holding a
 * device data address, the rank, heap-allocated dims and strides arrays,
 * numpy-style flags, a `base` reference keeping a borrowed buffer alive,
 * and `dataAllocated`, which is non-zero exactly when the record owns its
 * device buffer.  Device memory is modelled by the `Device` class: an
 * allocator and a table of live allocations.
 */
module GpuNdArray {
  import opened Wrappers
  import opened Shapes
  import opened Slices
  import opened NdSpec
  import CompyteStrides

  /** numpy's array flags, as the record keeps them. */
  datatype Flags = Flags(cContiguous: bool, fContiguous: bool, ownData: bool,
                         writeable: bool, aligned: bool, updateIfCopy: bool)

  /** `NPY_DEFAULT` (numpy's `NPY_CARRAY`): C-contiguous, aligned, writeable. */
  const DefaultFlags := Flags(true, false, false, true, true, false)

  /** A dtype descriptor: numpy's type number and the item size in bytes. */
  datatype Descr = Descr(typeNum: int, elsize: nat)

  /** `float64`, numpy type number 12, the default dtype of `zeros` and `empty`. */
  const Float64 := Descr(12, 8)

  /** What `base` refers to: nothing, another GPU array, or some other Python object. */
  datatype Base = NoBase | Gpu(arr: NdArray) | Foreign(id: int)

  datatype SubResult = Same | NewView(arr: NdArray) | Error(err: PyError)
  datatype ArrayResult = Made(arr: NdArray) | Failed(err: PyError)

  /**
   * The flags of a subscript result: never owning, never update-if-copy,
   * writeable and aligned as the parent, contiguity recomputed from the
   * view's own dims and strides.
   */
  function ViewFlags(parent: Flags, dims: seq<int>, strides: seq<int>, itemsize: int): Flags
  {
    var layout := CompyteStrides.MakeArrayFlags(strides, itemsize, dims);
    Flags(layout.cContiguous, layout.fContiguous, false, parent.writeable, parent.aligned, false)
  }

  /** Bytes requested for a contiguous buffer of the given shape (at least one). */
  function BufferBytes(elsize: nat, dims: seq<int>): int
  {
    Clamp1(elsize * Prod(dims))
  }

  // ------------------------------------------------------------------ device

  /** Whether the next transfer succeeds: the head of the outcomes, success once they run out. */
  function NextOk(outcomes: seq<bool>): bool
  {
    outcomes == [] || outcomes[0]
  }

  /** The outcomes left after one transfer. */
  function AfterOne(outcomes: seq<bool>): seq<bool>
  {
    if outcomes == [] then [] else outcomes[1..]
  }

  /**
   * Device memory: live allocations by address, a bump allocator, and the
   * outcomes of the transfers still to come, one per `PyGpuMemcpy` or
   * `PyGpuMemset`, in order.
   */
  class Device {
    var live: map<int, int>
    var next: int
    var avail: int
    var outcomes: seq<bool>

    ghost predicate Valid()
      reads this
    {
      next > 0 && avail >= 0 && forall p :: p in live ==> 0 < p < next && live[p] >= 0
    }

    constructor (capacity: nat, outcomes: seq<bool>)
      ensures Valid() && live == map[] && avail == capacity && this.outcomes == outcomes
    {
      live := map[];
      next := 1;
      avail := capacity;
      this.outcomes := outcomes;
    }

    /** `device_malloc`: a fresh non-null address, or null when the device is full. */
    method Malloc(size: nat) returns (p: int)
      requires Valid()
      modifies this
      ensures Valid() && outcomes == old(outcomes)
      ensures p == 0 <==> size > old(avail)
      ensures p == 0 ==> live == old(live) && avail == old(avail)
      ensures p != 0 ==> p !in old(live) && live == old(live)[p := size] && avail == old(avail) - size
    {
      if size > avail {
        return 0;
      }
      p := next;
      live := live[p := size];
      next := next + size + 1;
      avail := avail - size;
    }

    /** `device_free`: fails (returns true) on an address that is not live. */
    method Free(p: int) returns (err: bool)
      requires Valid()
      modifies this
      ensures Valid() && outcomes == old(outcomes)
      ensures err <==> p !in old(live)
      ensures live == old(live) - {p}
      ensures avail == (if err then old(avail) else old(avail) + old(live)[p])
    {
      if p !in live {
        return true;
      }
      avail := avail + live[p];
      live := live - {p};
      err := false;
    }

    /** `PyGpuMemcpy` / `PyGpuMemset`: takes the next outcome and reports an error when it is a failure. */
    method Transfer() returns (err: bool)
      modifies this`outcomes
      ensures err == !NextOk(old(outcomes)) && outcomes == AfterOne(old(outcomes))
    {
      err := !NextOk(outcomes);
      outcomes := AfterOne(outcomes);
    }
  }

  // ------------------------------------------------------------ base chains

  /**
   * `chain` lists the GPU arrays reached from `b` by following `base`
   * links, stopping at the first one whose `base` is not a GPU array.
   */
  ghost predicate IsChain(b: Base, chain: seq<NdArray>)
    reads chain`base
  {
    if !b.Gpu? then chain == []
    else |chain| >= 1 && chain[0] == b.arr &&
         (forall i :: 0 <= i < |chain| - 1 ==> chain[i].base == Gpu(chain[i + 1])) &&
         !chain[|chain| - 1].base.Gpu?
  }

  /** Where `set_data`'s walk along the chain stops. */
  ghost function ChainRoot(b: Base, chain: seq<NdArray>): Base
    reads chain`base
    requires IsChain(b, chain)
  {
    if !b.Gpu? then b
    else
      var last := chain[|chain| - 1];
      if last.base.NoBase? then Gpu(last) else last.base
  }

  /**
   * The root is the given base when that is no GPU array, and otherwise
   * either a GPU array of the chain that has no base of its own or the
   * non-GPU base of the chain's last array: never a view of a view.
   */
  lemma RootIsCollapsed(b: Base, chain: seq<NdArray>)
    requires IsChain(b, chain)
    ensures var r := ChainRoot(b, chain);
            (!b.Gpu? ==> r == b) &&
            (r.Gpu? ==> r.arr in chain && r.arr.base.NoBase?) &&
            (b.Gpu? && !r.Gpu? ==> r == chain[|chain| - 1].base)
  {
  }

  /** An array in front of its own chain is a chain from a reference to it. */
  lemma ExtendChain(a: NdArray, above: seq<NdArray>)
    requires IsChain(a.base, above)
    ensures IsChain(Gpu(a), [a] + above)
    ensures ChainRoot(Gpu(a), [a] + above) ==
            if above == [] then (if a.base.NoBase? then Gpu(a) else a.base) else ChainRoot(a.base, above)
  {
    var c := [a] + above;
    if above != [] {
      assert c[|c| - 1] == above[|above| - 1];
      forall i | 0 <= i < |c| - 1
        ensures c[i].base == Gpu(c[i + 1])
      {
        if i > 0 {
          assert c[i] == above[i - 1];
        }
      }
    }
  }

  // ------------------------------------------------------------------ arrays

  class NdArray {
    var data: int
    var offset: int
    var nd: int
    var dims: array<int>
    var strides: array<int>
    var flags: Flags
    var base: Base
    var dataAllocated: int
    var descr: Descr

    ghost predicate Valid()
      reads this, dims, strides
    {
      Shaped(nd, dims[..], strides[..]) && dims != strides && NonNegative(dims[..]) &&
      offset == 0 && (dataAllocated != 0 ==> data != 0)
    }

    /**
     * `PyGpuNdArray_New(nd)` followed by the caller's assignment of the
     * dtype: a record in the `null_init` state (null data, no base, default
     * flags, nothing owned) with rank `nd`, or -1 for a negative `nd`.
     */
    constructor (nd0: int, d: Descr)
      ensures Valid() && fresh(dims) && fresh(strides)
      ensures nd == (if nd0 >= 0 then nd0 else -1)
      ensures data == 0 && flags == DefaultFlags && base == NoBase && dataAllocated == 0 && descr == d
    {
      data := 0;
      offset := 0;
      flags := DefaultFlags;
      base := NoBase;
      dataAllocated := 0;
      descr := d;
      if nd0 >= 0 {
        nd := nd0;
        dims := new int[nd0](_ => 0);
        strides := new int[nd0](_ => 0);
      } else {
        nd := -1;
        dims := new int[0];
        strides := new int[0];
      }
    }

    /** `__len__`: the length of axis 0, and 0 for a 0-d or uninitialised array. */
    function Len(): (r: int)
      reads this, dims, strides
      requires Valid()
      ensures r >= 0
      ensures nd > 0 ==> r == dims[0]
      ensures nd <= 0 ==> r == 0
    {
      if nd <= 0 then 0 else dims[0]
    }

    /** `PyGpuNdArray_ISONESEGMENT`: rank 0, or C- or Fortran-contiguous. */
    predicate OneSegment()
      reads this
    {
      nd == 0 || flags.cContiguous || flags.fContiguous
    }

    /**
     * `PyGpuNdArray_set_data`: release an owned buffer, then point at `p`
     * and take as base the root of `b`'s chain.  If releasing fails, the
     * record drops its buffer and reports -1 with its base unchanged.
     */
    method SetData(dev: Device, p: int, b: Base, ghost chain: seq<NdArray>) returns (status: int)
      requires Valid() && dev.Valid() && IsChain(b, chain)
      modifies this, dev
      ensures Valid() && dev.Valid()
      ensures nd == old(nd) && dims == old(dims) && strides == old(strides)
      ensures flags == old(flags) && descr == old(descr)
      ensures dataAllocated == 0
      ensures dev.live == (if old(dataAllocated) != 0 then old(dev.live) - {old(data)} else old(dev.live))
      ensures old(dataAllocated) == 0 ==> unchanged(dev)
      ensures old(dataAllocated) != 0 && old(data) !in old(dev.live) ==>
                status == -1 && data == 0 && base == old(base)
      ensures !(old(dataAllocated) != 0 && old(data) !in old(dev.live)) ==>
                status == 0 && data == p && base == old(ChainRoot(b, chain))
      ensures status == 0 && this !in chain && base.Gpu? ==> base.arr.base.NoBase?
    {
      if dataAllocated != 0 {
        var err := dev.Free(data);
        if err {
          data := 0;
          dataAllocated := 0;
          return -1;
        }
      }
      ghost var root := ChainRoot(b, chain);
      var orig := b;
      ghost var i := 0;
      while orig.Gpu? && !orig.arr.base.NoBase?
        invariant 0 <= i <= |chain| && IsChain(b, chain)
        invariant !b.Gpu? ==> orig == b
        invariant b.Gpu? && i < |chain| ==> orig == Gpu(chain[i])
        invariant b.Gpu? && i < |chain| - 1 ==> orig.arr.base == Gpu(chain[i + 1])
        invariant b.Gpu? && i == |chain| ==> orig == chain[|chain| - 1].base && !orig.NoBase?
        decreases |chain| - i
      {
        orig := orig.arr.base;
        i := i + 1;
      }
      assert orig == root;
      if base != orig {
        base := orig;
      }
      dataAllocated := 0;
      data := p;
      status := 0;
    }

    /**
     * `PyGpuNdArrayObject_dealloc`: the device buffer is freed only when the
     * record owns it; the record returns to the uninitialised state.
     */
    method Dealloc(dev: Device)
      requires Valid() && dev.Valid()
      modifies this, dev
      ensures Valid() && dev.Valid() && dev.outcomes == old(dev.outcomes)
      ensures old(dataAllocated) != 0 && old(data) != 0 ==> dev.live == old(dev.live) - {old(data)}
      ensures !(old(dataAllocated) != 0 && old(data) != 0) ==> unchanged(dev)
      ensures data == (if old(dataAllocated) != 0 then 0 else old(data))
      ensures nd == -1 && base == NoBase && flags == DefaultFlags && dataAllocated == 0 && descr == old(descr)
    {
      if dataAllocated != 0 {
        if data != 0 {
          var err := dev.Free(data);
          data := 0;
        }
      }
      offset := 0;
      nd := -1;
      base := NoBase;
      dims := new int[0];
      strides := new int[0];
      flags := DefaultFlags;
      dataAllocated := 0;
    }

    /** Recomputes the flags of a freshly built view, as the end of `Subscript` does. */
    method SetViewFlags(parent: Flags, ghost vd: seq<int>, ghost vs: seq<int>)
      requires dims[..] == vd && strides[..] == vs
      modifies this`flags
      ensures flags == ViewFlags(parent, vd, vs, descr.elsize)
    {
      flags := flags.(writeable := parent.writeable);
      flags := flags.(ownData := false);
      flags := flags.(aligned := parent.aligned);
      flags := flags.(updateIfCopy := false);
      var layout := CompyteStrides.MakeArrayFlags(strides[..], descr.elsize, dims[..]);
      flags := flags.(cContiguous := layout.cContiguous);
      flags := flags.(fContiguous := layout.fContiguous);
    }

    /**
     * A new record of rank `rnd` with this array's dtype, pointing at `p`
     * and based on this array's chain root: `New`, the dtype assignment and
     * `set_data` as every view-building path performs them.
     */
    method AllocView(dev: Device, rnd: int, p: int, ghost above: seq<NdArray>) returns (r: NdArray)
      requires Valid() && dev.Valid() && IsChain(base, above)
      modifies dev
      ensures unchanged(dev)
      ensures fresh(r) && fresh(r.dims) && fresh(r.strides) && r.Valid()
      ensures r.nd == (if rnd >= 0 then rnd else -1) && r.data == p && r.dataAllocated == 0 && r.descr == descr && r.flags == DefaultFlags
      ensures r.base == ChainRoot(Gpu(this), [this] + above)
      ensures r.base.Gpu? ==> r.base.arr.base.NoBase?
    {
      r := new NdArray(rnd, descr);
      ExtendChain(this, above);
      var status := r.SetData(dev, p, Gpu(this), [this] + above);
    }

    /** `r` is the view `spec` describes, taken from an array with the given data, flags and dtype. */
    ghost predicate IsView(r: NdArray, spec: Sub, root: Base)
      reads this, r, r.dims, r.strides
    {
      spec.View? && r.Valid() && r.nd == |spec.dims| &&
      r.dims[..] == spec.dims && r.strides[..] == spec.strides &&
      r.data == data + spec.delta && r.dataAllocated == 0 && r.descr == descr &&
      r.flags == ViewFlags(flags, spec.dims, spec.strides, descr.elsize) &&
      r.base == root
    }

    /** `View`: same rank, dims and strides, same data, flags copied without ownership. */
    method View(dev: Device, ghost above: seq<NdArray>) returns (r: NdArray)
      requires Valid() && dev.Valid() && IsChain(base, above)
      modifies dev
      ensures unchanged(dev)
      ensures fresh(r) && fresh(r.dims) && fresh(r.strides) && r.Valid()
      ensures r.nd == nd && r.dims[..] == dims[..] && r.strides[..] == strides[..]
      ensures r.data == data && r.dataAllocated == 0 && r.descr == descr
      ensures r.flags == flags.(ownData := false)
      ensures r.base == ChainRoot(Gpu(this), [this] + above)
      ensures r.base.Gpu? ==> r.base.arr.base.NoBase?
    {
      r := AllocView(dev, nd, data, above);
      var n := if nd >= 0 then nd else 0;
      r.CopyAxes(dims, strides, 0, n, 0);
      assert r.dims[..] == r.dims[0..n] && r.strides[..] == r.strides[0..n];
      assert dims[..] == dims[0..n] && strides[..] == strides[0..n];
      r.flags := flags;
      r.flags := r.flags.(ownData := false);
    }

    /**
     * Copies axes `from .. to-1` of the given dims and strides into this
     * record's axes `from - shift ..`, leaving the axes before them alone.
     */
    method CopyAxes(srcDims: array<int>, srcStrides: array<int>, from: int, to: int, shift: int)
      requires Valid() && NonNegative(srcDims[..])
      requires 0 <= from <= to <= srcDims.Length == srcStrides.Length
      requires 0 <= from - shift && to - shift <= dims.Length
      requires srcDims != dims && srcDims != strides && srcStrides != dims && srcStrides != strides
      modifies dims, strides
      ensures Valid()
      ensures dims[from - shift..to - shift] == srcDims[from..to]
      ensures strides[from - shift..to - shift] == srcStrides[from..to]
      ensures dims[..from - shift] == old(dims[..from - shift]) && strides[..from - shift] == old(strides[..from - shift])
    {
      for d := from to to
        invariant dims[from - shift..d - shift] == srcDims[from..d]
        invariant strides[from - shift..d - shift] == srcStrides[from..d]
        invariant dims[..from - shift] == old(dims[..from - shift]) && strides[..from - shift] == old(strides[..from - shift])
        invariant NonNegative(dims[..])
      {
        strides[d - shift] := srcStrides[d];
        dims[d - shift] := srcDims[d];
        assert dims[from - shift..d + 1 - shift] == dims[from - shift..d - shift] + [dims[d - shift]];
        assert strides[from - shift..d + 1 - shift] == strides[from - shift..d - shift] + [strides[d - shift]];
        assert srcDims[from..d + 1] == srcDims[from..d] + [srcDims[d]];
        assert srcStrides[from..d + 1] == srcStrides[from..d] + [srcStrides[d]];
      }
    }

    /** The integer-key path of `Subscript`. */
    method IndexInt(dev: Device, i: int, ghost above: seq<NdArray>) returns (res: SubResult)
      requires Valid() && dev.Valid() && IsChain(base, above)
      modifies dev
      ensures unchanged(dev)
      ensures var spec := SubscriptSpec(nd, dims[..], strides[..], KeyIndex(i));
              (spec.Fail? ==> res == Error(spec.err)) &&
              (spec.View? ==> res.NewView? && fresh(res.arr) && fresh(res.arr.dims) && fresh(res.arr.strides) &&
                              IsView(res.arr, spec, ChainRoot(Gpu(this), [this] + above)))
      ensures res.NewView? && res.arr.base.Gpu? ==> res.arr.base.arr.base.NoBase?
    {
      if nd == 0 {
        return Error(IndexError);
      } else if nd < 0 {
        return Error(IndexError);
      }
      var dDim := dims[0];
      var off := 0;
      if 0 <= i < dDim {
        off := off + i * strides[0];
      } else if i < 0 && i >= -dDim {
        off := off + (dDim + i) * strides[0];
      } else {
        return Error(IndexError);
      }
      assert SubscriptSpec(nd, dims[..], strides[..], KeyIndex(i)) == NdSpec.View(dims[1..], strides[1..], off);
      var r := DropFirstAxis(dev, off, above);
      res := NewView(r);
    }

    /** The view an integer key builds: the first axis dropped, the data moved by `off`. */
    method DropFirstAxis(dev: Device, off: int, ghost above: seq<NdArray>) returns (r: NdArray)
      requires Valid() && dev.Valid() && IsChain(base, above) && nd >= 1
      modifies dev
      ensures unchanged(dev)
      ensures fresh(r) && fresh(r.dims) && fresh(r.strides)
      ensures IsView(r, NdSpec.View(dims[1..], strides[1..], off), ChainRoot(Gpu(this), [this] + above))
      ensures r.base.Gpu? ==> r.base.arr.base.NoBase?
    {
      r := AllocView(dev, nd - 1, data + off, above);
      r.CopyAxes(dims, strides, 1, nd, 1);
      assert r.dims[..] == r.dims[0..nd - 1] && r.strides[..] == r.strides[0..nd - 1];
      r.SetViewFlags(flags, dims[1..], strides[1..]);
    }

    /** The slice-key path of `Subscript`, with the rank check extended to uninitialised arrays. */
    method IndexSlice(dev: Device, s: Slice, ghost above: seq<NdArray>) returns (res: SubResult)
      requires Valid() && dev.Valid() && IsChain(base, above)
      modifies dev
      ensures unchanged(dev)
      ensures var spec := SubscriptSpec(nd, dims[..], strides[..], KeySlice(s));
              (spec.Fail? ==> res == Error(spec.err)) &&
              (spec.View? ==> res.NewView? && fresh(res.arr) && fresh(res.arr.dims) && fresh(res.arr.strides) &&
                              IsView(res.arr, spec, ChainRoot(Gpu(this), [this] + above)))
      ensures res.NewView? && res.arr.base.Gpu? ==> res.arr.base.arr.base.NoBase?
    {
      if nd == 0 {
        return Error(ValueError);
      }
      if nd < 0 {
        return Error(ValueError);
      }
      var dDim := dims[0];
      var indices := GetIndices(s, dDim);
      if indices.None? {
        return Error(ValueError);
      }
      var ix := indices.value;
      SelectionEnds(s, dDim);
      var r := SliceFirstAxis(dev, ix, above);
      res := NewView(r);
    }

    /** The view a slice key builds: the first axis replaced by the selection `ix`. */
    method SliceFirstAxis(dev: Device, ix: Indices, ghost above: seq<NdArray>) returns (r: NdArray)
      requires Valid() && dev.Valid() && IsChain(base, above) && nd >= 1 && ix.length >= 0
      modifies dev
      ensures unchanged(dev)
      ensures fresh(r) && fresh(r.dims) && fresh(r.strides)
      ensures IsView(r, NdSpec.View([ix.length] + dims[1..], [ix.step * strides[0]] + strides[1..], ix.start * strides[0]),
                     ChainRoot(Gpu(this), [this] + above))
      ensures r.base.Gpu? ==> r.base.arr.base.NoBase?
    {
      r := AllocView(dev, nd, data + ix.start * strides[0], above);
      r.strides[0] := ix.step * strides[0];
      r.dims[0] := ix.length;
      r.CopyAxes(dims, strides, 1, nd, 0);
      assert r.dims[..] == [r.dims[0]] + r.dims[1..nd] == [ix.length] + dims[1..];
      assert r.strides[..] == [r.strides[0]] + r.strides[1..nd] == [ix.step * strides[0]] + strides[1..];
      r.SetViewFlags(flags, [ix.length] + dims[1..], [ix.step * strides[0]] + strides[1..]);
    }

    /**
     * One axis of a tuple key applied to the view under construction
     * (`this`), which holds `k` axes so far: a slice appends an axis and
     * advances the data address, an integer only advances it, anything
     * else is an error; axes beyond the tuple are appended unchanged.
     */
    method ApplyAxis(items: seq<Item>, d: nat, dim: int, stride: int, k: int, ghost acc: Acc, ghost origin: int)
      returns (k': int, err: Option<PyError>)
      requires Valid() && 0 <= k <= dims.Length && dim >= 0 && dataAllocated == 0
      requires acc.dims == dims[..k] && acc.strides == strides[..k] && data == origin + acc.delta
      requires d >= |items| || items[d].ItemSlice? ==> k < dims.Length
      modifies this`data, dims, strides
      ensures Valid() && dataAllocated == 0
      ensures AxisStep(acc, items, dim, stride, d).Err? ==> err == Some(AxisStep(acc, items, dim, stride, d).err)
      ensures AxisStep(acc, items, dim, stride, d).Ok? ==>
                var a := AxisStep(acc, items, dim, stride, d).acc;
                err.None? && 0 <= k' <= dims.Length && k' == |a.dims| &&
                dims[..k'] == a.dims && strides[..k'] == a.strides && data == origin + a.delta
    {
      k', err := k, None;
      if d >= |items| {
        strides[k] := stride;
        dims[k] := dim;
        k' := k + 1;
      } else {
        match items[d] {
          case ItemSlice(s) =>
            var indices := GetIndices(s, dim);
            if indices.None? {
              return k, Some(ValueError);
            }
            var ix := indices.value;
            SelectionEnds(s, dim);
            data := data + ix.start * stride;
            strides[k] := ix.step * stride;
            dims[k] := ix.length;
            k' := k + 1;
          case ItemIndex(i) =>
            if 0 <= i < dim {
              data := data + i * stride;
            } else if i < 0 && i >= -dim {
              data := data + (dim + i) * stride;
            } else {
              return k, Some(IndexError);
            }
          case ItemOther(_) =>
            return k, Some(IndexError);
        }
      }
      assert dims[..k'] == dims[..k] + dims[k..k'];
      assert strides[..k'] == strides[..k] + strides[k..k'];
    }

    /**
     * The loop over axes of the tuple-key path: fills the view `r`, whose
     * rank was computed up front, axis by axis from this array.
     */
    method FillTuple(r: NdArray, items: seq<Item>) returns (err: Option<PyError>)
      requires Valid() && r.Valid() && r.dataAllocated == 0 && r.data == data
      requires |items| <= nd && r.nd == nd - CountScalars(items)
      requires r.dims != dims && r.dims != strides && r.strides != dims && r.strides != strides
      modifies r`data, r.dims, r.strides
      ensures r.Valid() && r.dataAllocated == 0
      ensures err.Some? ==> TupleUpTo(items, dims[..], strides[..], nd) == Err(err.value)
      ensures err.None? ==> TupleUpTo(items, dims[..], strides[..], nd).Ok? &&
                            var acc := TupleUpTo(items, dims[..], strides[..], nd).acc;
                            r.dims[..] == acc.dims && r.strides[..] == acc.strides && r.data == data + acc.delta
    {
      CountScalarsBound(items);
      ghost var D, S := dims[..], strides[..];
      var rvalD := 0;
      err := None;
      ghost var acc := Acc([], [], 0);
      for d := 0 to nd
        invariant dims[..] == D && strides[..] == S && err.None?
        invariant r.Valid() && r.dataAllocated == 0
        invariant TupleUpTo(items, D, S, d) == Ok(acc)
        invariant rvalD == |acc.dims| <= r.nd
        invariant r.dims[..rvalD] == acc.dims && r.strides[..rvalD] == acc.strides
        invariant r.data == data + acc.delta
      {
        TupleRankFits(items, D, S, nd, d);
        ghost var next := AxisStep(acc, items, dims[d], strides[d], d);
        rvalD, err := r.ApplyAxis(items, d, dims[d], strides[d], rvalD, acc, data);
        if err.Some? {
          TupleErrSticks(items, D, S, d + 1, nd);
          return;
        }
        acc := next.acc;
        TupleRankFits(items, D, S, nd, d + 1);
      }
      TupleRankFits(items, D, S, nd, nd);
      assert r.dims[..] == r.dims[..rvalD];
      assert r.strides[..] == r.strides[..rvalD];
    }

    /** The tuple-key path of `Subscript`. */
    method IndexTuple(dev: Device, items: seq<Item>, ghost above: seq<NdArray>) returns (res: SubResult)
      requires Valid() && dev.Valid() && IsChain(base, above)
      modifies dev
      ensures unchanged(dev)
      ensures var spec := SubscriptSpec(nd, dims[..], strides[..], KeyTuple(items));
              (spec.Fail? ==> res == Error(spec.err)) &&
              (spec.View? ==> res.NewView? && fresh(res.arr) && fresh(res.arr.dims) && fresh(res.arr.strides) &&
                              IsView(res.arr, spec, ChainRoot(Gpu(this), [this] + above)))
      ensures res.NewView? && res.arr.base.Gpu? ==> res.arr.base.arr.base.NoBase?
    {
      if |items| > nd {
        return Error(IndexError);
      }
      var rvalNd := ViewRank(items);
      CountScalarsBound(items);
      var r, err := TupleView(dev, items, rvalNd, above);
      if err.Some? {
        return Error(err.value);
      }
      res := NewView(r);
    }

    /** The rank of the view a tuple key builds: one axis less per integer entry. */
    method ViewRank(items: seq<Item>) returns (rvalNd: int)
      ensures rvalNd == nd - CountScalars(items)
    {
      rvalNd := nd;
      for d := 0 to |items|
        invariant rvalNd == nd - CountScalars(items[..d])
      {
        assert items[..d + 1][..d] == items[..d];
        if IsScalar(items[d]) {
          rvalNd := rvalNd - 1;
        }
      }
      assert items[..|items|] == items;
    }

    /**
     * The view a tuple key builds: a record of the rank computed up front,
     * filled axis by axis; on an error the half-built record is released.
     */
    method TupleView(dev: Device, items: seq<Item>, rvalNd: int, ghost above: seq<NdArray>)
      returns (r: NdArray, err: Option<PyError>)
      requires Valid() && dev.Valid() && IsChain(base, above)
      requires |items| <= nd && rvalNd == nd - CountScalars(items) && rvalNd >= 0
      modifies dev
      ensures unchanged(dev)
      ensures var t := TupleUpTo(items, dims[..], strides[..], nd);
              (t.Err? ==> err == Some(t.err)) &&
              (t.Ok? ==> err.None? && fresh(r) && fresh(r.dims) && fresh(r.strides) &&
                         IsView(r, NdSpec.View(t.acc.dims, t.acc.strides, t.acc.delta), ChainRoot(Gpu(this), [this] + above)) &&
                         (r.base.Gpu? ==> r.base.arr.base.NoBase?))
    {
      r := AllocView(dev, rvalNd, data, above);
      err := FillTuple(r, items);
      if err.Some? {
        r.Dealloc(dev);
        return;
      }
      ghost var t := TupleUpTo(items, dims[..], strides[..], nd);
      r.SetViewFlags(flags, t.acc.dims, t.acc.strides);
    }

    /**
     * `PyGpuNdArray_Subscript`, `a[key]`: the ellipsis returns the array
     * itself, and every other key gives the outcome `SubscriptSpec`
     * describes, as a fresh view whose base is the root of this array's
     * chain.  Subscripting never touches device memory.
     */
    method Subscript(dev: Device, key: Key, ghost above: seq<NdArray>) returns (res: SubResult)
      requires Valid() && dev.Valid() && IsChain(base, above)
      modifies dev
      ensures unchanged(dev)
      ensures var spec := SubscriptSpec(nd, dims[..], strides[..], key);
              (spec.SameObject? ==> res == Same) &&
              (spec.Fail? ==> res == Error(spec.err)) &&
              (spec.View? ==> res.NewView? && fresh(res.arr) && fresh(res.arr.dims) && fresh(res.arr.strides) &&
                              IsView(res.arr, spec, ChainRoot(Gpu(this), [this] + above)))
      ensures res.NewView? && res.arr.base.Gpu? ==> res.arr.base.arr.base.NoBase?
    {
      match key {
        case KeyEllipsis =>
          res := Same;
        case KeyIndex(i) =>
          res := IndexInt(dev, i, above);
        case KeySlice(s) =>
          res := IndexSlice(dev, s, above);
        case KeyTuple(items) =>
          res := IndexTuple(dev, items, above);
        case KeyOther =>
          res := Error(NotImplementedError);
      }
    }

    /** `PyGpuNdArray_SIZE`: the number of elements. */
    function Size(): int
      reads this, dims
    {
      Prod(dims[..])
    }

    /** numpy 1.x `ISFARRAY`: Fortran-contiguous, aligned and writeable. */
    predicate IsFArray()
      reads this
    {
      flags.fContiguous && flags.aligned && flags.writeable
    }

    /** numpy 1.x `ISFORTRAN`: Fortran-contiguous with more than one axis. */
    predicate IsFortran()
      reads this
    {
      flags.fContiguous && nd > 1
    }

    /**
     * This record owns a fresh contiguous buffer of shape `shape`, laid out
     * in Fortran order when `fortran` holds and in C order otherwise, with
     * the flags `alloc_contiguous` gives such a buffer.
     */
    ghost predicate OwnsContiguous(shape: seq<int>, fortran: bool)
      reads this, dims, strides
    {
      var layout := if fortran then CompyteStrides.FStrides(descr.elsize, shape)
                    else CompyteStrides.CStrides(descr.elsize, shape);
      Valid() && nd == |shape| && dims[..] == shape && strides[..] == layout &&
      data != 0 && dataAllocated == BufferBytes(descr.elsize, shape) && base == NoBase &&
      flags == Flags(layout == CompyteStrides.CStrides(descr.elsize, shape),
                     layout == CompyteStrides.FStrides(descr.elsize, shape),
                     true, true, true, false)
    }

    /** Gives the record rank `|shape|` and fresh dims and strides arrays holding `shape` and `st`. */
    method SetShape(shape: seq<int>, st: seq<int>)
      requires |st| == |shape|
      modifies this`nd, this`dims, this`strides
      ensures nd == |shape| && fresh(dims) && fresh(strides) && dims != strides
      ensures dims[..] == shape && strides[..] == st
    {
      nd := |shape|;
      dims := new int[|shape|](i requires 0 <= i < |shape| => shape[i]);
      strides := new int[|shape|](i requires 0 <= i < |shape| => st[i]);
    }

    /**
     * `PyGpuNdArray_alloc_contiguous` on a record that owns nothing: set the
     * shape and the C- or Fortran-order strides, then take a fresh device
     * buffer.  A full device leaves the allocations as they were.
     */
    method AllocContiguous(dev: Device, shape: seq<int>, fortran: bool) returns (err: bool)
      requires Valid() && dev.Valid() && dataAllocated == 0 && base == NoBase && NonNegative(shape)
      modifies this, dev
      ensures Valid() && dev.Valid() && dev.outcomes == old(dev.outcomes) && descr == old(descr)
      ensures err <==> BufferBytes(descr.elsize, shape) > old(dev.avail)
      ensures err ==> dev.live == old(dev.live) && dataAllocated == 0 && base == NoBase
      ensures !err ==> fresh(dims) && fresh(strides) && OwnsContiguous(shape, fortran) &&
                       data !in old(dev.live) && dev.live == old(dev.live)[data := dataAllocated]
    {
      var st;
      if fortran {
        st := CompyteStrides.FContiguousStrides(descr.elsize, shape);
      } else {
        st := CompyteStrides.CContiguousStrides(descr.elsize, shape);
      }
      var size := BufferBytes(descr.elsize, shape);
      var p := dev.Malloc(size);
      if p == 0 {
        return true;
      }
      SetShape(shape, st);
      data := p;
      dataAllocated := size;
      var layout := CompyteStrides.MakeArrayFlags(st, descr.elsize, shape);
      flags := Flags(layout.cContiguous, layout.fContiguous, true, true, true, false);
      err := false;
    }

    /**
     * `PyGpuNdArray_Copy`: a new record with this array's dtype.  An
     * uninitialised array gives an uninitialised record; otherwise the
     * record owns a fresh C-ordered buffer of the same shape, filled by a
     * device-to-device copy.  On failure nothing stays allocated.
     */
    method Copy(dev: Device) returns (res: ArrayResult)
      requires Valid() && dev.Valid()
      modifies dev
      ensures dev.Valid()
      ensures res.Made? ==> fresh(res.arr) && fresh(res.arr.dims) && fresh(res.arr.strides) &&
                            res.arr.Valid() && res.arr.descr == descr
      ensures nd < 0 ==> res.Made? && res.arr.nd == -1 && res.arr.data == 0 &&
                         res.arr.dataAllocated == 0 && unchanged(dev)
      ensures nd >= 0 ==>
                var full := BufferBytes(descr.elsize, dims[..]) > old(dev.avail);
                (res.Failed? <==> full || !NextOk(old(dev.outcomes))) &&
                dev.outcomes == (if full then old(dev.outcomes) else AfterOne(old(dev.outcomes))) &&
                (res.Failed? ==> res.err == (if full then MemoryError else TransferError) &&
                                 dev.live == old(dev.live)) &&
                (res.Made? ==> res.arr.OwnsContiguous(dims[..], false) && res.arr.data !in old(dev.live) &&
                               dev.live == old(dev.live)[res.arr.data := res.arr.dataAllocated])
    {
      var rval := new NdArray(-1, descr);
      if nd == -1 {
        return Made(rval);
      }
      var failed := rval.AllocContiguous(dev, dims[..], false);
      if failed {
        rval.Dealloc(dev);
        return Failed(MemoryError);
      }
      // PyGpuNdArray_CopyFromPyGpuNdArray
      var err := dev.Transfer();
      if err {
        ghost var p := rval.data;
        rval.Dealloc(dev);
        assert dev.live == old(dev.live)[p := rval.dataAllocated] - {p};
        return Failed(TransferError);
      }
      return Made(rval);
    }

    /**
     * `PyGpuNdArray_CreateArrayObj`: the host copy of this array.  An empty
     * initialised array gives an empty host array without touching the
     * device; an uninitialised or null array is a ValueError.  A single
     * segment with non-negative strides is copied to the host directly,
     * anything else through a temporary contiguous device copy; no device
     * allocation survives the call.
     *
     * `contiguous_self` is the array itself on the direct path (one
     * reference taken on top of the caller's `callerRefs`) and the
     * temporary on the other (its one reference); it is released once after
     * the device-to-host copy, whether that copy failed or not.  `selfRefs`
     * and `copyRefs` are the counts the array and the temporary end with.
     */
    method CreateArrayObj(dev: Device, ghost callerRefs: int)
      returns (res: HostResult, ghost selfRefs: int, ghost copyRefs: int)
      requires Valid() && dev.Valid() && callerRefs >= 1
      modifies dev
      ensures dev.Valid() && dev.live == old(dev.live)
      ensures nd >= 0 && Size() == 0 ==>
                res == HostArray(dims[..], IsFArray(), NoDeviceRead) && unchanged(dev)
      ensures !(nd >= 0 && Size() == 0) && (nd < 0 || data == 0) ==>
                res == HostError(ValueError) && unchanged(dev)
      ensures nd >= 0 && Size() != 0 && data != 0 ==>
                var direct := OneSegment() && NonNegative(strides[..]);
                (res.HostArray? ==> res == HostArray(dims[..], IsFortran(), if direct then FromSelf else FromCopy)) &&
                var o := old(dev.outcomes);
                (direct ==> (res.HostError? <==> !NextOk(o)) && dev.outcomes == AfterOne(o)) &&
                (!direct ==> var full := BufferBytes(descr.elsize, dims[..]) > old(dev.avail);
                             (res.HostError? <==> full || !NextOk(o) || !NextOk(AfterOne(o))) &&
                             dev.outcomes == (if full then o else if !NextOk(o) then AfterOne(o)
                                              else AfterOne(AfterOne(o)))) &&
                (res.HostError? ==> res.err == (if !direct && BufferBytes(descr.elsize, dims[..]) > old(dev.avail)
                                                then MemoryError else TransferError))
      ensures selfRefs == callerRefs && copyRefs == 0
    {
      selfRefs, copyRefs := callerRefs, 0;
      if nd >= 0 && Size() == 0 {
        res := HostArray(dims[..], IsFArray(), NoDeviceRead);
        return;
      }
      if nd < 0 || data == 0 {
        res := HostError(ValueError);
        return;
      }
      var posStride := true;
      for i := 0 to nd
        invariant posStride <==> NonNegative(strides[..i])
      {
        assert strides[..i + 1] == strides[..i] + [strides[i]];
        if strides[i] < 0 {
          posStride := false;
        }
      }
      assert strides[..nd] == strides[..];
      var copy: NdArray? := null;
      var source := FromSelf;
      if !(OneSegment() && posStride) {
        var made := Copy(dev);
        if made.Failed? {
          res := HostError(made.err);
          return;
        }
        copy := made.arr;
        copyRefs := 1;
        source := FromCopy;
      } else {
        selfRefs := selfRefs + 1;
      }
      // PyGpuMemcpy, device to host
      var err := dev.Transfer();
      // Py_DECREF(contiguous_self), once on both outcomes
      if copy != null {
        copyRefs := copyRefs - 1;
        copy.Dealloc(dev);
      } else {
        selfRefs := selfRefs - 1;
      }
      if err {
        res := HostError(TransferError);
        return;
      }
      res := HostArray(dims[..], IsFortran(), source);
    }
  }

  /** What the host copy was read from. */
  datatype Source = NoDeviceRead | FromSelf | FromCopy

  /** The result of `CreateArrayObj`: a host array's shape and order, or an error. */
  datatype HostResult = HostArray(shape: seq<int>, fortran: bool, source: Source) | HostError(err: PyError)

  /**
   * The count `contiguous_self` keeps after the device-to-host copy, as
   * written: holding `held` references, it is released in the error branch
   * and again after it, so a failed copy drops two.
   */
  function ReleaseAsWritten(held: int, transferFailed: bool): (r: int)
    ensures r == held - 1 || r == held - 2
    ensures r == held - 2 <==> transferFailed
  {
    var r := if transferFailed then held - 1 else held;
    r - 1
  }

  /**
   * Released as written from the counts `CreateArrayObj` holds at the copy
   * (`callerRefs + 1` on the array, 1 on a temporary): a failed copy takes
   * a reference the caller still holds from the array, and releases the
   * temporary below zero, a second free; a successful copy leaves the same
   * counts as `CreateArrayObj`.
   */
  lemma FailedCopyReleasesTwice(callerRefs: int)
    requires callerRefs >= 1
    ensures ReleaseAsWritten(callerRefs + 1, true) == callerRefs - 1
    ensures ReleaseAsWritten(1, true) == -1
    ensures ReleaseAsWritten(callerRefs + 1, false) == callerRefs && ReleaseAsWritten(1, false) == 0
  {
  }

  // --------------------------------------------------------------- creation

  /**
   * `PyGpuNdArray_Empty`: a new record owning an uninitialised contiguous
   * buffer of the given shape and dtype, in Fortran order when `fortran`
   * holds.  A full device is a MemoryError and allocates nothing.
   */
  method Empty(dev: Device, shape: seq<int>, dtype: Descr, fortran: bool) returns (res: ArrayResult)
    requires dev.Valid() && NonNegative(shape)
    modifies dev
    ensures dev.Valid() && dev.outcomes == old(dev.outcomes)
    ensures res.Failed? <==> BufferBytes(dtype.elsize, shape) > old(dev.avail)
    ensures res.Failed? ==> res.err == MemoryError && dev.live == old(dev.live)
    ensures res.Made? ==> fresh(res.arr) && fresh(res.arr.dims) && fresh(res.arr.strides) &&
                          res.arr.descr == dtype && res.arr.OwnsContiguous(shape, fortran) &&
                          res.arr.data !in old(dev.live) &&
                          dev.live == old(dev.live)[res.arr.data := res.arr.dataAllocated]
  {
    var rval := new NdArray(-1, dtype);
    var err := rval.AllocContiguous(dev, shape, fortran);
    if err {
      rval.Dealloc(dev);
      return Failed(MemoryError);
    }
    return Made(rval);
  }

  /**
   * `PyGpuNdArray_Zeros`: `Empty`, then the whole buffer of
   * `elsize * Prod(shape)` bytes is set to zero on the device; a failed fill
   * releases the new buffer.
   */
  method Zeros(dev: Device, shape: seq<int>, dtype: Descr, fortran: bool) returns (res: ArrayResult)
    requires dev.Valid() && NonNegative(shape)
    modifies dev
    ensures dev.Valid()
    ensures res.Failed? <==> BufferBytes(dtype.elsize, shape) > old(dev.avail) || !NextOk(old(dev.outcomes))
    ensures dev.outcomes == (if BufferBytes(dtype.elsize, shape) > old(dev.avail) then old(dev.outcomes)
                             else AfterOne(old(dev.outcomes)))
    ensures res.Failed? ==> dev.live == old(dev.live) &&
                            res.err == (if BufferBytes(dtype.elsize, shape) > old(dev.avail) then MemoryError else TransferError)
    ensures res.Made? ==> fresh(res.arr) && fresh(res.arr.dims) && fresh(res.arr.strides) &&
                          res.arr.descr == dtype && res.arr.OwnsContiguous(shape, fortran) &&
                          res.arr.data !in old(dev.live) &&
                          dev.live == old(dev.live)[res.arr.data := res.arr.dataAllocated]
  {
    res := Empty(dev, shape, dtype, fortran);
    if res.Failed? {
      return;
    }
    var totalElements := 1;
    for i := 0 to |shape|
      modifies {}
      invariant totalElements == Prod(shape[..i])
    {
      ProdAppend(shape[..i], shape[i]);
      assert shape[..i + 1] == shape[..i] + [shape[i]];
      totalElements := totalElements * shape[i];
    }
    assert shape[..|shape|] == shape;
    var totalSize := dtype.elsize * totalElements;
    assert totalSize <= res.arr.dataAllocated;
    // PyGpuMemset(data, 0, totalSize)
    var err := dev.Transfer();
    if err {
      ghost var p, size := res.arr.data, res.arr.dataAllocated;
      res.arr.Dealloc(dev);
      assert dev.live == old(dev.live)[p := size] - {p};
      return Failed(TransferError);
    }
  }

  /**
   * The shape check of `zeros` and `empty`, walking from the last axis:
   * every axis must be positive.
   */
  method ValidateShape(shape: seq<int>) returns (ok: bool)
    ensures ok <==> forall i :: 0 <= i < |shape| ==> shape[i] > 0
  {
    var i := |shape| - 1;
    while i >= 0
      invariant -1 <= i < |shape|
      invariant forall j :: i < j < |shape| ==> shape[j] > 0
    {
      if shape[i] <= 0 {
        return false;
      }
      i := i - 1;
    }
    return true;
  }

  /** The dtype argument of `zeros` and `empty`: float64 when none is given. */
  function DtypeOrDefault(dtype: Option<Descr>): (r: Descr)
    ensures dtype.Some? ==> r == dtype.value
    ensures dtype.None? ==> r.typeNum == 12 && r.elsize == 8
  {
    if dtype.None? then Float64 else dtype.value
  }

  /**
   * `gpu_ndarray.zeros(shape, dtype, order)`: a shape with an axis that is
   * not positive is a ValueError that touches nothing; otherwise the
   * outcome of `Zeros` on that shape (a 0-d array for `()`).
   */
  method ZerosEntry(dev: Device, shape: seq<int>, dtype: Option<Descr>, fortran: bool) returns (res: ArrayResult)
    requires dev.Valid()
    modifies dev
    ensures dev.Valid()
    ensures (exists i :: 0 <= i < |shape| && shape[i] <= 0) ==> res == Failed(ValueError) && unchanged(dev)
    ensures res.Failed? ==> dev.live == old(dev.live)
    ensures res.Made? ==> fresh(res.arr) && res.arr.descr == DtypeOrDefault(dtype) &&
                          res.arr.OwnsContiguous(shape, fortran) && res.arr.data !in old(dev.live) &&
                          dev.live == old(dev.live)[res.arr.data := res.arr.dataAllocated]
    ensures (forall i :: 0 <= i < |shape| ==> shape[i] > 0) ==>
              var full := BufferBytes(DtypeOrDefault(dtype).elsize, shape) > old(dev.avail);
              (res.Failed? <==> full || !NextOk(old(dev.outcomes))) &&
              dev.outcomes == (if full then old(dev.outcomes) else AfterOne(old(dev.outcomes)))
  {
    var typecode := DtypeOrDefault(dtype);
    if |shape| == 0 {
      res := Zeros(dev, [], typecode, fortran);
      return;
    }
    var ok := ValidateShape(shape);
    if !ok {
      return Failed(ValueError);
    }
    res := Zeros(dev, shape, typecode, fortran);
  }

  /**
   * `gpu_ndarray.empty(shape, dtype, order)`: as `ZerosEntry`, with `Empty`
   * in place of `Zeros`, so that only a full device makes it fail.
   */
  method EmptyEntry(dev: Device, shape: seq<int>, dtype: Option<Descr>, fortran: bool) returns (res: ArrayResult)
    requires dev.Valid()
    modifies dev
    ensures dev.Valid() && dev.outcomes == old(dev.outcomes)
    ensures (exists i :: 0 <= i < |shape| && shape[i] <= 0) ==> res == Failed(ValueError) && unchanged(dev)
    ensures res.Failed? ==> dev.live == old(dev.live)
    ensures res.Made? ==> fresh(res.arr) && res.arr.descr == DtypeOrDefault(dtype) &&
                          res.arr.OwnsContiguous(shape, fortran) && res.arr.data !in old(dev.live) &&
                          dev.live == old(dev.live)[res.arr.data := res.arr.dataAllocated]
    ensures (forall i :: 0 <= i < |shape| ==> shape[i] > 0) ==>
              (res.Failed? <==> BufferBytes(DtypeOrDefault(dtype).elsize, shape) > old(dev.avail))
  {
    var typecode := DtypeOrDefault(dtype);
    if |shape| == 0 {
      res := Empty(dev, [], typecode, fortran);
      return;
    }
    var ok := ValidateShape(shape);
    if !ok {
      return Failed(ValueError);
    }
    res := Empty(dev, shape, typecode, fortran);
  }
}
