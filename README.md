# compyte core in Dafny

This project models the core of compyte: a GPU n-dimensional array and the helpers it shares with
PyCUDA and PyOpenCL.

- **The `pygpu_ndarray` array object** (`ndarray/pygpu_ndarray.cpp`):
  - a record holding a device data address, a rank, dims and strides arrays, numpy flags, a `base`
    reference, and whether the record owns its device buffer;
  - its lifecycle: `New`, `null_init`, `dealloc` and `set_data`;
  - the creation paths `Empty`, `Zeros` and the module functions `zeros` and `empty`;
  - `Copy`, `View` and `CreateArrayObj` (the host copy);
  - `__len__` and subscripting with an ellipsis, an integer, a slice or a tuple.
- **The C-type registry of `dtypes.py`**:
  - `DTypeRegistry` with its two dictionaries, `get_or_register_dtype` and `dtype_to_ctype`;
  - the deprecated `register_dtype`;
  - the C declarator parser `parse_c_arg_backend`.
- **Stride and overlap helpers** of `array.py` and its older copy `compyte/array.py`:
  - the C- and Fortran-order stride builders;
  - `equal_strides` and the contiguity predicates, and `ArrayFlags`;
  - `bound` and `may_share_memory`.

Modules, one per concern:

| module | file | what it holds |
|---|---|---|
| `Wrappers` | wrappers.dfy | `Option` |
| `Shapes` | shapes.dfy | products of shapes, and the byte offset of an element (`Dot` of strides and an index) |
| `Slices` | slices.dfy | CPython's `PySlice_GetIndicesEx`, which the subscript code calls |
| `NdSpec` | ndspec.dfy | what `a[key]` produces, as a pure function of the rank, dims, strides and key |
| `ArrayStrides` | array_strides.dfy | `array.py`: stride builders, `equal_strides`, contiguity |
| `CompyteStrides` | compyte_strides.dfy | `compyte/array.py`: stride builders and its exact-match `ArrayFlags` |
| `Overlap` | overlap.dfy | `bound` and `may_share_memory`, identical in both Python files |
| `GpuNdArray` | gpu_ndarray.dfy | the `Device` and `NdArray` classes; the C++ functions as methods |
| `DTypes` | dtypes.dfy | the registry as a class over two maps, with functional specifications |
| `CDeclarator` | cdeclarator.dfy | `parse_c_arg_backend` |

## How the model is built

**Device memory** is a `Device` object:
- a map from live addresses to sizes;
- a bump allocator with a capacity;
- the outcomes of the transfers still to come, one per `PyGpuMemcpy`/`PyGpuMemset`, in order; once
  they run out, transfers succeed.

`device_malloc` fails exactly when the request exceeds what is left, and `device_free` fails on an
address that is not live. The device's contents are not modelled.

**Base chains.** `set_data` walks the `base` links to the root of a chain of views. The walk
terminates because the caller passes the chain as a ghost sequence. Every view-building method proves
that the new view's base is the root, never a view of a view.

**Subscripting.**
- `NdArray.Subscript` fills fresh `dims`/`strides` arrays in place, as the C++ does.
- It is proved equal to `NdSpec.SubscriptSpec`: the same error, or a view with exactly the
  specified dims, strides, data offset and recomputed flags.
- `NdSpec` proves what the specification means. Every element of a view is an element of the parent
  at an in-bounds index, and an integer or slice key is the one-entry tuple key.

**Registry.**
- The registry methods (`Registry.GetOrRegisterDtype`, `RegisterNames`, `BindNames`, `LookUp`)
  update the two maps as `dtypes.py` updates its dictionaries.
- Each is proved equal to a function on `Tables` values.
- The registry's properties are proved about those functions: consistency, growth, idempotence,
  partial registration on conflict, and the reverse lookup.

**Declarator parsing.** The regular expression `(\**)\s*([_a-zA-Z0-9]+)(\s*\[[ 0-9]*\])*\s*$` is
modelled as a deterministic matcher on suffixes (`Matches`) plus a leftmost search (`SearchFrom`).
The round-trip lemma `ParseRendered` parses any declaration written out from a type name, stars, a
name and bracket groups back into those parts.

**Units and orders:**
- Strides are in bytes. `compyte/array.py:28-45` builds them from the item size, and the slice
  path moves the data pointer by `start * stride` on a `char*` (`ndarray/pygpu_ndarray.cpp:984`).
- `Copy` always allocates a C-ordered buffer: it calls `alloc_contiguous` with its default order
  (`ndarray/pygpu_ndarray.cpp:199`), whatever the source's order.

## Model

| member | source | states |
|---|---|---|
| Shapes.ProdZeroIff | array.py:66-76 | the product of a shape is 0 exactly when some axis has size 0, the `product(shape) == 0` escape of the contiguity tests |
| Shapes.ProdAppend | ndarray/pygpu_ndarray.cpp:386-388 | extending a shape by one axis multiplies its element count by that axis, the step of the element-count loop in `Zeros` |
| Shapes.ProdClampedNoZero | array.py:26-49 | with no empty axis, `max(1, s)` clamping leaves the product unchanged |
| Slices.GetIndices | ndarray/pygpu_ndarray.cpp:964-967 | CPython's `PySlice_GetIndicesEx` as the slice path calls it: no result (ValueError) for a zero step, otherwise the resolved start, stop, step and slice length; characterised by `GetIndicesFails`, `Resolved`, `SelectionInBounds` and `SelectionEnds` |
| Slices.GetIndicesFails | ndarray/pygpu_ndarray.cpp:964-967 | slice resolution fails (ValueError) exactly when the step is 0 |
| Slices.Resolved | ndarray/pygpu_ndarray.cpp:964-967 | a resolved slice has start and stop clamped to the length (to -1 .. length-1 for negative steps) and `slicelength` the number of steps from start strictly before stop, 0 when the range is empty |
| Slices.SelectionInBounds | ndarray/pygpu_ndarray.cpp:964-992 | every selected position `start + k*step`, `k < slicelength`, is a valid index of the axis and lies before stop |
| Slices.SelectionEnds | ndarray/pygpu_ndarray.cpp:964-992 | `slicelength` is non-negative and the next position after it is not before stop, so it counts all selected positions |
| Slices.FullSlice | ndarray/pygpu_ndarray.cpp:963-992 | `a[:]` resolves to start 0, step 1 and the whole length |
| Slices.ReversedSlice | ndarray/pygpu_ndarray.cpp:963-992 | `a[::-1]` resolves to start length-1, stop -1, step -1 and the whole length |
| NdSpec.AxisIndex | ndarray/pygpu_ndarray.cpp:915-926 | an index is accepted exactly when `-dim <= i < dim`; the accepted position lies in `[0, dim)` and is `i`, or `i + dim` for an end-based index |
| NdSpec.SubscriptSpec | ndarray/pygpu_ndarray.cpp:874-1120 | every view it describes has as many strides as dims |
| NdSpec.TupleUpTo | ndarray/pygpu_ndarray.cpp:1040-1109 | the view built over the first n axes has equally many dims and strides, and at most n of them |
| NdSpec.IntKeyRule | ndarray/pygpu_ndarray.cpp:895-950 | an integer key gives a view exactly on an array of rank at least 1 with the index in range, dropping axis 0 (rank nd-1, dims and strides of axes 1..); otherwise IndexError |
| NdSpec.SliceKeyRule | ndarray/pygpu_ndarray.cpp:954-999 | a slice key gives a view exactly on an array of rank at least 1 with a non-zero step, of the same rank and with axes 1.. unchanged; otherwise ValueError |
| NdSpec.SliceKeyAsWritten | ndarray/pygpu_ndarray.cpp:954-967 | the slice path as written is undefined (reads a missing dims array) exactly for a rank below 0 |
| NdSpec.SliceOfUninitialisedIsUndefined | ndarray/pygpu_ndarray.cpp:957-963 | slicing an uninitialised array (rank -1) with `[:]` reaches the undefined read |
| NdSpec.SliceRejectsUninitialised | ndarray/pygpu_ndarray.cpp:954-967 | the corrected slice path raises ValueError for every rank below 1 and agrees with the code as written wherever that is defined |
| NdSpec.TupleFailsIff | ndarray/pygpu_ndarray.cpp:1042-1109 | the tuple key fails exactly when some entry within the axes walked is a step-0 slice, an out-of-range integer or neither |
| NdSpec.CountScalarsAppend | ndarray/pygpu_ndarray.cpp:1013-1019 | counting the scalar entries of a concatenation adds the counts |
| NdSpec.CountScalarsBound | ndarray/pygpu_ndarray.cpp:1013-1019 | a tuple has no more scalar entries than entries |
| NdSpec.TupleRank | ndarray/pygpu_ndarray.cpp:1040-1109 | after n axes the view has n axes less the integer entries among them |
| NdSpec.NextAxisFits | ndarray/pygpu_ndarray.cpp:1013-1074 | before an axis that a slice or a missing entry keeps, the write position `rval_d` is below `rval_nd` |
| NdSpec.SliceEntryFits | ndarray/pygpu_ndarray.cpp:1013-1074 | before a slice entry, the axes kept so far are fewer than `rval_nd` |
| NdSpec.AxesSoFarFit | ndarray/pygpu_ndarray.cpp:1013-1051 | the axes kept so far never exceed `rval_nd` |
| NdSpec.TupleRankFits | ndarray/pygpu_ndarray.cpp:1013-1109 | the fold's axis count stays within `rval_nd`, is below it wherever the loop writes an axis, and equals it after the last axis: the fill never writes past the view's arrays and fills them completely |
| NdSpec.TupleKeyRank | ndarray/pygpu_ndarray.cpp:1012-1019 | a tuple-key view has rank nd minus the number of scalar entries |
| NdSpec.TupleBeyondItems | ndarray/pygpu_ndarray.cpp:1046-1051 | axes beyond the tuple are kept with their dims and strides unchanged |
| NdSpec.TupleErrSticks | ndarray/pygpu_ndarray.cpp:1059-1106 | once an entry fails, walking further axes keeps that first error |
| NdSpec.IntKeyIsOneTuple | ndarray/pygpu_ndarray.cpp:895-1109 | `a[i]` and `a[(i,)]` give the same outcome at every rank (both IndexError below rank 1) |
| NdSpec.SliceKeyIsOneTuple | ndarray/pygpu_ndarray.cpp:954-1109 | for rank ≥ 1, `a[s]` and `a[(s,)]` give the same outcome |
| NdSpec.SliceKeyBelowRankOne | ndarray/pygpu_ndarray.cpp:954-1010 | below rank 1, `a[s]` is ValueError while `a[(s,)]` is IndexError |
| NdSpec.TupleDimsNonNegative | ndarray/pygpu_ndarray.cpp:1040-1109 | a tuple view of an array with non-negative dims has non-negative dims |
| NdSpec.ViewDimsNonNegative | ndarray/pygpu_ndarray.cpp:874-1110 | every view of an array with non-negative dims has non-negative dims |
| NdSpec.TupleElementInParent | ndarray/pygpu_ndarray.cpp:1040-1109 | every element of the view built over n axes is an element of the parent: its byte offset is the parent's offset of an in-bounds index |
| NdSpec.KeptAxisInParent | ndarray/pygpu_ndarray.cpp:1046-1051 | an axis kept unchanged maps view index j to parent index j at the same offset |
| NdSpec.SlicedAxisInParent | ndarray/pygpu_ndarray.cpp:1056-1074 | a sliced axis maps view index j to an in-bounds parent index with the same offset |
| NdSpec.IntViewElementInParent | ndarray/pygpu_ndarray.cpp:911-949 | every element of an integer-key view is an element of the parent at an in-bounds index |
| NdSpec.SliceViewElementInParent | ndarray/pygpu_ndarray.cpp:963-998 | every element of a slice-key view is an element of the parent at an in-bounds index |
| NdSpec.SlicedFirstAxis | ndarray/pygpu_ndarray.cpp:983-998 | replacing axis 0 by a slice selection maps each view index to an in-bounds parent index with the same offset |
| NdSpec.ViewElementInParent | ndarray/pygpu_ndarray.cpp:874-1110 | for every key, every element of the view is an element of the parent at an in-bounds index |
| NdSpec.ThreeByFourExamples | ndarray/pygpu_ndarray.cpp:874-1120 | on a 3x4 float64 array: `a[1]`, `a[::-1]`, `a[1:, -1]` give the expected views; a zero step, too many indices and a non-index entry give the expected errors |
| ArrayStrides.FStrides | array.py:26-36 | one stride per axis |
| ArrayStrides.CStrides | array.py:39-49 | one stride per axis |
| ArrayStrides.Reverse | array.py:47 | `strides[::-1]`: the same entries in reverse order |
| ArrayStrides.FContiguousStrides | array.py:26-36 | the loop returns the Fortran strides: itemsize times the product of the preceding axes, each taken as at least 1 |
| ArrayStrides.CContiguousStrides | array.py:39-49 | the loop over `shape[:0:-1]` and the final reversal return the C strides: itemsize times the product of the following axes, each taken as at least 1 |
| ArrayStrides.FStridesRecurrence | array.py:26-36 | the first Fortran stride is itemsize and each next one is the previous times `max(1, s)` |
| ArrayStrides.CStridesRecurrence | array.py:39-49 | the last C stride is itemsize and each earlier one is the next times `max(1, s)` |
| ArrayStrides.StridesAtLeastItemsize | array.py:30-33 | with a positive itemsize no stride is below itemsize, so none is 0 even with empty axes |
| ArrayStrides.EqualStrides | array.py:52-63 | `equal_strides`: the identity shortcut, the length checks, then the zipped loop over axes whose size is not 1; characterised by `EqualStridesMeaning` |
| ArrayStrides.EqualStridesMeaning | array.py:52-63 | `equal_strides` holds exactly when the tuples are equal, or both have the shape's length and agree on every axis whose size is not 1 |
| ArrayStrides.AxesAgreeMeaning | array.py:59-63 | the loop over zipped axes accepts exactly when the strides agree on every axis of size other than 1 |
| ArrayStrides.EqualStridesReflexiveSymmetric | array.py:52-63 | `equal_strides` is reflexive and symmetric |
| ArrayStrides.IsFContiguousStrides | array.py:66-70 | `is_f_contiguous_strides`: `equal_strides` against the clamped Fortran strides, or a shape whose product is 0; see `EmptyAxisIsContiguous` |
| ArrayStrides.IsCContiguousStrides | array.py:73-76 | `is_c_contiguous_strides`: `equal_strides` against the clamped C strides, or a shape whose product is 0; see `EmptyAxisIsContiguous` and `SizeOneAxesIgnored` |
| ArrayStrides.MakeArrayFlags | array.py:79-85 | `ArrayFlags`: the two relaxed tests and `forc` their disjunction; see `LowRankFlagsAgree` |
| ArrayStrides.EmptyAxisIsContiguous | array.py:66-76 | any strides for a shape with an empty axis are both C- and Fortran-contiguous |
| ArrayStrides.SizeOneAxesIgnored | array.py:73-76 | strides that match the C strides on every axis of size other than 1 are C-contiguous |
| ArrayStrides.LowRankFlagsAgree | array.py:79-85 | for rank at most 1 the two orders coincide and `ArrayFlags` reports C, F and "C or F" alike |
| CompyteStrides.FStrides | compyte/array.py:28-35 | one stride per axis |
| CompyteStrides.CStrides | compyte/array.py:38-45 | one stride per axis |
| CompyteStrides.FContiguousStrides | compyte/array.py:28-35 | the loop returns itemsize times the product of the preceding raw axis sizes |
| CompyteStrides.FStridesNext | compyte/array.py:31-32 | each appended stride is the last one times its axis |
| CompyteStrides.CContiguousStrides | compyte/array.py:38-45 | the loop and the reversal return itemsize times the product of the following raw axis sizes |
| CompyteStrides.StridesRecurrence | compyte/array.py:28-45 | Fortran strides start at itemsize and grow by each axis; C strides end at itemsize and grow backwards by each axis |
| CompyteStrides.TotalBytes | compyte/array.py:28-45 | the outermost stride times its axis is itemsize times the element count, in both orders |
| CompyteStrides.FTotalBytes | compyte/array.py:28-35 | the last Fortran stride times the last axis is the buffer's byte size |
| CompyteStrides.CTotalBytes | compyte/array.py:38-45 | the first C stride times the first axis is the buffer's byte size |
| CompyteStrides.ZeroAxisZeroesStrides | compyte/array.py:28-45 | without clamping, an empty axis makes every later Fortran stride and every earlier C stride 0 |
| CompyteStrides.MakeArrayFlags | compyte/array.py:48-57 | `ArrayFlags`: exact tuple equality against the two unclamped builders, and `forc` their disjunction; see `ScalarBothContiguous`, `ExactIsStricter` and `SizeOneAxisExample` |
| CompyteStrides.ScalarBothContiguous | compyte/array.py:48-57 | a 0-d array is C-contiguous, Fortran-contiguous and "C or F" |
| CompyteStrides.AgreeWithoutEmptyAxes | compyte/array.py:28-45 | without empty axes both modules build the same strides |
| CompyteStrides.ExactIsStricter | compyte/array.py:48-57 | without empty axes, exact-match contiguity implies the `array.py` contiguity |
| CompyteStrides.SizeOneAxisExample | compyte/array.py:48-57 | an arbitrary stride on a size-1 axis passes the `array.py` test but fails the exact test |
| Overlap.BoundOf | array.py:119-128 | `bytes` moved down by every negative stride times (size - 1) and up by every other, over the zipped axes; `Bound` is proved equal to it, and `BoundBracketsBytes`, `BoundContainsElements` and `EmptyAxisInvertsBound` characterise it |
| Overlap.Bound | array.py:119-128 | the loop returns the byte range: `bytes` plus the negative strides times `shp - 1` as low, plus the non-negative ones as high |
| Overlap.BoundBracketsBytes | array.py:119-128 | with no empty axis, low <= bytes <= high |
| Overlap.BoundContainsElements | array.py:119-128 | every element's start address lies between low and high |
| Overlap.EmptyAxisInvertsBound | compyte/array.py:82-91 | for any one-axis array of length 0 with a positive stride, `bound` gives `(bytes, bytes - stride)`: high below low |
| Overlap.MayShareMemory | array.py:131-143 | `may_share_memory`: the same object, else for the same class the two bounds not disjoint, else false; characterised by `MayShareMemoryMeaning` |
| Overlap.MayShareMemoryMeaning | array.py:131-143 | symmetric; true for one object; false across classes; otherwise, for non-empty ranges, true exactly when the ranges `[low, high)` intersect |
| Overlap.SameElementReportedDisjoint | array.py:119-141 | two distinct one-element views of the same 8 bytes are reported as not sharing memory |
| Overlap.FixedIsSound | array.py:119-141 | with the range extended by the itemsize, two arrays of one class whose elements' bytes overlap are reported as possibly sharing memory |
| Overlap.FixedFindsSameElement | compyte/array.py:94-104 | the corrected test reports the two views of the same element |
| GpuNdArray.Device.Malloc | ndarray/pygpu_ndarray.cpp:366-369 | a fresh non-null address of the requested size, or null exactly when the request exceeds what is free, changing nothing |
| GpuNdArray.Device.Free | ndarray/pygpu_ndarray.cpp:48-57 | fails exactly on an address that is not live; otherwise the allocation is released and its size returned to the pool |
| GpuNdArray.Device.Transfer | ndarray/pygpu_ndarray.cpp:338-346 | a device copy or fill takes the next of the device's transfer outcomes and reports an error exactly when that outcome is a failure |
| GpuNdArray.RootIsCollapsed | ndarray/pygpu_ndarray.cpp:851-859 | the root of a base chain is the given base when that is not a GPU array; otherwise a chain member without a base, or the last member's foreign base |
| GpuNdArray.ExtendChain | ndarray/pygpu_ndarray.cpp:851-859 | an array in front of its own chain is a chain, with the same root unless the array has no base of its own |
| GpuNdArray.NdArray.constructor | ndarray/pygpu_ndarray.cpp:1214-1238 | a valid record in the `null_init` state with rank nd, or -1 for negative nd |
| GpuNdArray.NdArray.Len | ndarray/pygpu_ndarray.cpp:823-835 | `len(a)` is `dims[0]` for rank at least 1 and 0 otherwise, never negative |
| GpuNdArray.NdArray.SetData | ndarray/pygpu_ndarray.cpp:837-871 | frees an owned buffer first; if that fails, the record drops its buffer and returns -1 with its base unchanged; otherwise it points at the new data with the chain's root as base and owns nothing; shape, flags and dtype are untouched |
| GpuNdArray.NdArray.Dealloc | ndarray/pygpu_ndarray.cpp:38-84 | the device buffer is freed exactly when the record owns a non-null one; the record returns to the uninitialised state |
| GpuNdArray.ViewFlags | ndarray/pygpu_ndarray.cpp:1122-1154 | a view's flags: writeable and aligned copied from the parent, OWNDATA and UPDATEIFCOPY cleared, C and Fortran contiguity recomputed from the view's dims and strides; `SetViewFlags` is proved to set them |
| GpuNdArray.NdArray.OneSegment | ndarray/pygpu_ndarray.cpp:306 | `ISONESEGMENT`: rank 0, or C- or Fortran-contiguous; selects the direct path of `CreateArrayObj` |
| GpuNdArray.NdArray.Size | ndarray/pygpu_ndarray.cpp:279 | `SIZE`: the product of the dims; selects the empty path of `CreateArrayObj` |
| GpuNdArray.NdArray.IsFArray | ndarray/pygpu_ndarray.cpp:289 | `ISFARRAY`: Fortran-contiguous, aligned and writeable; the order of an empty host copy |
| GpuNdArray.NdArray.IsFortran | ndarray/pygpu_ndarray.cpp:331 | `ISFORTRAN`: Fortran-contiguous with more than one axis; the order of a non-empty host copy |
| GpuNdArray.NdArray.SetViewFlags | ndarray/pygpu_ndarray.cpp:1122-1154 | a view's flags: writeable and aligned from the parent, never owning or update-if-copy, contiguity recomputed from its own dims and strides |
| GpuNdArray.NdArray.AllocView | ndarray/pygpu_ndarray.cpp:929-943 | a fresh record of the requested rank with the parent's dtype, pointing at the given address, owning nothing, based on the parent chain's root; device memory untouched |
| GpuNdArray.NdArray.View | ndarray/pygpu_ndarray.cpp:248-268 | a fresh record with the same rank, dims, strides, data and dtype, the flags without ownership, based on the chain's root; device memory untouched |
| GpuNdArray.NdArray.CopyAxes | ndarray/pygpu_ndarray.cpp:946-949 | copies a run of axes to a shifted position, leaving the axes before it alone |
| GpuNdArray.NdArray.IndexInt | ndarray/pygpu_ndarray.cpp:895-950 | the integer-key path gives exactly the error or the view `SubscriptSpec` gives |
| GpuNdArray.NdArray.DropFirstAxis | ndarray/pygpu_ndarray.cpp:929-949 | the integer-key view: axis 0 dropped, data moved by the offset, flags recomputed |
| GpuNdArray.NdArray.IndexSlice | ndarray/pygpu_ndarray.cpp:954-999 | the slice-key path gives exactly the error or the view `SubscriptSpec` gives |
| GpuNdArray.NdArray.SliceFirstAxis | ndarray/pygpu_ndarray.cpp:975-998 | the slice-key view: axis 0 replaced by the selection, data moved to its start, flags recomputed |
| GpuNdArray.NdArray.ApplyAxis | ndarray/pygpu_ndarray.cpp:1046-1107 | one pass of the tuple loop does on the view being built what one step of the specification does, or raises its error |
| GpuNdArray.NdArray.FillTuple | ndarray/pygpu_ndarray.cpp:1040-1109 | the tuple loop over all axes leaves the view with the specified dims, strides and data offset, or reports the specified error |
| GpuNdArray.NdArray.IndexTuple | ndarray/pygpu_ndarray.cpp:1000-1110 | the tuple-key path gives exactly the error or the view `SubscriptSpec` gives |
| GpuNdArray.NdArray.ViewRank | ndarray/pygpu_ndarray.cpp:1012-1019 | `rval_nd` is the rank less the number of scalar entries |
| GpuNdArray.NdArray.TupleView | ndarray/pygpu_ndarray.cpp:1021-1109 | a tuple-key view with the specified dims, strides, offset and flags, or the specified error |
| GpuNdArray.NdArray.Subscript | ndarray/pygpu_ndarray.cpp:874-1158 | `a[...]` is `a`; an unknown key type is NotImplementedError; every other key gives exactly the error or the view `SubscriptSpec` gives, based on the chain's root, never a view of a view; device memory untouched |
| GpuNdArray.NdArray.SetShape | ndarray/pygpu_ndarray.cpp:1229-1233 | the record gets the shape's rank and fresh, distinct dims and strides arrays holding the given values |
| GpuNdArray.NdArray.AllocContiguous | ndarray/pygpu_ndarray.cpp:362-369 | fails exactly when the device cannot hold the buffer, allocating nothing; otherwise the record owns a fresh buffer of that shape in C or Fortran order with owning, aligned, writeable flags |
| GpuNdArray.NdArray.Copy | ndarray/pygpu_ndarray.cpp:189-212 | an uninitialised array copies to an uninitialised record; otherwise a fresh owned C-ordered buffer of the same shape, failing (MemoryError, or the copy's error) exactly when allocation or the copy fails, and then leaving no allocation behind |
| GpuNdArray.NdArray.CreateArrayObj | ndarray/pygpu_ndarray.cpp:271-349 | an empty array gives an empty host array without device access; an uninitialised or null array is a ValueError; otherwise a host array of the same shape read directly or through a temporary copy; the direct path fails exactly when its device-to-host copy fails; the copying path fails exactly when the temporary does not fit in device memory, the device-to-device copy into it fails, or the device-to-host copy after it fails, each transfer with its own outcome (MemoryError for the first, TransferError otherwise); no device allocation survives the call; with `contiguous_self` released once, the array keeps the caller's reference count and the temporary ends with none |
| GpuNdArray.ReleaseAsWritten | ndarray/pygpu_ndarray.cpp:338-348 | as written, the release after the device-to-host copy drops two references exactly when that copy failed, one otherwise |
| GpuNdArray.FailedCopyReleasesTwice | ndarray/pygpu_ndarray.cpp:306-348 | from the counts `CreateArrayObj` holds at the copy, a failed copy as written leaves the array one reference short of the caller's and the temporary at -1 (freed twice); a successful one leaves what `CreateArrayObj` leaves |
| GpuNdArray.Empty | ndarray/pygpu_ndarray.cpp:351-373 | a fresh owned contiguous array of the shape and dtype, in Fortran order when asked; MemoryError exactly when the device is full, allocating nothing |
| GpuNdArray.Zeros | ndarray/pygpu_ndarray.cpp:376-402 | as `Empty`, then a device fill; fails exactly when allocation or the fill fails, with the matching error, and then leaves no allocation behind |
| GpuNdArray.ValidateShape | ndarray/pygpu_ndarray.cpp:459-482 | the shape is accepted exactly when every axis is positive |
| GpuNdArray.DtypeOrDefault | ndarray/pygpu_ndarray.cpp:440-441 | the given dtype, or float64 (type 12, 8 bytes) when none is given |
| GpuNdArray.ZerosEntry | ndarray/pygpu_ndarray.cpp:406-489 | a non-positive axis is a ValueError that touches nothing; otherwise the outcome of `Zeros` on the shape with the dtype or float64 |
| GpuNdArray.EmptyEntry | ndarray/pygpu_ndarray.cpp:493-576 | a non-positive axis is a ValueError that touches nothing; otherwise the outcome of `Empty`, failing exactly when the device is full |
| DTypes.AsList | dtypes.py:60-61 | a lone C name stands for the one-element list holding it |
| DTypes.AgreeWith | dtypes.py:63-65 | a successful agreement check returns the first dtype |
| DTypes.SingleValued | dtypes.py:63-65 | a successful lookup returns the dtype of the first name, which is known |
| DTypes.AgreeWithIff | dtypes.py:63-65 | the remaining names agree exactly when each is bound to a dtype equal to the first |
| DTypes.LookupIff | dtypes.py:63-65 | a lookup changes nothing, and succeeds exactly when there are names and all are bound to equal dtypes, returning the first name's dtype |
| DTypes.AddNames | dtypes.py:80-88 | binding names keeps existing entries, binds only given names to the dtype, and either binds them all or stops at the first name bound to a different dtype, with the earlier names bound |
| DTypes.AddNamesAt | dtypes.py:80-88 | one pass of the binding loop: bind an unknown name, stop on a conflicting one, skip an agreeing one |
| DTypes.AddNamesAllBound | dtypes.py:80-88 | binding names that are all bound already changes nothing |
| DTypes.Register | dtypes.py:67-95 | the registration path of `get_or_register_dtype`: the stored object for a known dtype, the names bound in order until a conflict, then the dtype and `str()` keys; characterised by `RegisterKeepsConsistent`, `RegisterBindsNames`, `ConflictIsPartial`, `ExistingObjectReturned` and `ReRegisterIdempotent` |
| DTypes.GetOrRegister | dtypes.py:43-95 | `get_or_register_dtype`: `single_valued` lookup when no dtype is given, `Register` otherwise; see `LookupIff` |
| DTypes.RegisterKeepsConsistent | dtypes.py:67-95 | every registration, failed or not, keeps each C name of `dtype_to_name` mapped to an equal dtype, and only adds entries |
| DTypes.RegisterBindsNames | dtypes.py:80-95 | a successful registration binds every given name to an equal dtype, new names to the returned object |
| DTypes.ConflictIsPartial | dtypes.py:49-55 | on a name taken by another dtype, the names before it stay registered and `dtype_to_name` is unchanged |
| DTypes.ExistingObjectReturned | dtypes.py:69-78 | for a dtype seen before, the stored object is returned and its dtype and `str()` keys keep their names |
| DTypes.RegisterKeepsComplete | dtypes.py:90-93 | a successful registration leaves every registered dtype with a dtype key and a `str()` key |
| DTypes.ReRegisterIdempotent | dtypes.py:49-52 | registering the same names and dtype again returns the same object and changes nothing |
| DTypes.DtypeToCtype | dtypes.py:97-106 | None is the "may not be None" ValueError; a C name is returned only for a dtype with a dtype key |
| DTypes.CtypeRoundTrip | dtypes.py:97-106 | the C name returned for a dtype maps back to an equal dtype |
| DTypes.RegisteredHasCtype | dtypes.py:90-106 | after a successful registration, `dtype_to_ctype` maps the dtype to a name: the first given name unless an equal dtype was known |
| DTypes.RegisterDtypeSpec | dtypes.py:270-287 | `register_dtype`: RuntimeError with nothing changed for a known dtype without `alias_ok`, otherwise the tables `Register` leaves and its error, the returned dtype dropped; see `NoAliasRegistersGivenObject` |
| DTypes.NoAliasRegistersGivenObject | dtypes.py:270-287 | without `alias_ok`, a known dtype is a RuntimeError that changes nothing; on success every C name that was unbound now maps to the given dtype object, whose new dtype key names the first C name |
| DTypes.Registry.constructor | dtypes.py:39-41 | a new registry has two empty dictionaries |
| DTypes.Registry.GetOrRegisterDtype | dtypes.py:43-95 | updates the dictionaries and returns as the specification of `get_or_register_dtype` says, keeping the registry consistent |
| DTypes.Registry.RegisterNames | dtypes.py:67-95 | the registration path updates both dictionaries and returns as `Register` says |
| DTypes.Registry.BindNames | dtypes.py:80-88 | the loop leaves `name_to_dtype` and the conflicting name as `AddNames` gives them |
| DTypes.Registry.LookUp | dtypes.py:63-65 | the lookup loop returns what `single_valued` over the names' dtypes gives |
| DTypes.RegisterDtype | dtypes.py:270-287 | `register_dtype` updates the module registry as its specification says, returns nothing on success and raises the error of the specification otherwise |
| CDeclarator.RemoveAll | dtypes.py:236-240 | `replace(pat, "")` never lengthens the text, leaves it alone when the pattern does not occur, and shortens it when it does |
| CDeclarator.Strip | dtypes.py:236-240 | the four `replace` calls in their order; see `StripUnqualified` |
| CDeclarator.Matches | dtypes.py:243-244 | the declarator pattern matching a whole suffix, with `$` at the end of the text; see `SearchFrom`, `FindDeclarator` and `NoEarlierMatch` |
| CDeclarator.Split | dtypes.py:244 | stars, blanks and the name are consecutive segments of the candidate declarator |
| CDeclarator.SearchFrom | dtypes.py:244-248 | the search returns the leftmost position where the pattern matches the rest of the text, or none when it matches nowhere |
| CDeclarator.Words | dtypes.py:258 | `split()` gives non-empty words without whitespace |
| CDeclarator.ParseCArg | dtypes.py:229-265 | the corrected parser never raises AttributeError and reports "couldn't parse" exactly when the declarator pattern matches no suffix of the stripped text |
| CDeclarator.ParseCArgAsWritten | dtypes.py:231-232 | as written, a registry argument raises AttributeError, and only a registry argument does |
| CDeclarator.RegistryArgumentFails | dtypes.py:231-232 | as written, even `float x` fails for a registry, though it parses with that registry's table |
| CDeclarator.RegistryIsItsTable | dtypes.py:231-234 | corrected: a registry parses exactly as its `name_to_dtype` table |
| CDeclarator.ParseRendered | dtypes.py:236-265 | a declaration written from type words, stars, a name and bracket groups parses back to that name, vector exactly when there are stars or brackets, with the type name's dtype or "unknown type" |
| CDeclarator.ParseDeclaration | dtypes.py:244-265 | a type name, a blank, stars, a name and a bracket tail parse into the name, vector exactly when there are stars or a bracket, and the normalised type name's dtype |
| CDeclarator.StripUnqualified | dtypes.py:236-240 | stripping qualifiers leaves a text without them unchanged |
| CDeclarator.FindDeclarator | dtypes.py:244-257 | the search finds the declarator where it starts, with the stars, the name and the bracket tail as its parts and the type name before it |
| CDeclarator.NoEarlierMatch | dtypes.py:244-245 | no position inside the type name, nor the blank before the stars, matches the pattern |
| CDeclarator.WordsJoin | dtypes.py:258 | splitting joined type words, with or without a trailing blank, gives the words back |
| CDeclarator.NormalizeJoin | dtypes.py:258 | normalising joined type words, with or without a trailing blank, gives the joined words |

## Left out

- Python object glue is not modelled: argument parsing, reference counts on the array objects and on
  dtype descriptors, the type object, the method and getter tables. The exception is
  `contiguous_self` in `CreateArrayObj`, whose counts are ghost results of that method (see
  Findings).
- The getters (`shape`, `strides`, `flags`, `size`, `base`, ...) and the `shape` setter are left
  out. They only read fields the model already holds; the setter always raises.
- `PyGpuNdArray_DeepCopy` is left out: it is `Copy` behind a memo dictionary.
- `PyGpuNdArray_CopyFromArray` (upload from a host array) is left out: it depends on the host array
  library.
- `pygpu_ndarray.h` is not part of this model. Its helpers are specified from how this file uses
  them:
  - `alloc_contiguous` gives compyte-style C or Fortran byte strides and the owning, aligned,
    writeable flags;
  - `is_c_contiguous` and `is_f_contiguous` are an exact match against those strides;
  - `ISONESEGMENT` is rank 0 or either contiguity flag (`NdArray.OneSegment`);
  - `SIZE` is the product of the dims (`NdArray.Size`);
  - `ISFARRAY` is numpy 1.x "Fortran-contiguous, aligned and writeable" (`NdArray.IsFArray`);
  - `ISFORTRAN` is numpy 1.x "Fortran-contiguous with more than one axis" (`NdArray.IsFortran`);
  - `NPY_DEFAULT` is numpy's C-contiguous, aligned, writeable.
- Device contents are not modelled, only which allocations are live. Each copy or fill succeeds or
  fails by the next of the device's transfer outcomes (`Device.Transfer`), a sequence fixed when
  the device is made; once it runs out, transfers succeed.
- Host allocation failures (`malloc` of `npydims`/`newdims`, `PyArray_Empty`, `tp_alloc` in
  `PyGpuNdArray_New`) are not modelled; those calls always succeed here.
- C `int` widths are not modelled:
  - `PyInt_AsLong` results truncated to `int`;
  - the `int total_size` of `Zeros` overflowing;
  - `npy_intp` dims.
  All integers are unbounded.
- GpuNdArray.BufferBytes requests at least one byte for an empty shape, a choice made for the
  missing `alloc_contiguous`.
- A null `descr` is not modelled: every record carries a dtype.
- The `TypeError` of `zeros`/`empty` for a shape that is not a sequence, and the `RuntimeError` for a
  failing `PySequence_GetItem`, are left out: the shape arrives as a sequence of integers.
- `zeros`/`empty` order arguments other than C or Fortran are left out: the order arrives as a
  boolean.
- The tuple path's two scalar tests are modelled as one entry kind, `ItemOther(isScalar)`:
  `PyArray_IsAnyScalar` for the rank and `PyNumber_Int` for the index. A scalar that is not
  integer-convertible lowers the computed rank and then fails with IndexError, as in the code.
- NdSpec.SubscriptSpec: a tuple entry that `PyNumber_Int` accepts but `PyArray_IsAnyScalar` rejects
  (a 0-d array, say) is not expressible: `ItemIndex` always counts as a scalar. In the code such an
  entry keeps its axis in `rval_nd` (`ndarray/pygpu_ndarray.cpp:1018`) but is consumed as an index
  (1076-1097), so the view's last axis is never written; the check at 1078 is an `assert`, absent
  from release builds.
- Slices: slice fields that are neither integers nor None, which make `PySlice_GetIndicesEx` raise
  TypeError (`ndarray/pygpu_ndarray.cpp:964`, 1058), are not modelled; the fields arrive as optional
  integers.
- `get_common_dtype`, `as_strided` and the `fill_registry_with_*` tables are left out. They call
  numpy's type promotion, numpy's stride tricks, and platform constants respectively.
- DTypes.Register requires a consistent registry (every C name in `dtype_to_name` is bound to an
  equal dtype). Every registry reachable from the constructor is consistent, which
  `RegisterKeepsConsistent` proves.
- DTypes.SingleValued: its two failures, the ValueError of an empty name list and the
  AssertionError of names bound to different dtypes (pytools' `assert others_same()`), are one
  error, `NotSingleValued`, so `LookupIff` and `GetOrRegister` do not say which of the two a caller
  gets. Under `python -O` the assertion is gone and the first name's dtype is returned, which the
  model does not follow.
- DTypes: a dtype object and its `str()` text are distinct keys, as in the code. A dtype that
  compares equal to a string (numpy's `dtype == "float32"`) is not modelled.
- CDeclarator: `$` also matching before a final newline is not modelled; the pattern must reach the
  end of the text.
- CDeclarator.ParseRendered states the round trip for type names whose words are made of name
  characters. Declarations with other characters in the type name are covered only by `ParseCArg`'s
  own contract.

## Findings

| source | as written | input that shows it | evidently intended | confidence | as-written member | corrected member |
|---|---|---|---|---|---|---|
| array.py:119-141 | `bound` returns the address of the last element's first byte as `high`, ignoring the itemsize, and `may_share_memory` compares `[low, high)` ranges | two distinct one-element float64 arrays at the same address 1000: both bounds are (1000, 1000), so `may_share_memory` returns False | `high` covers the last element's bytes (`high + itemsize`) | high; not executed | Overlap.SameElementReportedDisjoint | Overlap.FixedIsSound |
| ndarray/pygpu_ndarray.cpp:954-963 | the slice path rejects only rank 0, then reads `DIMS(self)[0]` | `a[:]` on an uninitialised array (rank -1, null dims) | every rank below 1 is rejected, as the integer path does | high; not executed | NdSpec.SliceOfUninitialisedIsUndefined | NdSpec.SliceRejectsUninitialised |
| ndarray/pygpu_ndarray.cpp:342-347 | on a failed device-to-host copy `contiguous_self` is released twice, once in the error branch and again after it | `CreateArrayObj` on a contiguous array whose device-to-host copy fails: the caller's own array loses a reference it still holds; on a non-contiguous array whose temporary copy succeeds and whose device-to-host copy then fails (transfer outcomes `[true, false]`), the temporary is freed twice | release `contiguous_self` once on every path | high; not executed | GpuNdArray.FailedCopyReleasesTwice | GpuNdArray.NdArray.CreateArrayObj |
| dtypes.py:231-232 | a registry argument is replaced by its attribute `name_to_dtype__getitem__`, which does not exist | `parse_c_arg_backend("float x", ..., name_to_dtype=registry)` raises AttributeError | `name_to_dtype.name_to_dtype.__getitem__` | high; not executed | CDeclarator.RegistryArgumentFails | CDeclarator.RegistryIsItsTable |
