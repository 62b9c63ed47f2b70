# NumPy broadcasting and in-place array assignment, modelled in Dafny

The NumPy teaching script `python/tools_numpy.py` contains two fragments with
behaviour of its own: the broadcasting rule that decides which shapes combine
elementwise, and the in-place assignment into a one-dimensional integer array
through a slice, a view, a copy and a boolean mask. Everything else in the
script calls into NumPy. This project models the two fragments and proves what
the script says about them.

- `wrappers.dfy` (module `Wrappers`): the `Option` type used for a broadcast that fails.
- `broadcasting.dfy` (module `Broadcasting`): shapes as `seq<nat>`. `Dim(s, k)` is the
  extent of the axis `k` places before the trailing one, and 1 once the shape has run out.
  `Broadcast` compares trailing axes first and fails with `None` on an incompatible pair.
  `AddRowVector` is `a + b` for a matrix and a vector. Lemmas give the per-axis rule,
  the failure condition in both directions, commutativity, identities and the worked examples.
- `array_assignment.dfy` (module `ArrayAssignment`): methods on `array<int>`.
  `FillRange` is `arr[lo:hi] = v` with Python's slice-bound normalisation, `MaskFill` is
  `arr[arr > t] = v`, and `MaskSelect` is `arr[arr > t]`. The class `View` shares the
  storage of its `base` array; `View.Copy` returns fresh storage. `Walkthrough` replays
  lines 114-134 on `arange(10)`. Its three stages state the slice that was read, the array after
  each write, what the view sees, the copy as taken and after it is overwritten, and the selection.

The comment at `python/tools_numpy.py:130-131` says that boolean selection returns a view.
In NumPy, `arr[arr > 5]` returns a new array. Only the assignment `arr[arr > 5] = 0`
writes into `arr`. The model follows that behaviour: `MaskSelect` returns a new
sequence and `MaskFill` updates the array in place.

## Model

| member | source | states |
|---|---|---|
| `Broadcasting.BroadcastDim` | python/tools_numpy.py:209-211 | one aligned pair has a result exactly when the extents are equal or one of them is 1, and that result is one of the two extents |
| `Broadcasting.Broadcast` | python/tools_numpy.py:207-213 | a successful broadcast has as many axes as the longer operand |
| `Broadcasting.BroadcastAxis` | python/tools_numpy.py:207-213 | on every axis counted from the trailing one, the result's extent is what the per-axis rule gives for the two aligned extents, with a missing axis read as 1 |
| `Broadcasting.BroadcastSucceeds` | python/tools_numpy.py:209-213 | if every aligned pair is equal or has a 1, the broadcast succeeds |
| `Broadcasting.BroadcastFailsIff` | python/tools_numpy.py:204-213 | the broadcast fails if and only if some aligned pair differs with neither extent equal to 1 |
| `Broadcasting.BroadcastRule` | python/tools_numpy.py:207-211 | equal aligned extents are kept, and an extent of 1 stretches to the other operand's extent |
| `Broadcasting.BroadcastPadsShorter` | python/tools_numpy.py:213 | a shorter operand is padded with 1s: the result has the longer operand's rank and copies its leading axes |
| `Broadcasting.BroadcastCommutes` | python/tools_numpy.py:207-213 | the result does not depend on operand order, and both orders fail together |
| `Broadcasting.BroadcastSelf` | python/tools_numpy.py:209 | a shape broadcast with itself is unchanged |
| `Broadcasting.BroadcastScalar` | python/tools_numpy.py:213 | a shape with no axes broadcasts to the other operand on either side |
| `Broadcasting.BroadcastAppend` | python/tools_numpy.py:207-209 | adding one compatible trailing pair to two compatible shapes appends that pair's extent to the result |
| `Broadcasting.MatrixVectorShape` | python/tools_numpy.py:245-251 | a (rows, cols) shape with a (len) shape gives (rows, the per-axis result of cols and len), or fails when that pair fails |
| `Broadcasting.WorkedExamples` | python/tools_numpy.py:245-263 | (5,4)+(1), (5,4)+(4), (15,3,5)+(15,1,5), (15,3,5)+(3,5) and (15,3,5)+(3,1) give (5,4), (5,4), (15,3,5), (15,3,5), (15,3,5) |
| `Broadcasting.IncompatibleExample` | python/tools_numpy.py:207-213 | (3,4) with (2,4) has no result, because the leading extents 3 and 2 differ and neither is 1 |
| `Broadcasting.ZeroExtentExample` | python/tools_numpy.py:211 | (1) with (0) gives (0), because a 1 takes the other extent even when it is 0; (0) with (2) has no result |
| `Broadcasting.AddRowVector` | python/tools_numpy.py:222-228 | matrix plus vector succeeds exactly when the shapes broadcast, its shape is the broadcast shape, `r[i][j] == a[i][j] + b[j]` for equal widths, and a width of 1 on either side stretches |
| `Broadcasting.AddRowVectorExample` | python/tools_numpy.py:222-237 | the 4 x 3 matrix plus `[0, 1, 2]` is exactly the printed result |
| `ArrayAssignment.SliceBound` | python/tools_numpy.py:115-116 | a slice bound inside the array is kept, a negative one counts from the end, and one past either end is clamped |
| `ArrayAssignment.Arange` | python/tools_numpy.py:114 | a fresh array holding 0 .. n-1 |
| `ArrayAssignment.FillRange` | python/tools_numpy.py:115-116 | `arr[lo:hi] = v` writes `v` into exactly the positions of the slice and leaves every other position unchanged |
| `ArrayAssignment.MaskFill` | python/tools_numpy.py:134 | `arr[arr > t] = v` replaces exactly the elements above `t`, keeps the others, and leaves nothing above `t` when `v <= t` |
| `ArrayAssignment.Selected` | python/tools_numpy.py:127 | the selection has at most as many elements as the array |
| `ArrayAssignment.SelectedMembers` | python/tools_numpy.py:127 | a value is selected if and only if it is in the array and above the threshold |
| `ArrayAssignment.SelectedEmpty` | python/tools_numpy.py:127-134 | the selection is empty if and only if no element is above the threshold |
| `ArrayAssignment.SelectedAppend` | python/tools_numpy.py:127 | selecting from two concatenated parts is selecting from each part, keeping the order |
| `ArrayAssignment.SelectedAll` | python/tools_numpy.py:127 | when every element is above the threshold, everything is selected |
| `ArrayAssignment.MaskSelect` | python/tools_numpy.py:127 | `arr[arr > t]` returns the elements above `t` in array order |
| `ArrayAssignment.View.constructor` | python/tools_numpy.py:117 | `arr[lo:hi]` is a view on `arr` itself, with normalised bounds |
| `ArrayAssignment.View.Fill` | python/tools_numpy.py:118 | `view[:] = v` writes `v` into the base array under the view and nowhere else in it |
| `ArrayAssignment.View.Copy` | python/tools_numpy.py:119-120 | `copy()` returns fresh storage holding the view's elements, so later writes to it cannot reach the base array |
| `ArrayAssignment.SliceStage` | python/tools_numpy.py:114-116 | on `arange(10)` the slice `arr[5:8]` reads `[5, 6, 7]`, and after `arr[5:8] = 12` the array is `[0, 1, 2, 3, 4, 12, 12, 12, 8, 9]` |
| `ArrayAssignment.ViewStage` | python/tools_numpy.py:117-120 | writing 13 through the view changes `arr` to `[0, 1, 2, 3, 4, 13, 13, 13, 8, 9]` and the view sees `[13, 13, 13]`; the copy is taken as `[13, 13, 13]`, and writing 14 into it leaves `arr` as it was |
| `ArrayAssignment.MaskStage` | python/tools_numpy.py:127-134 | the selection `arr[arr > 5]` is `[13, 13, 13, 8, 9]`, and after `arr[arr > 5] = 0` the array is `[0, 1, 2, 3, 4, 0, 0, 0, 0, 0]` |
| `ArrayAssignment.Walkthrough` | python/tools_numpy.py:114-134 | the slice reads `[5, 6, 7]`, the copy ends as `[14, 14, 14]`, the selection is `[13, 13, 13, 8, 9]`, `arr` ends as `[0, 1, 2, 3, 4, 0, 0, 0, 0, 0]`, and the view sees `[0, 0, 0]` |

## Left out

- BroadcastDim: an extent of 0 against an extent of 1 gives 0, as NumPy does. This departs from the wording at `python/tools_numpy.py:211`, which says a 1 stretches "to match the largest one" and so would give 1. As a result, an axis of the result can be smaller than the larger of the two input extents.

- Broadcast: a failure is `None` and does not carry the offending axis or the two shapes. The script only implies that incompatible shapes fail and says nothing about the error.
- AddRowVector: covers only a two-dimensional array plus a one-dimensional one, which is the script's example. Elementwise arithmetic on arrays of any rank is not modelled.
- MaskFill and MaskSelect: the mask is always `arr > t`. Assignment through a general boolean array, and its length check, is not modelled.
- FillRange and View: slices with a step are not modelled. The script uses none.
- Integers are unbounded. NumPy's fixed-width integer dtypes and their wrap-around are not modelled.
- Floating-point work (`sqrt`, `ceil`, `isnan`, `linspace`, `logspace`, Euclidean distance, `mean`, `std`) is left out because it is floating-point numerics.
- Random generation and the process-wide seed are left out. They are hidden library state and not deterministic.
- `dtype` reports are left out. They depend on the library version and platform.
- Array construction other than `arange`, `reshape`, `stack`/`hstack`, transpose, `flatten`, string arrays and `np.unique` are left out. They are direct library calls with no logic of their own in the script.
- The exercises (column argmin, `standardize`) are left out. The script has no code for them.
- `print` calls and the figure reference are output only and are left out.
