/**
  Assignment into a one-dimensional integer array: slice assignment, writes
  through a view that shares the array's storage, copies that do not, and
  boolean-mask selection and assignment.
 */
module ArrayAssignment {

  /** A slice bound `j` of an array of length `len`, as a position in
      [0, len]: a negative bound counts from the end, and a bound past
      either end is clamped to it. */
  function SliceBound(j: int, len: nat): (r: nat)
    ensures r <= len
    ensures 0 <= j <= len ==> r == j
    ensures j > len ==> r == len
    ensures j < 0 && -j <= len ==> r == len + j
    ensures j < 0 && -j > len ==> r == 0
  {
    if j < 0 then (if j + len < 0 then 0 else j + len)
    else if j > len then len
    else j
  }

  /** `arange(n)`: the array 0, 1, ..., n - 1. */
  method Arange(n: nat) returns (arr: array<int>)
    ensures fresh(arr) && arr.Length == n
    ensures forall i :: 0 <= i < n ==> arr[i] == i
  {
    arr := new int[n];
    for i := 0 to n
      invariant forall k :: 0 <= k < i ==> arr[k] == k
    {
      arr[i] := i;
    }
  }

  /** `arr[lo:hi] = v`: every position of the slice gets `v`, every other
      position keeps its value. */
  method FillRange(arr: array<int>, lo: int, hi: int, v: int)
    modifies arr
    ensures forall i :: 0 <= i < arr.Length ==>
      arr[i] == if SliceBound(lo, arr.Length) <= i < SliceBound(hi, arr.Length) then v else old(arr[i])
  {
    var start, stop := SliceBound(lo, arr.Length), SliceBound(hi, arr.Length);
    var i := start;
    while i < stop
      invariant start <= i <= arr.Length
      invariant i == start || i <= stop
      invariant forall k :: 0 <= k < arr.Length ==> arr[k] == if start <= k < i then v else old(arr[k])
    {
      arr[i] := v;
      i := i + 1;
    }
  }

  /** `arr[arr > threshold] = v`: every element greater than `threshold` is
      replaced by `v`, every other element keeps its value. */
  method MaskFill(arr: array<int>, threshold: int, v: int)
    modifies arr
    ensures forall i :: 0 <= i < arr.Length ==>
      arr[i] == if old(arr[i]) > threshold then v else old(arr[i])
    ensures v <= threshold ==> forall i :: 0 <= i < arr.Length ==> arr[i] <= threshold
  {
    for i := 0 to arr.Length
      invariant forall k :: 0 <= k < arr.Length ==>
        arr[k] == if k < i && old(arr[k]) > threshold then v else old(arr[k])
    {
      if arr[i] > threshold {
        arr[i] := v;
      }
    }
  }

  /** The elements of `s` greater than `threshold`, in their order in `s`. */
  function Selected(s: seq<int>, threshold: int): (r: seq<int>)
    ensures |r| <= |s|
  {
    if s == [] then []
    else Selected(s[..|s| - 1], threshold) + (if s[|s| - 1] > threshold then [s[|s| - 1]] else [])
  }

  /** What the selection holds: exactly the elements above the threshold. */
  lemma {:induction false} SelectedMembers(s: seq<int>, threshold: int)
    ensures forall x :: x in Selected(s, threshold) <==> x in s && x > threshold
  {
    if s != [] {
      SelectedMembers(s[..|s| - 1], threshold);
      assert s == s[..|s| - 1] + [s[|s| - 1]];
    }
  }

  /** The selection is empty exactly when no element exceeds the threshold,
      which is what a mask assignment with a value at most the threshold leaves. */
  lemma SelectedEmpty(s: seq<int>, threshold: int)
    ensures Selected(s, threshold) == [] <==> forall i :: 0 <= i < |s| ==> s[i] <= threshold
  {
    SelectedMembers(s, threshold);
    if Selected(s, threshold) != [] {
      assert Selected(s, threshold)[0] in Selected(s, threshold);
    }
  }

  /** Selecting from a concatenation selects from each part. */
  lemma {:induction false} SelectedAppend(s: seq<int>, t: seq<int>, threshold: int)
    ensures Selected(s + t, threshold) == Selected(s, threshold) + Selected(t, threshold)
    decreases |t|
  {
    if t == [] {
      assert s + t == s;
    } else {
      SelectedAppend(s, t[..|t| - 1], threshold);
      assert (s + t)[..|s + t| - 1] == s + t[..|t| - 1];
    }
  }

  /** When every element exceeds the threshold, the selection is all of `s`. */
  lemma {:induction false} SelectedAll(s: seq<int>, threshold: int)
    requires forall i :: 0 <= i < |s| ==> s[i] > threshold
    ensures Selected(s, threshold) == s
  {
    if s != [] {
      SelectedAll(s[..|s| - 1], threshold);
    }
  }

  /** `arr[arr > threshold]`: a new sequence of the selected elements. */
  method MaskSelect(arr: array<int>, threshold: int) returns (r: seq<int>)
    ensures r == Selected(arr[..], threshold)
  {
    r := [];
    for i := 0 to arr.Length
      invariant r == Selected(arr[..i], threshold)
    {
      assert arr[..i + 1][..i] == arr[..i];
      if arr[i] > threshold {
        r := r + [arr[i]];
      }
    }
    assert arr[..arr.Length] == arr[..];
  }

  /** A slice `base[lo:hi]` taken as a view: it shares the storage of `base`,
      so a write through it is a write into `base`. */
  class View {
    const base: array<int>
    const start: nat
    const stop: nat

    ghost predicate Valid() {
      start <= stop <= base.Length
    }

    /** The elements seen through the view. */
    function Elements(): seq<int>
      reads base
      requires Valid()
    {
      base[start..stop]
    }

    /** `base[lo:hi]`: an empty view when the normalised bounds cross. */
    constructor (arr: array<int>, lo: int, hi: int)
      ensures Valid() && base == arr
      ensures start == SliceBound(lo, arr.Length)
      ensures stop == if SliceBound(hi, arr.Length) < start then start else SliceBound(hi, arr.Length)
    {
      base := arr;
      start := SliceBound(lo, arr.Length);
      stop := if SliceBound(hi, arr.Length) < SliceBound(lo, arr.Length) then SliceBound(lo, arr.Length)
              else SliceBound(hi, arr.Length);
    }

    /** `view[:] = v`: the positions of `base` under the view get `v`, the
        rest of `base` keeps its values. */
    method Fill(v: int)
      requires Valid()
      modifies base
      ensures Elements() == seq(stop - start, _ => v)
      ensures forall i :: 0 <= i < base.Length && !(start <= i < stop) ==> base[i] == old(base[i])
    {
      FillRange(base, start, stop, v);
    }

    /** `view.copy()`: fresh storage holding the elements of the view. */
    method Copy() returns (c: array<int>)
      requires Valid()
      ensures fresh(c) && c[..] == Elements()
    {
      c := new int[stop - start];
      for k := 0 to stop - start
        invariant forall m :: 0 <= m < k ==> c[m] == base[start + m]
      {
        c[k] := base[start + k];
      }
    }
  }

  /** `arr = arange(10)`, read `arr[5:8]`, then `arr[5:8] = 12`. */
  method SliceStage() returns (arr: array<int>, slice: seq<int>)
    ensures fresh(arr)
    ensures slice == [5, 6, 7]
    ensures arr[..] == [0, 1, 2, 3, 4, 12, 12, 12, 8, 9]
  {
    arr := Arange(10);
    slice := arr[5..8];
    FillRange(arr, 5, 8, 12);
  }

  /** `arr_view = arr[5:8]; arr_view[:] = 13`, then
      `arr_copy = arr[5:8].copy(); arr_copy[:] = 14`. */
  method ViewStage(arr: array<int>) returns (view: View, copied: seq<int>, copy: array<int>)
    requires arr[..] == [0, 1, 2, 3, 4, 12, 12, 12, 8, 9]
    modifies arr
    ensures view.Valid() && view.base == arr && view.start == 5 && view.stop == 8
    ensures view.Elements() == [13, 13, 13]
    ensures copied == [13, 13, 13]
    ensures fresh(copy) && copy[..] == [14, 14, 14]
    ensures arr[..] == [0, 1, 2, 3, 4, 13, 13, 13, 8, 9]
  {
    view := new View(arr, 5, 8);
    view.Fill(13);
    copy := view.Copy();
    copied := copy[..];
    FillRange(copy, 0, copy.Length, 14);
  }

  /** `arr[arr > 5]`, then `arr[arr > 5] = 0`. */
  method MaskStage(arr: array<int>) returns (selected: seq<int>)
    requires arr[..] == [0, 1, 2, 3, 4, 13, 13, 13, 8, 9]
    modifies arr
    ensures selected == [13, 13, 13, 8, 9]
    ensures arr[..] == [0, 1, 2, 3, 4, 0, 0, 0, 0, 0]
  {
    selected := MaskSelect(arr, 5);
    assert arr[..] == [0, 1, 2, 3, 4] + [13, 13, 13, 8, 9];
    SelectedAppend([0, 1, 2, 3, 4], [13, 13, 13, 8, 9], 5);
    SelectedEmpty([0, 1, 2, 3, 4], 5);
    SelectedAll([13, 13, 13, 8, 9], 5);
    MaskFill(arr, 5, 0);
  }

  /** The sequence of statements on `arr = arange(10)`: slice assignment,
      a write through a view, a write into a copy, a boolean selection and a
      boolean-mask assignment. The view still sees `arr` at the end. */
  method Walkthrough() returns (arr: array<int>, view: View, copy: array<int>, slice: seq<int>, selected: seq<int>)
    ensures slice == [5, 6, 7]
    ensures copy[..] == [14, 14, 14]
    ensures selected == [13, 13, 13, 8, 9]
    ensures arr[..] == [0, 1, 2, 3, 4, 0, 0, 0, 0, 0]
    ensures view.Valid() && view.base == arr && view.Elements() == [0, 0, 0]
  {
    arr, slice := SliceStage();
    var copied;
    view, copied, copy := ViewStage(arr);
    selected := MaskStage(arr);
  }
}
