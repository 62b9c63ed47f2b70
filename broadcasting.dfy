/**
  The broadcasting rule that decides whether two arrays of different shapes
  can be combined elementwise, and the shape of the result.

  Axes are compared starting with the trailing one; equal extents carry over,
  an extent of 1 stretches to the other one, and a shape that has run out of
  axes takes part with extent 1. Any other pair of extents is incompatible.
 */
module Broadcasting {
  import opened Wrappers

  /** A shape lists the extent of every axis, outermost first, trailing axis last. */
  type Shape = seq<nat>

  function Max(x: nat, y: nat): (m: nat) {
    if x < y then y else x
  }

  /** Extent of the axis `k` places before the trailing one (k == 0 is the
      trailing axis); a shape that has run out of axes reads as extent 1. */
  function Dim(s: Shape, k: nat): (d: nat) {
    if k < |s| then s[|s| - 1 - k] else 1
  }

  /** Two aligned extents can be broadcast together. */
  predicate Compatible(x: nat, y: nat) {
    x == y || x == 1 || y == 1
  }

  /** The rule for one pair of aligned extents. */
  function BroadcastDim(x: nat, y: nat): (r: Option<nat>)
    ensures r.Some? <==> Compatible(x, y)
    ensures r.Some? ==> r.value == x || r.value == y
  {
    if x == y then Some(x)
    else if x == 1 then Some(y)
    else if y == 1 then Some(x)
    else None
  }

  /** The shape without its trailing axis (the empty shape stays empty). */
  function DropLast(s: Shape): (r: Shape)
    ensures |r| == if s == [] then 0 else |s| - 1
  {
    if s == [] then [] else s[..|s| - 1]
  }

  /** Broadcast two shapes: compare the trailing axes, then the rest. */
  function Broadcast(a: Shape, b: Shape): (r: Option<Shape>)
    ensures r.Some? ==> |r.value| == Max(|a|, |b|)
    decreases |a| + |b|
  {
    if a == [] && b == [] then Some([])
    else
      match BroadcastDim(Dim(a, 0), Dim(b, 0))
      case None => None
      case Some(d) =>
        match Broadcast(DropLast(a), DropLast(b))
        case None => None
        case Some(rest) => Some(rest + [d])
  }

  lemma DimDropLast(s: Shape, k: nat)
    ensures Dim(DropLast(s), k) == Dim(s, k + 1)
  {
  }

  /** One axis of a successful broadcast obeys the rule for that axis. */
  lemma {:induction false} BroadcastAxis(a: Shape, b: Shape, k: nat)
    requires Broadcast(a, b).Some?
    requires k < Max(|a|, |b|)
    ensures BroadcastDim(Dim(a, k), Dim(b, k)) == Some(Dim(Broadcast(a, b).value, k))
    decreases |a| + |b|
  {
    var r := Broadcast(a, b).value;
    var rest := Broadcast(DropLast(a), DropLast(b));
    if k > 0 {
      BroadcastAxis(DropLast(a), DropLast(b), k - 1);
      DimDropLast(a, k - 1);
      DimDropLast(b, k - 1);
      assert r == rest.value + [r[|r| - 1]];
      assert Dim(r, k) == Dim(rest.value, k - 1);
    }
  }

  /** When every aligned pair is compatible, the broadcast succeeds. */
  lemma {:induction false} BroadcastSucceeds(a: Shape, b: Shape)
    requires forall k :: 0 <= k < Max(|a|, |b|) ==> Compatible(Dim(a, k), Dim(b, k))
    ensures Broadcast(a, b).Some?
    decreases |a| + |b|
  {
    if a != [] || b != [] {
      assert Compatible(Dim(a, 0), Dim(b, 0));
      forall k | 0 <= k < Max(|DropLast(a)|, |DropLast(b)|)
        ensures Compatible(Dim(DropLast(a), k), Dim(DropLast(b), k))
      {
        DimDropLast(a, k);
        DimDropLast(b, k);
        assert Compatible(Dim(a, k + 1), Dim(b, k + 1));
      }
      BroadcastSucceeds(DropLast(a), DropLast(b));
    }
  }

  /** The broadcast fails exactly when some aligned pair of extents differs
      and neither of them is 1. */
  lemma BroadcastFailsIff(a: Shape, b: Shape)
    ensures Broadcast(a, b).None? <==>
      exists k :: 0 <= k < Max(|a|, |b|) && !Compatible(Dim(a, k), Dim(b, k))
  {
    if Broadcast(a, b).Some? {
      forall k | 0 <= k < Max(|a|, |b|) ensures Compatible(Dim(a, k), Dim(b, k)) {
        BroadcastAxis(a, b, k);
      }
    } else if forall k :: 0 <= k < Max(|a|, |b|) ==> Compatible(Dim(a, k), Dim(b, k)) {
      BroadcastSucceeds(a, b);
    }
  }

  /** Comparing from the trailing axis backward: where the aligned extents are
      equal the result keeps that extent, and where one of them is 1 the result
      takes the other one. A missing axis counts as extent 1. */
  lemma BroadcastRule(a: Shape, b: Shape, k: nat)
    requires Broadcast(a, b).Some?
    requires k < Max(|a|, |b|)
    ensures Dim(a, k) == Dim(b, k) ==> Dim(Broadcast(a, b).value, k) == Dim(a, k)
    ensures Dim(a, k) == 1 ==> Dim(Broadcast(a, b).value, k) == Dim(b, k)
    ensures Dim(b, k) == 1 ==> Dim(Broadcast(a, b).value, k) == Dim(a, k)
  {
    BroadcastAxis(a, b, k);
  }

  /** The result has as many axes as the longer operand, and on the leading
      axes that the shorter operand lacks it copies the longer one. */
  lemma BroadcastPadsShorter(a: Shape, b: Shape)
    requires |a| <= |b|
    requires Broadcast(a, b).Some?
    ensures |Broadcast(a, b).value| == |b|
    ensures Broadcast(a, b).value[..|b| - |a|] == b[..|b| - |a|]
  {
    var r := Broadcast(a, b).value;
    forall i | 0 <= i < |b| - |a| ensures r[i] == b[i] {
      var k := |b| - 1 - i;
      BroadcastRule(a, b, k);
    }
  }

  /** Broadcasting does not depend on the order of the operands, and the
      two orders fail together. */
  lemma {:induction false} BroadcastCommutes(a: Shape, b: Shape)
    ensures Broadcast(a, b) == Broadcast(b, a)
    decreases |a| + |b|
  {
    if a != [] || b != [] {
      BroadcastCommutes(DropLast(a), DropLast(b));
    }
  }

  /** A shape broadcast with itself is unchanged. */
  lemma {:induction false} BroadcastSelf(a: Shape)
    ensures Broadcast(a, a) == Some(a)
    decreases |a|
  {
    if a != [] {
      BroadcastSelf(DropLast(a));
      assert a == DropLast(a) + [Dim(a, 0)];
    }
  }

  /** A scalar (the shape with no axes) broadcasts to the other shape. */
  lemma {:induction false} BroadcastScalar(a: Shape)
    ensures Broadcast(a, []) == Some(a)
    ensures Broadcast([], a) == Some(a)
    decreases |a|
  {
    if a != [] {
      BroadcastScalar(DropLast(a));
      assert a == DropLast(a) + [Dim(a, 0)];
    }
    BroadcastCommutes(a, []);
  }

  /** Appending one aligned pair of trailing axes to two compatible shapes. */
  lemma BroadcastAppend(a: Shape, b: Shape, x: nat, y: nat)
    requires Broadcast(a, b).Some? && BroadcastDim(x, y).Some?
    ensures Broadcast(a + [x], b + [y]) == Some(Broadcast(a, b).value + [BroadcastDim(x, y).value])
  {
    assert DropLast(a + [x]) == a;
    assert DropLast(b + [y]) == b;
  }

  /** Broadcasting a matrix of shape (rows, cols) with a vector of shape (len):
      the vector lines up with the columns and the rows carry over. */
  lemma MatrixVectorShape(rows: nat, cols: nat, len: nat)
    ensures BroadcastDim(cols, len).None? ==> Broadcast([rows, cols], [len]).None?
    ensures BroadcastDim(cols, len).Some? ==>
      Broadcast([rows, cols], [len]) == Some([rows, BroadcastDim(cols, len).value])
  {
    assert DropLast([rows, cols]) == [rows];
    assert DropLast([len]) == [];
    BroadcastScalar([rows]);
    if BroadcastDim(cols, len).Some? {
      BroadcastAppend([rows], [], cols, len);
      assert [rows] + [cols] == [rows, cols] && [] + [len] == [len];
      assert [rows] + [BroadcastDim(cols, len).value] == [rows, BroadcastDim(cols, len).value];
    }
  }

  /** The five worked examples of the broadcasting rule. */
  lemma WorkedExamples()
    ensures Broadcast([5, 4], [1]) == Some([5, 4])
    ensures Broadcast([5, 4], [4]) == Some([5, 4])
    ensures Broadcast([15, 3, 5], [15, 1, 5]) == Some([15, 3, 5])
    ensures Broadcast([15, 3, 5], [3, 5]) == Some([15, 3, 5])
    ensures Broadcast([15, 3, 5], [3, 1]) == Some([15, 3, 5])
  {
    MatrixVectorShape(5, 4, 1);
    MatrixVectorShape(5, 4, 4);
    BroadcastSelf([15]);
    BroadcastAppend([15], [15], 3, 1);
    assert [15] + [3] == [15, 3] && [15] + [1] == [15, 1];
    BroadcastAppend([15, 3], [15, 1], 5, 5);
    assert [15, 3] + [5] == [15, 3, 5] && [15, 1] + [5] == [15, 1, 5];
    BroadcastScalar([15]);
    BroadcastAppend([15], [], 3, 3);
    assert [15] + [3] == [15, 3] && [] + [3] == [3];
    BroadcastAppend([15, 3], [3], 5, 5);
    assert [3] + [5] == [3, 5];
    BroadcastAppend([15, 3], [3], 5, 1);
    assert [3] + [1] == [3, 1];
  }

  /** Two extents that differ with neither equal to 1 make the broadcast
      fail, here on the leading axis. */
  lemma IncompatibleExample()
    ensures Broadcast([3, 4], [2, 4]).None?
  {
    assert !Compatible(Dim([3, 4], 1), Dim([2, 4], 1));
    BroadcastFailsIff([3, 4], [2, 4]);
  }

  /** An extent of 1 stretches to the other extent even when that one is 0,
      so the result can be smaller than the larger input extent. */
  lemma ZeroExtentExample()
    ensures Broadcast([1], [0]) == Some([0])
    ensures Broadcast([0], [2]).None?
  {
    assert DropLast([1]) == [] && DropLast([0]) == [] && DropLast([2]) == [];
    BroadcastAppend([], [], 1, 0);
    assert [] + [1] == [1] && [] + [0] == [0];
  }

  /** Every row of `m` holds `cols` entries. */
  predicate IsMatrix(m: seq<seq<int>>, cols: nat) {
    forall i :: 0 <= i < |m| ==> |m[i]| == cols
  }

  /** `m + v` for a matrix with `cols` columns and a vector `v`: the vector is
      broadcast across the rows, and an extent of 1 on either side stretches. */
  function AddRowVector(m: seq<seq<int>>, cols: nat, v: seq<int>): (r: Option<seq<seq<int>>>)
    requires IsMatrix(m, cols)
    ensures r.Some? <==> Broadcast([|m|, cols], [|v|]).Some?
    ensures r.Some? ==> |r.value| == |m| && IsMatrix(r.value, if cols == 1 then |v| else cols)
    ensures r.Some? ==> Broadcast([|m|, cols], [|v|]) == Some([|m|, if cols == 1 then |v| else cols])
    ensures r.Some? && cols == |v| ==>
      forall i, j :: 0 <= i < |m| && 0 <= j < cols ==> r.value[i][j] == m[i][j] + v[j]
    ensures r.Some? && |v| == 1 ==>
      forall i, j :: 0 <= i < |m| && 0 <= j < cols ==> r.value[i][j] == m[i][j] + v[0]
    ensures r.Some? && cols == 1 ==>
      forall i, j :: 0 <= i < |m| && 0 <= j < |v| ==> r.value[i][j] == m[i][0] + v[j]
  {
    MatrixVectorShape(|m|, cols, |v|);
    match BroadcastDim(cols, |v|)
    case None => None
    case Some(c) =>
      Some(seq(|m|, i requires 0 <= i < |m| =>
        seq(c, j requires 0 <= j < c =>
          m[i][if cols == 1 then 0 else j] + v[if |v| == 1 then 0 else j])))
  }

  /** The integer example: a 4 x 3 matrix plus a length-3 vector. */
  lemma AddRowVectorExample()
    ensures AddRowVector([[0, 0, 0], [10, 10, 10], [20, 20, 20], [30, 30, 30]], 3, [0, 1, 2])
      == Some([[0, 1, 2], [10, 11, 12], [20, 21, 22], [30, 31, 32]])
  {
    var m := [[0, 0, 0], [10, 10, 10], [20, 20, 20], [30, 30, 30]];
    var r := AddRowVector(m, 3, [0, 1, 2]);
    assert r.Some?;
    assert |r.value| == 4;
    assert r.value[0] == [0, 1, 2];
    assert r.value[1] == [10, 11, 12];
    assert r.value[2] == [20, 21, 22];
    assert r.value[3] == [30, 31, 32];
    assert r.value == [[0, 1, 2], [10, 11, 12], [20, 21, 22], [30, 31, 32]];
  }
}
