/** Every operator is linear, so each gradient has to be the adjoint: inner products with the output
    equal inner products of the input with the gradient. */
module Gradients {
  import opened Tensors
  import opened Partition
  import opened GpuPartition
  import opened Stitch
  import opened StitchRaces
  import SegmentSum
  import Interleave
  import StitchOps

  // ---------- segment sum ----------

  /** The operator: gather by index, sum by segment id. */
  function SegmentSumOf(x: seq<real>, w: nat, inputRows: nat, indices: seq<int>, ids: seq<int>,
                        rows: nat): (y: seq<real>)
    requires |x| == inputRows * w && InRange(indices, inputRows) && |indices| == |ids|
    ensures |y| == rows * w
  {
    UnsortedSegmentSum(Gather(x, w, inputRows, indices), ids, rows, w)
  }

  /** Its gradient: gather by segment id, sum by index. */
  function SegmentSumGrad(g: seq<real>, w: nat, inputRows: nat, indices: seq<int>, ids: seq<int>,
                          rows: nat): (d: seq<real>)
    requires |g| == rows * w && InRange(ids, rows) && |indices| == |ids|
    ensures |d| == inputRows * w
  {
    UnsortedSegmentSum(Gather(g, w, rows, ids), indices, inputRows, w)
  }

  /** For any row count, so with or without num_segments. */
  lemma SegmentSumAdjoint(
      x: seq<real>, g: seq<real>, w: nat, inputRows: nat, indices: seq<int>, ids: seq<int>, rows: nat)
    requires |x| == inputRows * w && InRange(indices, inputRows) && |indices| == |ids|
    requires |g| == rows * w && InRange(ids, rows)
    ensures Dot(SegmentSumOf(x, w, inputRows, indices, ids, rows), g)
         == Dot(x, SegmentSumGrad(g, w, inputRows, indices, ids, rows))
  {
    ScatterGatherAdjoint(Gather(x, w, inputRows, indices), ids, rows, w, g);
    ScatterGatherAdjoint(Gather(g, w, rows, ids), indices, inputRows, w, x);
    DotSymmetric(Gather(x, w, inputRows, indices), Gather(g, w, rows, ids));
    DotSymmetric(x, SegmentSumGrad(g, w, inputRows, indices, ids, rows));
  }

  /** The kernel's result, in whatever order its stripes ran, is adjoint to the gradient too. */
  lemma KernelAdjoint(p: SegmentSum.Problem, zero: seq<real>, trace: seq<Interleave.Event>, g: seq<real>)
    requires p.Valid() && |zero| == p.rows * p.inner && forall i | 0 <= i < |zero| :: zero[i] == 0.0
    requires Interleave.Interleaving(trace, SegmentSum.AllWrites(p)) && |g| == p.rows * p.inner
    ensures Interleave.InBounds(Interleave.Writes(trace), |zero|)
    ensures Dot(Interleave.Run(zero, Interleave.Writes(trace)), g)
         == Dot(p.input, SegmentSumGrad(g, p.inner, p.inputRows, p.indices, p.ids, p.rows))
  {
    SegmentSum.EveryRunIsTheSegmentSum(p, zero, trace);
    SegmentSumAdjoint(p.input, g, p.inner, p.inputRows, p.indices, p.ids, p.rows);
  }

  // ---------- stitch ----------

  /** Stitching leaves a row that no index names as the memory held it. */
  lemma UnnamedRowIsKept(mem: seq<real>, w: nat, rows: nat, ids: seq<int>, data: seq<real>, r: int)
    requires |mem| == rows * w && |data| == |ids| * w && 0 <= r < rows && r !in ids
    ensures Row(Stitched(mem, w, rows, ids, data), w, rows, r) == Row(mem, w, rows, r)
  {
    var out := Stitched(mem, w, rows, ids, data);
    forall c | 0 <= c < w
      ensures Row(out, w, rows, r)[c] == Row(mem, w, rows, r)[c]
    {
      RowAt(out, w, rows, r, c);
      RowAt(mem, w, rows, r, c);
      StitchedAt(mem, w, rows, ids, data, r, c);
    }
  }

  /** With distinct indices, over any memory: a change of the data changes the inner product of the output
      with g as it changes that of the data with the gathered g. */
  lemma {:induction false} StitchDifference(mem: seq<real>, w: nat, rows: nat, ids: seq<int>, x: seq<real>,
                                            y: seq<real>, g: seq<real>)
    requires |mem| == rows * w && |x| == |y| == |ids| * w && InRange(ids, rows) && DistinctIds(ids) && |g| == rows * w
    ensures Dot(Stitched(mem, w, rows, ids, x), g) - Dot(Stitched(mem, w, rows, ids, y), g)
         == Dot(x, Gather(g, w, rows, ids)) - Dot(y, Gather(g, w, rows, ids))
  {
    if ids != [] {
      var n := |ids| - 1;
      var ids', r := ids[..n], ids[n];
      StitchDifference(mem, w, rows, ids', x[..n * w], y[..n * w], g) by { LastRow(x, n, w); LastRow(y, n, w); }
      StitchLast(mem, w, rows, ids, x, g);
      StitchLast(mem, w, rows, ids, y, g);
    } else {
      assert x == y;
    }
  }

  /** What the last data row adds on both sides. */
  lemma StitchLast(mem: seq<real>, w: nat, rows: nat, ids: seq<int>, x: seq<real>, g: seq<real>)
    requires |mem| == rows * w && ids != [] && |x| == |ids| * w && InRange(ids, rows) && DistinctIds(ids)
             && |g| == rows * w
    ensures var n := |ids| - 1; var r, gRow := ids[n], Row(g, w, rows, ids[n]);
            && n * w <= |x| && |x[n * w..]| == w && |x[..n * w]| == n * w
            && Dot(Stitched(mem, w, rows, ids, x), g)
               == Dot(Stitched(mem, w, rows, ids[..n], x[..n * w]), g)
                  - Dot(Row(mem, w, rows, r), gRow) + Dot(x[n * w..], gRow)
            && Dot(x, Gather(g, w, rows, ids)) == Dot(x[..n * w], Gather(g, w, rows, ids[..n])) + Dot(x[n * w..], gRow)
  {
    var n := |ids| - 1;
    LastRow(x, n, w);
    var ids', r, x', row := ids[..n], ids[n], x[..n * w], x[n * w..];
    assert ids == ids' + [r];
    StitchedSnoc(mem, w, rows, ids', x', r, row);
    DotPutRow(Stitched(mem, w, rows, ids', x'), w, rows, r, row, g);
    UnnamedRowIsKept(mem, w, rows, ids', x', r);
    DotConcat(x', row, Gather(g, w, rows, ids'), Row(g, w, rows, r));
  }

  /** The memory is zero in every row that no index names. */
  ghost predicate ZeroElsewhere(mem: seq<real>, w: nat, rows: nat, ids: seq<int>)
    requires |mem| == rows * w
  {
    forall cell | 0 <= cell < rows * w :: ElementClear(mem, w, rows, ids, cell)
  }

  ghost predicate ElementClear(mem: seq<real>, w: nat, rows: nat, ids: seq<int>, cell: int)
    requires |mem| == rows * w && 0 <= cell < rows * w
  {
    CellOf(w, rows, cell);
    cell / w in ids || mem[cell] == 0.0
  }

  /** Stitching zeros leaves the memory in the rows that no index names, and zero in the others. */
  lemma StitchedZero(mem: seq<real>, w: nat, rows: nat, ids: seq<int>, cell: int)
    requires |mem| == rows * w && 0 <= cell < rows * w
    ensures 0 < w && Stitched(mem, w, rows, ids, Zeros(|ids| * w))[cell] == if cell / w in ids then 0.0 else mem[cell]
  {
    CellOf(w, rows, cell);
    StitchedAt(mem, w, rows, ids, Zeros(|ids| * w), cell / w, cell % w);
  }

  /** With distinct indices, over memory that is zero elsewhere, gathering the gradient is adjoint to stitching. */
  lemma StitchAdjoint(mem: seq<real>, w: nat, rows: nat, ids: seq<int>, data: seq<real>, g: seq<real>)
    requires |mem| == rows * w && |data| == |ids| * w && InRange(ids, rows) && DistinctIds(ids) && |g| == rows * w
    requires ZeroElsewhere(mem, w, rows, ids)
    ensures Dot(Stitched(mem, w, rows, ids, data), g) == Dot(data, Gather(g, w, rows, ids))
  {
    var nothing := Zeros(|ids| * w);
    var out := Stitched(mem, w, rows, ids, nothing);
    forall cell | 0 <= cell < |out|
      ensures out[cell] == 0.0
    {
      StitchedZero(mem, w, rows, ids, cell);
      assert ElementClear(mem, w, rows, ids, cell);
    }
    StitchDifference(mem, w, rows, ids, data, nothing, g);
    DotZero(out, g);
    DotZero(nothing, Gather(g, w, rows, ids));
  }

  /** A single one at position `at`, zeros elsewhere. */
  function Unit(n: nat, at: nat): (u: seq<real>)
    ensures |u| == n && forall i | 0 <= i < n :: u[i] == if i == at then 1.0 else 0.0
  {
    seq(n, i => if i == at then 1.0 else 0.0)
  }

  lemma {:induction false} DotUnit(x: seq<real>, y: seq<real>, at: nat)
    requires |x| == |y| && at < |x|
    requires forall i | 0 <= i < |x| :: x[i] == if i == at then 1.0 else 0.0
    ensures Dot(x, y) == y[at]
  {
    var n := |x| - 1;
    if at == n {
      DotZero(x[..n], y[..n]);
    } else {
      DotUnit(x[..n], y[..n], at);
    }
  }

  lemma DotPick(x: seq<real>, at: nat)
    requires at < |x|
    ensures Dot(x, Unit(|x|, at)) == x[at]
  {
    DotSymmetric(x, Unit(|x|, at));
    DotUnit(Unit(|x|, at), x, at);
  }

  lemma GatherOnes(w: nat, rows: nat, ids: seq<int>)
    requires InRange(ids, rows)
    ensures forall i | 0 <= i < |ids| * w :: Gather(Ones(rows * w), w, rows, ids)[i] == 1.0
  {
    forall i | 0 <= i < |ids| * w
      ensures Gather(Ones(rows * w), w, rows, ids)[i] == 1.0
    {
      CellOf(w, |ids|, i);
      GatherAt(Ones(rows * w), w, rows, ids, i / w, i % w);
    }
  }

  /** A data row hidden by a later one for the same output row does not show. */
  lemma HiddenRowIsLost(mem: seq<real>, w: nat, rows: nat, ids: seq<int>, i: nat, j: nat)
    requires |mem| == rows * w && 0 < w && i < j < |ids| && ids[i] == ids[j]
    ensures i * w < |ids| * w
    ensures Stitched(mem, w, rows, ids, Unit(|ids| * w, i * w)) == Stitched(mem, w, rows, ids, Zeros(|ids| * w))
  {
    var data := Unit(|ids| * w, i * w);
    CellBound(w, |ids|, i, 0);
    var s, t := Stitched(mem, w, rows, ids, data), Stitched(mem, w, rows, ids, Zeros(|ids| * w));
    forall cell | 0 <= cell < rows * w
      ensures s[cell] == t[cell]
    {
      CellOf(w, rows, cell);
      StitchedZero(mem, w, rows, ids, cell);
      HiddenCell(mem, w, rows, ids, i, j, cell / w, cell % w);
    }
  }

  lemma HiddenCell(mem: seq<real>, w: nat, rows: nat, ids: seq<int>, i: nat, j: nat, r: int, c: int)
    requires |mem| == rows * w && 0 <= c < w && 0 <= r < rows && i < j < |ids| && ids[i] == ids[j]
    ensures 0 <= r * w + c < rows * w && i * w < |ids| * w
    ensures Stitched(mem, w, rows, ids, Unit(|ids| * w, i * w))[r * w + c] == if r in ids then 0.0 else mem[r * w + c]
  {
    CellBound(w, |ids|, i, 0);
    var k := LastAt(ids, r);
    StitchedAt(mem, w, rows, ids, Unit(|ids| * w, i * w), r, c);
    if k >= 0 {
      assert k != i;
      if k * w + c == i * w + 0 {
        CellInjective(w, k, c, i, 0);
      }
    }
  }

  /** Gathering is the derivative of stitching: it turns any change of the data into the change of the output. */
  ghost predicate GatherIsDerivative(w: nat, rows: nat, ids: seq<int>)
    requires InRange(ids, rows)
  {
    forall mem: seq<real>, x: seq<real>, y: seq<real>, g: seq<real>
      | |mem| == |g| == rows * w && |x| == |y| == |ids| * w ::
      Dot(Stitched(mem, w, rows, ids, x), g) - Dot(Stitched(mem, w, rows, ids, y), g)
      == Dot(x, Gather(g, w, rows, ids)) - Dot(y, Gather(g, w, rows, ids))
  }

  /** Over given memory, gathering is the adjoint of stitching. */
  ghost predicate GatherIsAdjoint(mem: seq<real>, w: nat, rows: nat, ids: seq<int>)
    requires |mem| == rows * w && InRange(ids, rows)
  {
    forall data: seq<real>, g: seq<real> | |data| == |ids| * w && |g| == rows * w ::
      Dot(Stitched(mem, w, rows, ids, data), g) == Dot(data, Gather(g, w, rows, ids))
  }

  /** For a repeated index, the hidden row's element has a gradient of one but no effect. */
  lemma RepeatedIndexDots(mem: seq<real>, w: nat, rows: nat, ids: seq<int>, i: nat, j: nat)
    requires |mem| == rows * w && 0 < w && InRange(ids, rows) && i < j < |ids| && ids[i] == ids[j]
    ensures i * w < |ids| * w
    ensures var x, y, g := Unit(|ids| * w, i * w), Zeros(|ids| * w), Ones(rows * w);
            && Stitched(mem, w, rows, ids, x) == Stitched(mem, w, rows, ids, y)
            && Dot(x, Gather(g, w, rows, ids)) == 1.0 && Dot(y, Gather(g, w, rows, ids)) == 0.0
  {
    HiddenRowIsLost(mem, w, rows, ids, i, j);
    GatherOnes(w, rows, ids);
    DotUnit(Unit(|ids| * w, i * w), Gather(Ones(rows * w), w, rows, ids), i * w);
    DotZero(Zeros(|ids| * w), Gather(Ones(rows * w), w, rows, ids));
  }

  /** Over any memory, the stitch gradient is the derivative exactly when all indices are distinct. */
  lemma StitchGradIsDerivativeExactly(w: nat, rows: nat, ids: seq<int>)
    requires 0 < w && InRange(ids, rows)
    ensures GatherIsDerivative(w, rows, ids) <==> DistinctIds(ids)
  {
    if DistinctIds(ids) {
      forall mem: seq<real>, x: seq<real>, y: seq<real>, g: seq<real>
        | |mem| == |g| == rows * w && |x| == |y| == |ids| * w
        ensures Dot(Stitched(mem, w, rows, ids, x), g) - Dot(Stitched(mem, w, rows, ids, y), g)
             == Dot(x, Gather(g, w, rows, ids)) - Dot(y, Gather(g, w, rows, ids))
      {
        StitchDifference(mem, w, rows, ids, x, y, g);
      }
    } else {
      var i: nat, j: nat :| i < j < |ids| && ids[i] == ids[j];
      RepeatedIndexDots(Zeros(rows * w), w, rows, ids, i, j);
    }
  }

  /** Over given memory, the stitch gradient is the adjoint exactly when all indices are distinct and the
      memory is zero in the rows they do not name. */
  lemma StitchGradIsAdjointExactly(mem: seq<real>, w: nat, rows: nat, ids: seq<int>)
    requires |mem| == rows * w && 0 < w && InRange(ids, rows)
    ensures GatherIsAdjoint(mem, w, rows, ids) <==> DistinctIds(ids) && ZeroElsewhere(mem, w, rows, ids)
  {
    if DistinctIds(ids) && ZeroElsewhere(mem, w, rows, ids) {
      forall data: seq<real>, g: seq<real> | |data| == |ids| * w && |g| == rows * w
        ensures Dot(Stitched(mem, w, rows, ids, data), g) == Dot(data, Gather(g, w, rows, ids))
      {
        StitchAdjoint(mem, w, rows, ids, data, g);
      }
    } else if !DistinctIds(ids) {
      var i: nat, j: nat :| i < j < |ids| && ids[i] == ids[j];
      RepeatedIndexDots(mem, w, rows, ids, i, j);
    } else {
      var cell: nat :| cell < rows * w && !ElementClear(mem, w, rows, ids, cell);
      UnclearedElement(mem, w, rows, ids, cell);
    }
  }

  /** An element left over in a row that no index names is seen by the gradient that is one there. */
  lemma UnclearedElement(mem: seq<real>, w: nat, rows: nat, ids: seq<int>, cell: nat)
    requires |mem| == rows * w && InRange(ids, rows) && cell < rows * w && !ElementClear(mem, w, rows, ids, cell)
    ensures var nothing, g := Zeros(|ids| * w), Unit(rows * w, cell);
            Dot(Stitched(mem, w, rows, ids, nothing), g) != Dot(nothing, Gather(g, w, rows, ids))
  {
    var nothing, g := Zeros(|ids| * w), Unit(rows * w, cell);
    StitchedZero(mem, w, rows, ids, cell);
    DotPick(Stitched(mem, w, rows, ids, nothing), cell);
    DotZero(nothing, Gather(g, w, rows, ids));
  }

  /** Over every memory, it is the adjoint exactly when the indices are distinct and cover all rows. */
  lemma StitchGradIsAlwaysAdjointExactly(w: nat, rows: nat, ids: seq<int>)
    requires 0 < w && InRange(ids, rows)
    ensures (forall mem: seq<real> | |mem| == rows * w :: GatherIsAdjoint(mem, w, rows, ids))
       <==> DistinctIds(ids) && Covers(ids, rows)
  {
    if DistinctIds(ids) && Covers(ids, rows) {
      forall mem: seq<real> | |mem| == rows * w
        ensures GatherIsAdjoint(mem, w, rows, ids)
      {
        CoveredIsClear(mem, w, rows, ids);
        StitchGradIsAdjointExactly(mem, w, rows, ids);
      }
    } else {
      var mem := Ones(rows * w);
      StitchGradIsAdjointExactly(mem, w, rows, ids);
      if r :| 0 <= r < rows && r !in ids {
        CellBound(w, rows, r, 0);
        CellSplit(w, r, 0);
        assert !ElementClear(mem, w, rows, ids, r * w + 0);
      }
    }
  }

  lemma CoveredIsClear(mem: seq<real>, w: nat, rows: nat, ids: seq<int>)
    requires |mem| == rows * w && Covers(ids, rows)
    ensures ZeroElsewhere(mem, w, rows, ids)
  {
    forall cell | 0 <= cell < rows * w
      ensures ElementClear(mem, w, rows, ids, cell)
    {
      CellOf(w, rows, cell);
      assert cell / w in ids;
    }
  }

  /** Two data rows for one output row: gathering gives the hidden one a gradient too. */
  lemma RepeatedIndexIsNotAdjoint()
    ensures !GatherIsAdjoint([0.0], 1, 1, [0, 0]) && !GatherIsDerivative(1, 1, [0, 0])
  {
    var ids := [0, 0];
    StitchGradIsAdjointExactly([0.0], 1, 1, ids);
    StitchGradIsDerivativeExactly(1, 1, ids);
    assert ids[0] == ids[1];
  }

  /** Row 0 is not named and holds a five: over this memory the one side is 5, the other 0. */
  lemma UnclearedRowIsNotAdjoint()
    ensures !GatherIsAdjoint([5.0, 0.0], 1, 2, [1])
    ensures Dot(Stitched([5.0, 0.0], 1, 2, [1], [0.0]), [1.0, 1.0]) == 5.0
    ensures Dot([0.0], Gather([1.0, 1.0], 1, 2, [1])) == 0.0
  {
    var mem, ids := [5.0, 0.0], [1];
    StitchGradIsAdjointExactly(mem, 1, 2, ids);
    assert !ElementClear(mem, 1, 2, ids, 0);
    var out := Stitched(mem, 1, 2, ids, [0.0]);
    StitchedAt(mem, 1, 2, ids, [0.0], 0, 0);
    StitchedAt(mem, 1, 2, ids, [0.0], 1, 0);
    assert out[..1] == [5.0] && out[1] == 0.0;
    assert Dot(out, [1.0, 1.0]) == Dot(out[..1], [1.0, 1.0][..1]) + 0.0;
    assert Dot(out[..1], [1.0, 1.0][..1]) == Dot(out[..1][..0], [1.0, 1.0][..1][..0]) + 5.0;
    DotZero([0.0], Gather([1.0, 1.0], 1, 2, ids));
  }

  /** The gradient with respect to every data input, as the code returns it: a list of gathers. */
  function StitchGrads(g: seq<real>, w: nat, rows: nat, xs: seq<Rows>): (ds: seq<seq<real>>)
    requires |g| == rows * w && IdsInRange(xs, rows)
    ensures |ds| == |xs|
  {
    seq(|xs|, a requires 0 <= a < |xs| => assert InRange(xs[a].ids, rows); Gather(g, w, rows, xs[a].ids))
  }

  /** Sum over the inputs of the inner product with their gradient. */
  function InputDots(xs: seq<Rows>, ds: seq<seq<real>>, n: nat): real
    requires n <= |xs| == |ds| && forall a | 0 <= a < |xs| :: |xs[a].data| == |ds[a]|
  {
    if n == 0 then 0.0 else InputDots(xs, ds, n - 1) + Dot(xs[n - 1].data, ds[n - 1])
  }

  lemma {:induction false} InputDotsFlat(g: seq<real>, w: nat, rows: nat, xs: seq<Rows>, n: nat)
    requires |g| == rows * w && IdsInRange(xs, rows) && Fits(xs, w) && n <= |xs|
    ensures InRange(FlatIds(xs[..n]), rows) && |FlatData(xs[..n])| == |FlatIds(xs[..n])| * w
    ensures InputDots(xs, StitchGrads(g, w, rows, xs), n)
         == Dot(FlatData(xs[..n]), Gather(g, w, rows, FlatIds(xs[..n])))
  {
    FlatInRange(xs[..n], rows);
    FlatSize(xs[..n], w);
    if n > 0 {
      InputDotsFlat(g, w, rows, xs, n - 1);
      assert xs[..n][..n - 1] == xs[..n - 1];
      var x := xs[n - 1];
      GatherConcat(g, w, rows, FlatIds(xs[..n - 1]), x.ids);
      DotConcat(FlatData(xs[..n - 1]), x.data, Gather(g, w, rows, FlatIds(xs[..n - 1])), Gather(g, w, rows, x.ids));
    }
  }

  /** The gradients of all data inputs together are the inner product with the flattened data. */
  lemma InputDotsAll(g: seq<real>, w: nat, rows: nat, xs: seq<Rows>)
    requires |g| == rows * w && IdsInRange(xs, rows) && Fits(xs, w)
    ensures InRange(FlatIds(xs), rows) && |FlatData(xs)| == |FlatIds(xs)| * w
    ensures InputDots(xs, StitchGrads(g, w, rows, xs), |xs|) == Dot(FlatData(xs), Gather(g, w, rows, FlatIds(xs)))
  {
    assert xs[..|xs|] == xs;
    InputDotsFlat(g, w, rows, xs, |xs|);
  }

  lemma StitchGradsAdjoint(mem: seq<real>, g: seq<real>, w: nat, rows: nat, xs: seq<Rows>)
    requires |mem| == |g| == rows * w && IdsInRange(xs, rows) && Fits(xs, w) && DistinctIds(FlatIds(xs))
    requires ZeroElsewhere(mem, w, rows, FlatIds(xs))
    ensures |FlatData(xs)| == |FlatIds(xs)| * w
    ensures Dot(Stitched(mem, w, rows, FlatIds(xs), FlatData(xs)), g)
         == InputDots(xs, StitchGrads(g, w, rows, xs), |xs|)
  {
    InputDotsAll(g, w, rows, xs);
    StitchAdjoint(mem, w, rows, FlatIds(xs), FlatData(xs), g);
  }

  /** Two lists of inputs with the same indices. */
  ghost predicate Alike(xs: seq<Rows>, ys: seq<Rows>) {
    |xs| == |ys| && forall a | 0 <= a < |xs| :: xs[a].ids == ys[a].ids
  }

  lemma {:induction false} AlikeFlat(xs: seq<Rows>, ys: seq<Rows>)
    requires Alike(xs, ys)
    ensures FlatIds(xs) == FlatIds(ys)
  {
    if xs != [] {
      AlikeFlat(xs[..|xs| - 1], ys[..|ys| - 1]);
    }
  }

  /** Over any memory: however the data of the inputs change, the gradients give the change of the output. */
  lemma StitchGradsDerivative(mem: seq<real>, g: seq<real>, w: nat, rows: nat, xs: seq<Rows>, ys: seq<Rows>)
    requires |mem| == |g| == rows * w && Alike(xs, ys) && Fits(xs, w) && Fits(ys, w)
    requires IdsInRange(xs, rows) && IdsInRange(ys, rows) && DistinctIds(FlatIds(xs))
    ensures |FlatData(xs)| == |FlatIds(xs)| * w && |FlatData(ys)| == |FlatIds(ys)| * w
    ensures Dot(Stitched(mem, w, rows, FlatIds(xs), FlatData(xs)), g)
            - Dot(Stitched(mem, w, rows, FlatIds(ys), FlatData(ys)), g)
         == InputDots(xs, StitchGrads(g, w, rows, xs), |xs|) - InputDots(ys, StitchGrads(g, w, rows, ys), |ys|)
  {
    AlikeFlat(xs, ys);
    InputDotsAll(g, w, rows, xs);
    InputDotsAll(g, w, rows, ys);
    StitchDifference(mem, w, rows, FlatIds(xs), FlatData(xs), FlatData(ys), g);
  }

  /** An incoming IndexedSlices gradient (values at repeated row indices) is summed into a dense one, whose inner
      product with any output is that of the values with the rows they name. */
  lemma SlicedIsDense(values: seq<real>, at: seq<int>, w: nat, rows: nat, out: seq<real>)
    requires |values| == |at| * w && InRange(at, rows) && |out| == rows * w
    ensures Dot(Gather(out, w, rows, at), values) == Dot(out, UnsortedSegmentSum(values, at, rows, w))
  {
    ScatterGatherAdjoint(values, at, rows, w, out);
    DotSymmetric(UnsortedSegmentSum(values, at, rows, w), out);
    DotSymmetric(values, Gather(out, w, rows, at));
  }

  lemma SlicedGradsAdjoint(mem: seq<real>, values: seq<real>, at: seq<int>, w: nat, rows: nat, xs: seq<Rows>)
    requires |mem| == rows * w && |values| == |at| * w && InRange(at, rows)
    requires IdsInRange(xs, rows) && Fits(xs, w) && DistinctIds(FlatIds(xs)) && ZeroElsewhere(mem, w, rows, FlatIds(xs))
    ensures |FlatData(xs)| == |FlatIds(xs)| * w
    ensures var out := Stitched(mem, w, rows, FlatIds(xs), FlatData(xs));
            Dot(Gather(out, w, rows, at), values)
            == InputDots(xs, StitchGrads(UnsortedSegmentSum(values, at, rows, w), w, rows, xs), |xs|)
  {
    StitchGradsAdjoint(mem, UnsortedSegmentSum(values, at, rows, w), w, rows, xs);
    SlicedIsDense(values, at, w, rows, Stitched(mem, w, rows, FlatIds(xs), FlatData(xs)));
  }

  lemma SlicedGradsDerivative(mem: seq<real>, values: seq<real>, at: seq<int>, w: nat, rows: nat, xs: seq<Rows>,
                              ys: seq<Rows>)
    requires |mem| == rows * w && |values| == |at| * w && InRange(at, rows) && Alike(xs, ys) && Fits(xs, w)
             && Fits(ys, w)
    requires IdsInRange(xs, rows) && IdsInRange(ys, rows) && DistinctIds(FlatIds(xs))
    ensures |FlatData(xs)| == |FlatIds(xs)| * w && |FlatData(ys)| == |FlatIds(ys)| * w
    ensures var g := UnsortedSegmentSum(values, at, rows, w);
            Dot(Gather(Stitched(mem, w, rows, FlatIds(xs), FlatData(xs)), w, rows, at), values)
            - Dot(Gather(Stitched(mem, w, rows, FlatIds(ys), FlatData(ys)), w, rows, at), values)
            == InputDots(xs, StitchGrads(g, w, rows, xs), |xs|) - InputDots(ys, StitchGrads(g, w, rows, ys), |ys|)
  {
    StitchGradsDerivative(mem, UnsortedSegmentSum(values, at, rows, w), w, rows, xs, ys);
    SlicedIsDense(values, at, w, rows, Stitched(mem, w, rows, FlatIds(xs), FlatData(xs)));
    SlicedIsDense(values, at, w, rows, Stitched(mem, w, rows, FlatIds(ys), FlatData(ys)));
  }

  // ---------- partition ----------

  /** What the gradient of partition stitches: the partitioned row numbers with the incoming gradients. */
  function GradInputs(ids: seq<int>, grads: seq<seq<real>>): (xs: seq<Rows>)
    ensures |xs| == |grads|
  {
    seq(|grads|, p requires 0 <= p < |grads| => Rows(Part(Iota(|ids|), 1, ids, p), grads[p]))
  }

  ghost predicate GradsFit(ids: seq<int>, w: nat, grads: seq<seq<real>>) {
    forall p | 0 <= p < |grads| :: |grads[p]| == |Positions(ids, p)| * w
  }

  lemma GradInput(ids: seq<int>, grads: seq<seq<real>>, p: nat)
    requires p < |grads|
    ensures GradInputs(ids, grads)[p] == Rows(Positions(ids, p), grads[p])
  {
    GatherIota(|ids|, Positions(ids, p));
  }

  lemma {:induction false} PartitionedMember(ids: seq<int>, grads: seq<seq<real>>, n: nat, i: int)
    requires n <= |grads|
    ensures i in FlatIds(GradInputs(ids, grads)[..n]) <==> 0 <= i < |ids| && 0 <= ids[i] < n
  {
    if n > 0 {
      PartitionedMember(ids, grads, n - 1, i);
      PartitionedNext(ids, grads, n);
      PositionsSpec(ids, n - 1);
    }
  }

  lemma PartitionedNext(ids: seq<int>, grads: seq<seq<real>>, n: nat)
    requires 0 < n <= |grads|
    ensures FlatIds(GradInputs(ids, grads)[..n]) == FlatIds(GradInputs(ids, grads)[..n - 1]) + Positions(ids, n - 1)
  {
    var xs := GradInputs(ids, grads);
    GradInput(ids, grads, n - 1);
    assert xs[..n][..n - 1] == xs[..n - 1];
  }

  lemma {:induction false} PartitionedDistinct(ids: seq<int>, grads: seq<seq<real>>, n: nat)
    requires n <= |grads|
    ensures DistinctIds(FlatIds(GradInputs(ids, grads)[..n]))
  {
    if n > 0 {
      PartitionedDistinct(ids, grads, n - 1);
      PartitionedNext(ids, grads, n);
      PositionsSpec(ids, n - 1);
      var before := FlatIds(GradInputs(ids, grads)[..n - 1]);
      forall i
        ensures !(i in before && i in Positions(ids, n - 1))
      {
        PartitionedMember(ids, grads, n - 1, i);
      }
      DistinctConcat(before, Positions(ids, n - 1));
    }
  }

  /** The partitioned row numbers: every row with an id below n once, no other. */
  lemma PartitionedRowNumbers(ids: seq<int>, grads: seq<seq<real>>, n: nat)
    requires n <= |grads|
    ensures DistinctIds(FlatIds(GradInputs(ids, grads)[..n]))
    ensures forall i :: i in FlatIds(GradInputs(ids, grads)[..n]) <==> 0 <= i < |ids| && 0 <= ids[i] < n
  {
    PartitionedDistinct(ids, grads, n);
    forall i
      ensures i in FlatIds(GradInputs(ids, grads)[..n]) <==> 0 <= i < |ids| && 0 <= ids[i] < n
    {
      PartitionedMember(ids, grads, n, i);
    }
  }

  lemma DistinctConcat(a: seq<int>, b: seq<int>)
    requires DistinctIds(a) && Rising(b) && forall x :: !(x in a && x in b)
    ensures DistinctIds(a + b)
  {
    forall i, j | 0 <= i < j < |a + b|
      ensures (a + b)[i] != (a + b)[j]
    {
      if i < |a| && |a| <= j {
        assert a[i] in a && b[j - |a|] in b;
      }
    }
  }

  /** For ids in range, the stitched index list is a permutation of all row numbers: distinct, covering,
      and so of the same size for the ordinary and the fast stitch. */
  lemma GradIndicesArePermutation(ids: seq<int>, grads: seq<seq<real>>)
    requires InRange(ids, |grads|)
    ensures var flat := FlatIds(GradInputs(ids, grads));
            && DistinctIds(flat) && InRange(flat, |ids|) && Covers(flat, |ids|)
            && |flat| == |ids| == MaxIndex(flat) + 1
  {
    var xs := GradInputs(ids, grads);
    assert xs[..|grads|] == xs;
    PartitionedRowNumbers(ids, grads, |grads|);
    var flat := FlatIds(xs);
    assert InRange(flat, |ids|) by {
      forall k | 0 <= k < |flat|
        ensures 0 <= flat[k] < |ids|
      {
        assert flat[k] in flat;
      }
    }
    Pigeonhole(flat, |ids|);
    if |ids| > 0 {
      assert |ids| - 1 in flat;
      var k :| 0 <= k < |flat| && flat[k] == |ids| - 1;
    }
  }

  /** Too large ids, which the GPU operator takes, leave rows out: the fast stitch then has fewer rows than
      the input. */
  lemma GradSizeExactly(ids: seq<int>, grads: seq<seq<real>>)
    ensures |FlatIds(GradInputs(ids, grads))| == |ids| <==> InRange(ids, |grads|)
  {
    var flat := FlatIds(GradInputs(ids, grads));
    assert GradInputs(ids, grads)[..|grads|] == GradInputs(ids, grads);
    PartitionedRowNumbers(ids, grads, |grads|);
    forall k | 0 <= k < |flat|
      ensures 0 <= flat[k] < |ids|
    {
      assert flat[k] in flat;
    }
    Pigeonhole(flat, |ids|);
    if InRange(ids, |grads|) {
      assert Covers(flat, |ids|);
    } else {
      var i :| 0 <= i < |ids| && !(0 <= ids[i] < |grads|);
      assert i !in flat;
    }
  }

  /** One row, one part, and the id 1: nothing is stitched. */
  lemma TooLargeIdIsLeftOut()
    ensures |FlatIds(GradInputs([1], [[]]))| != 1
  {
    var ids := [1];
    assert ids[0] == 1;
    GradSizeExactly(ids, [[]]);
  }

  lemma GradInputsFit(ids: seq<int>, w: nat, grads: seq<seq<real>>)
    requires GradsFit(ids, w, grads)
    ensures Fits(GradInputs(ids, grads), w)
            && |FlatData(GradInputs(ids, grads))| == |FlatIds(GradInputs(ids, grads))| * w
  {
    forall p | 0 <= p < |grads|
      ensures |GradInputs(ids, grads)[p].data| == |GradInputs(ids, grads)[p].ids| * w
    {
      GradInput(ids, grads, p);
    }
    FlatSize(GradInputs(ids, grads), w);
  }

  /** The gradient: stitch the incoming gradients at the partitioned row numbers, over any memory. */
  ghost function PartitionGrad(init: seq<real>, w: nat, ids: seq<int>, grads: seq<seq<real>>): (d: seq<real>)
    requires |init| == |ids| * w && GradsFit(ids, w, grads)
    ensures |d| == |ids| * w
  {
    GradInputsFit(ids, w, grads);
    var xs := GradInputs(ids, grads);
    Stitched(init, w, |ids|, FlatIds(xs), FlatData(xs))
  }

  function PartDots(x: seq<real>, w: nat, ids: seq<int>, grads: seq<seq<real>>, n: nat): real
    requires |x| == |ids| * w && n <= |grads|
    requires forall p | 0 <= p < |grads| :: |grads[p]| == |Positions(ids, p)| * w
  {
    if n == 0 then 0.0 else PartDots(x, w, ids, grads, n - 1) + Dot(Part(x, w, ids, n - 1), grads[n - 1])
  }

  lemma {:induction false} PartDotsAreInputDots(
      x: seq<real>, w: nat, ids: seq<int>, grads: seq<seq<real>>, xs: seq<Rows>, ds: seq<seq<real>>, n: nat)
    requires |x| == |ids| * w && GradsFit(ids, w, grads)
    requires n <= |grads| == |xs| == |ds| && forall p | 0 <= p < |xs| :: |xs[p].data| == |ds[p]|
    requires forall p | 0 <= p < |grads| :: xs[p].data == grads[p] && ds[p] == Part(x, w, ids, p)
    ensures PartDots(x, w, ids, grads, n) == InputDots(xs, ds, n)
  {
    if n > 0 {
      PartDotsAreInputDots(x, w, ids, grads, xs, ds, n - 1);
      DotSymmetric(Part(x, w, ids, n - 1), grads[n - 1]);
    }
  }

  /** Gathering the whole input at a part's row numbers is partitioning it. */
  lemma GradOfPart(x: seq<real>, w: nat, ids: seq<int>, grads: seq<seq<real>>, p: nat)
    requires |x| == |ids| * w && p < |grads| && IdsInRange(GradInputs(ids, grads), |ids|)
    ensures StitchGrads(x, w, |ids|, GradInputs(ids, grads))[p] == Part(x, w, ids, p)
  {
    GradInput(ids, grads, p);
  }

  /** The partition gradient is the adjoint of partition. */
  lemma PartitionAdjoint(x: seq<real>, init: seq<real>, w: nat, ids: seq<int>, grads: seq<seq<real>>)
    requires |x| == |init| == |ids| * w && InRange(ids, |grads|) && GradsFit(ids, w, grads)
    ensures PartDots(x, w, ids, grads, |grads|) == Dot(x, PartitionGrad(init, w, ids, grads))
  {
    var xs := GradInputs(ids, grads);
    GradInputsFit(ids, w, grads);
    GradIndicesArePermutation(ids, grads);
    FlatInRange(xs, |ids|);
    var ds := StitchGrads(x, w, |ids|, xs);
    forall p | 0 <= p < |grads|
      ensures xs[p].data == grads[p] && ds[p] == Part(x, w, ids, p)
    {
      GradInput(ids, grads, p);
      GradOfPart(x, w, ids, grads, p);
    }
    PartDotsAreInputDots(x, w, ids, grads, xs, ds, |grads|);
    CoveredIsClear(init, w, |ids|, FlatIds(xs));
    StitchGradsAdjoint(init, x, w, |ids|, xs);
    DotSymmetric(x, PartitionGrad(init, w, ids, grads));
  }

  ghost function Parts(x: seq<real>, w: nat, ids: seq<int>, num: nat): (parts: seq<seq<real>>)
    requires |x| == |ids| * w
    ensures |parts| == num
  {
    seq(num, p requires 0 <= p < num => Part(x, w, ids, p))
  }

  lemma {:induction false} PartitionedData(x: seq<real>, w: nat, ids: seq<int>, num: nat, n: nat)
    requires |x| == |ids| * w && n <= num
    ensures InRange(FlatIds(GradInputs(ids, Parts(x, w, ids, num))[..n]), |ids|)
    ensures FlatData(GradInputs(ids, Parts(x, w, ids, num))[..n])
         == Gather(x, w, |ids|, FlatIds(GradInputs(ids, Parts(x, w, ids, num))[..n]))
  {
    var xs := GradInputs(ids, Parts(x, w, ids, num));
    if n > 0 {
      PartitionedData(x, w, ids, num, n - 1);
      GradInput(ids, Parts(x, w, ids, num), n - 1);
      assert xs[..n][..n - 1] == xs[..n - 1];
      GatherConcat(x, w, |ids|, FlatIds(xs[..n - 1]), xs[n - 1].ids);
    }
  }

  lemma GatheredStitchAt(x: seq<real>, init: seq<real>, w: nat, rows: nat, flat: seq<int>, r: int, c: int)
    requires |x| == |init| == rows * w && InRange(flat, rows) && r in flat && 0 <= c < w
    ensures 0 <= r * w + c < rows * w
    ensures Stitched(init, w, rows, flat, Gather(x, w, rows, flat))[r * w + c] == x[r * w + c]
  {
    var k := LastAt(flat, r);
    StitchedAt(init, w, rows, flat, Gather(x, w, rows, flat), r, c);
    GatherAt(x, w, rows, flat, k, c);
  }

  /** Stitching gathered rows where they came from gives the rows back, if every row was gathered. */
  lemma GatheredStitch(x: seq<real>, init: seq<real>, w: nat, rows: nat, flat: seq<int>)
    requires |x| == |init| == rows * w && InRange(flat, rows) && Covers(flat, rows)
    ensures Stitched(init, w, rows, flat, Gather(x, w, rows, flat)) == x
  {
    var out := Stitched(init, w, rows, flat, Gather(x, w, rows, flat));
    forall cell | 0 <= cell < |x|
      ensures out[cell] == x[cell]
    {
      CellOf(w, rows, cell);
      GatheredStitchAt(x, init, w, rows, flat, cell / w, cell % w);
    }
  }

  /** Partition, then stitch at the partitioned row numbers: the data again. */
  lemma PartitionThenStitch(x: seq<real>, init: seq<real>, w: nat, ids: seq<int>, num: nat)
    requires |x| == |init| == |ids| * w && InRange(ids, num)
    ensures GradsFit(ids, w, Parts(x, w, ids, num))
    ensures PartitionGrad(init, w, ids, Parts(x, w, ids, num)) == x
  {
    var parts := Parts(x, w, ids, num);
    var xs := GradInputs(ids, parts);
    GradInputsFit(ids, w, parts);
    GradIndicesArePermutation(ids, parts);
    assert xs[..num] == xs;
    PartitionedData(x, w, ids, num, num);
    GatheredStitch(x, init, w, |ids|, FlatIds(xs));
  }

  /** The gradient as the code runs it, through the fast stitch: any order of its threads over any memory. */
  lemma FastPartitionGrad(init: seq<real>, w: nat, ids: seq<int>, grads: seq<seq<real>>, trace: seq<Interleave.Event>)
    requires |init| == |ids| * w && InRange(ids, |grads|) && GradsFit(ids, w, grads)
    requires var xs := GradInputs(ids, grads);
             && |FlatData(xs)| == |FlatIds(xs)| * w
             && Fits(StitchOps.Split(FlatIds(xs), FlatData(xs), w), w)
             && Interleave.Interleaving(trace, Programs(StitchOps.Split(FlatIds(xs), FlatData(xs), w), w))
    ensures Interleave.InBounds(Interleave.Writes(trace), |init|)
    ensures Interleave.Run(init, Interleave.Writes(trace)) == PartitionGrad(init, w, ids, grads)
  {
    var xs := GradInputs(ids, grads);
    GradIndicesArePermutation(ids, grads);
    StitchOps.FastStitchIsSerial(FlatIds(xs), FlatData(xs), w, |ids|, init, trace);
  }
}
