/** The sparse lookup, row by row: what each row of the result is in terms of the entries it was given. */
module LookupSpec {
  import opened Wrappers
  import opened Tensors
  import opened Lookup

  type Term = (int, real) -> real

  /** Sum of a term over the entries of row r. */
  function RowFold(rows: seq<int>, ids: seq<int>, ws: seq<real>, r: int, t: Term): real
    requires |rows| == |ids| == |ws|
  {
    if rows == [] then 0.0 else
      var n := |rows| - 1;
      RowFold(rows[..n], ids[..n], ws[..n], r, t) + if rows[n] == r then t(ids[n], ws[n]) else 0.0
  }

  /** The same over the entries that survive pruning. */
  function KeptFold(rows: seq<int>, ids: seq<int>, ws: seq<real>, prune: bool, r: int, t: Term): real
    requires |rows| == |ids| == |ws|
  {
    if rows == [] then 0.0 else
      var n := |rows| - 1;
      KeptFold(rows[..n], ids[..n], ws[..n], prune, r, t)
      + if rows[n] == r && (prune ==> ws[n] > 0.0) then t(ids[n], ws[n]) else 0.0
  }

  predicate HasKept(rows: seq<int>, ws: seq<real>, prune: bool, r: int)
    requires |rows| == |ws|
  {
    exists k | 0 <= k < |rows| :: rows[k] == r && (prune ==> ws[k] > 0.0)
  }

  function At(emb: int -> seq<real>, id: int, c: int): real {
    if 0 <= c < |emb(id)| then emb(id)[c] else 0.0
  }

  function Weighted(emb: int -> seq<real>, c: int): Term {
    (id, w) => At(emb, id, c) * w
  }

  function Weight(): Term {
    (id, w) => w
  }

  function Times(a: real, b: real): (p: real)
    ensures a > 0.0 && b > 0.0 ==> p > 0.0
  {
    a * b
  }

  function Squared(): Term {
    (id, w) => Times(w, w)
  }

  function Combine(combiner: Combiner, sqrt: real -> real, num: real, weight: real, squares: real): Cell {
    match combiner
    case Sum => Number(num)
    case Mean => Divide(num, weight)
    case Sqrtn => Divide(num, sqrt(squares))
  }

  /** Element (r, c): a row with surviving entries combines them; a row with none is the default id's
      embedding, or zero. With pruning, only entries of positive weight survive. */
  function RowResult(emb: int -> seq<real>, sqrt: real -> real, rows: seq<int>, ids: seq<int>, ws: seq<real>,
                     combiner: Combiner, defaultId: Option<int>, prune: bool, r: int, c: int): Cell
    requires |rows| == |ids| == |ws|
  {
    if HasKept(rows, ws, prune, r) then
      Combine(combiner, sqrt, KeptFold(rows, ids, ws, prune, r, Weighted(emb, c)),
              KeptFold(rows, ids, ws, prune, r, Weight()), KeptFold(rows, ids, ws, prune, r, Squared()))
    else match defaultId
      case Some(id) => Number(At(emb, id, c))
      case None => Number(0.0)
  }

  /** The specification of the code: only "sum" keeps entries of weight zero or less. */
  function RowSpec(emb: int -> seq<real>, sqrt: real -> real, rows: seq<int>, ids: seq<int>, ws: seq<real>,
                   combiner: Combiner, defaultId: Option<int>, r: int, c: int): Cell
    requires |rows| == |ids| == |ws|
  {
    RowResult(emb, sqrt, rows, ids, ws, combiner, defaultId, combiner != Sum, r, c)
  }

  // ---------- folds over retained and filled entries ----------

  lemma {:induction false} RetainFold(ids: Sparse<int>, ws: Sparse<real>, r: int, t: Term)
    requires ids.rows == ws.rows && |ids.rows| == |ids.values| == |ws.values|
    ensures var keep := Positive(ws.values); var i, w := Retain(ids, keep), Retain(ws, keep);
            && |i.rows| == |i.values| == |w.values| && i.rows == w.rows
            && RowFold(i.rows, i.values, w.values, r, t) == KeptFold(ids.rows, ids.values, ws.values, true, r, t)
    decreases |ids.rows|
  {
    var keep := Positive(ws.values);
    RetainAligns(ids, ws, keep);
    if ids.rows != [] {
      var n := |ids.rows| - 1;
      var ids', ws' := Sparse(ids.rows[..n], ids.values[..n]), Sparse(ws.rows[..n], ws.values[..n]);
      assert Positive(ws'.values) == keep[..n];
      RetainFold(ids', ws', r, t);
      RetainAligns(ids', ws', keep[..n]);
      if keep[n] {
        var i, w := Retain(ids', keep[..n]), Retain(ws', keep[..n]);
        RowFoldSnoc(i.rows, i.values, w.values, ids.rows[n], ids.values[n], ws.values[n], r, t);
      }
    }
  }

  lemma RowFoldSnoc(rows: seq<int>, ids: seq<int>, ws: seq<real>, row: int, id: int, w: real, r: int, t: Term)
    requires |rows| == |ids| == |ws|
    ensures RowFold(rows + [row], ids + [id], ws + [w], r, t)
         == RowFold(rows, ids, ws, r, t) + if row == r then t(id, w) else 0.0
  {
    assert (rows + [row])[..|rows|] == rows && (ids + [id])[..|rows|] == ids && (ws + [w])[..|rows|] == ws;
  }

  lemma {:induction false} RetainHas(ids: Sparse<int>, ws: seq<real>, r: int)
    requires |ids.rows| == |ids.values| == |ws|
    ensures RowEmpty(Retain(ids, Positive(ws)), r) <==> !HasKept(ids.rows, ws, true, r)
    decreases |ids.rows|
  {
    if ids.rows != [] {
      var n := |ids.rows| - 1;
      var ids' := Sparse(ids.rows[..n], ids.values[..n]);
      var keep := Positive(ws);
      assert Positive(ws[..n]) == keep[..n];
      RetainHas(ids', ws[..n], r);
      HasKeptSnoc(ids.rows, ws, true, r);
      if keep[n] {
        RowValuesSnoc(Retain(ids', keep[..n]), ids.rows[n], ids.values[n], r);
      }
    }
  }

  lemma RowValuesSnoc<V>(s: Sparse<V>, row: int, value: V, r: int)
    requires |s.rows| == |s.values|
    ensures RowValues(Sparse(s.rows + [row], s.values + [value]), r)
         == RowValues(s, r) + if row == r then [value] else []
  {
    assert (s.rows + [row])[..|s.rows|] == s.rows && (s.values + [value])[..|s.rows|] == s.values;
  }

  lemma HasKeptSnoc(rows: seq<int>, ws: seq<real>, prune: bool, r: int)
    requires |rows| == |ws| && rows != []
    ensures var n := |rows| - 1;
            HasKept(rows, ws, prune, r)
            <==> HasKept(rows[..n], ws[..n], prune, r) || (rows[n] == r && (prune ==> ws[n] > 0.0))
  {
    var n := |rows| - 1;
    if HasKept(rows[..n], ws[..n], prune, r) {
      var k :| 0 <= k < n && rows[..n][k] == r && (prune ==> ws[..n][k] > 0.0);
      assert rows[k] == r;
    }
    if HasKept(rows, ws, prune, r) {
      var k :| 0 <= k < |rows| && rows[k] == r && (prune ==> ws[k] > 0.0);
      if k < n {
        assert rows[..n][k] == r && (prune ==> ws[..n][k] > 0.0);
      }
    }
  }

  /** Without pruning, a row is empty when no entry names it. */
  lemma {:induction false} UnprunedHas<V>(s: Sparse<V>, ws: seq<real>, r: int)
    requires |s.rows| == |s.values| == |ws|
    ensures RowEmpty(s, r) <==> !HasKept(s.rows, ws, false, r)
    decreases |s.rows|
  {
    if s.rows != [] {
      var n := |s.rows| - 1;
      UnprunedHas(Sparse(s.rows[..n], s.values[..n]), ws[..n], r);
      HasKeptSnoc(s.rows, ws, false, r);
    }
  }

  lemma {:induction false} UnprunedFold(rows: seq<int>, ids: seq<int>, ws: seq<real>, r: int, t: Term)
    requires |rows| == |ids| == |ws|
    ensures RowFold(rows, ids, ws, r, t) == KeptFold(rows, ids, ws, false, r, t)
  {
    if rows != [] {
      var n := |rows| - 1;
      UnprunedFold(rows[..n], ids[..n], ws[..n], r, t);
    }
  }

  lemma {:induction false} RowFoldConcat(
      rows: seq<int>, ids: seq<int>, ws: seq<real>, rows': seq<int>, ids': seq<int>, ws': seq<real>, r: int, t: Term)
    requires |rows| == |ids| == |ws| && |rows'| == |ids'| == |ws'|
    ensures RowFold(rows + rows', ids + ids', ws + ws', r, t)
         == RowFold(rows, ids, ws, r, t) + RowFold(rows', ids', ws', r, t)
  {
    if rows' == [] {
      assert rows + rows' == rows && ids + ids' == ids && ws + ws' == ws;
    } else {
      var n := |rows'| - 1;
      RowFoldConcat(rows, ids, ws, rows'[..n], ids'[..n], ws'[..n], r, t);
      var m := |rows| + n;
      assert (rows + rows')[..m] == rows + rows'[..n] && (ids + ids')[..m] == ids + ids'[..n]
             && (ws + ws')[..m] == ws + ws'[..n];
    }
  }

  lemma {:induction false} RowFoldAbsent(rows: seq<int>, ids: seq<int>, ws: seq<real>, r: int, t: Term)
    requires |rows| == |ids| == |ws| && forall k | 0 <= k < |rows| :: rows[k] != r
    ensures RowFold(rows, ids, ws, r, t) == 0.0
  {
    if rows != [] {
      var n := |rows| - 1;
      RowFoldAbsent(rows[..n], ids[..n], ws[..n], r, t);
    }
  }

  /** A row's values under its own number fold to what the row folds to where they came from. */
  lemma {:induction false} BlockFold(ids: Sparse<int>, ws: Sparse<real>, r: int, t: Term)
    requires ids.rows == ws.rows && |ids.rows| == |ids.values| == |ws.values|
    ensures var i, w := RowValues(ids, r), RowValues(ws, r);
            && |i| == |w|
            && RowFold(Repeat(r, |i|), i, w, r, t) == RowFold(ids.rows, ids.values, ws.values, r, t)
    decreases |ids.rows|
  {
    if ids.rows != [] {
      var n := |ids.rows| - 1;
      var ids', ws' := Sparse(ids.rows[..n], ids.values[..n]), Sparse(ws.rows[..n], ws.values[..n]);
      BlockFold(ids', ws', r, t);
      if ids.rows[n] == r {
        var i, w := RowValues(ids', r), RowValues(ws', r);
        RowFoldSnoc(Repeat(r, |i|), i, w, r, ids.values[n], ws.values[n], r, t);
        assert Repeat(r, |i| + 1) == Repeat(r, |i|) + [r];
      }
    }
  }

  /** What row r folds to after filling: its entries, or the default with weight one. */
  function FilledFold(ids: Sparse<int>, ws: Sparse<real>, r: int, id: int, t: Term): real
    requires ids.rows == ws.rows && |ids.rows| == |ids.values| == |ws.values|
  {
    if RowEmpty(ids, r) then t(id, 1.0) else RowFold(ids.rows, ids.values, ws.values, r, t)
  }

  lemma FilledBlockFold(ids: Sparse<int>, ws: Sparse<real>, r: int, id: int, t: Term)
    requires ids.rows == ws.rows && |ids.rows| == |ids.values| == |ws.values|
    ensures var i, w := FilledRow(ids, r, id), FilledRow(ws, r, 1.0);
            && |i| == |w|
            && RowFold(Repeat(r, |i|), i, w, r, t) == FilledFold(ids, ws, r, id, t)
  {
    RowValuesAlign(ids, ws, r);
    if RowEmpty(ids, r) {
      RowFoldSnoc([], [], [], r, id, 1.0, r, t);
      assert [] + [r] == Repeat(r, 1) && [] + [id] == [id] && [] + [1.0] == [1.0];
    } else {
      BlockFold(ids, ws, r, t);
    }
  }

  /** What the first n filled rows fold to. */
  function FillTotal(ids: Sparse<int>, ws: Sparse<real>, n: nat, id: int, r: int, t: Term): real
    requires ids.rows == ws.rows && |ids.rows| == |ids.values| == |ws.values|
  {
    FillAligns(ids, ws, n, id, 1.0);
    RowFold(FillEmptyRows(ids, n, id).rows, FillEmptyRows(ids, n, id).values, FillEmptyRows(ws, n, 1.0).values, r, t)
  }

  lemma FillStepFold(ids: Sparse<int>, ws: Sparse<real>, n: nat, id: int, r: int, t: Term)
    requires 0 < n && ids.rows == ws.rows && |ids.rows| == |ids.values| == |ws.values|
    ensures FillTotal(ids, ws, n, id, r, t)
         == FillTotal(ids, ws, n - 1, id, r, t) + if r == n - 1 then FilledFold(ids, ws, n - 1, id, t) else 0.0
  {
    FillAligns(ids, ws, n - 1, id, 1.0);
    FilledBlockFold(ids, ws, n - 1, id, t);
    var i, w := FillEmptyRows(ids, n - 1, id), FillEmptyRows(ws, n - 1, 1.0);
    var bi, bw := FilledRow(ids, n - 1, id), FilledRow(ws, n - 1, 1.0);
    RowFoldConcat(i.rows, i.values, w.values, Repeat(n - 1, |bi|), bi, bw, r, t);
    if r != n - 1 {
      RowFoldAbsent(Repeat(n - 1, |bi|), bi, bw, r, t);
    }
  }

  lemma NothingFilled(ids: Sparse<int>, ws: Sparse<real>, id: int, r: int, t: Term)
    requires ids.rows == ws.rows && |ids.rows| == |ids.values| == |ws.values|
    ensures FillTotal(ids, ws, 0, id, r, t) == 0.0
  {
    assert FillEmptyRows(ids, 0, id) == Sparse([], []);
  }

  lemma {:induction false} FillFold(ids: Sparse<int>, ws: Sparse<real>, n: nat, id: int, r: int, t: Term)
    requires ids.rows == ws.rows && |ids.rows| == |ids.values| == |ws.values|
    ensures FillTotal(ids, ws, n, id, r, t) == if 0 <= r < n then FilledFold(ids, ws, r, id, t) else 0.0
  {
    if n > 0 {
      FillFold(ids, ws, n - 1, id, r, t);
      FillStepFold(ids, ws, n, id, r, t);
    } else {
      NothingFilled(ids, ws, id, r, t);
    }
  }

  // ---------- segment sums are folds ----------

  lemma {:induction false} SegIsFold(rows: seq<int>, ids: seq<int>, ws: seq<real>, vals: seq<real>, w: nat,
                                     r: int, c: int, t: Term, hi: nat)
    requires |rows| == |ids| == |ws| && |vals| == |rows| * w && 0 <= c < w && hi <= |rows|
    requires forall k | 0 <= k < |rows| :: 0 <= k * w + c < |vals| && vals[k * w + c] == t(ids[k], ws[k])
    ensures SegUpTo(rows, vals, w, r, c, hi) == RowFold(rows[..hi], ids[..hi], ws[..hi], r, t)
  {
    if hi > 0 {
      SegIsFold(rows, ids, ws, vals, w, r, c, t, hi - 1);
      assert rows[..hi][..hi - 1] == rows[..hi - 1] && ids[..hi][..hi - 1] == ids[..hi - 1]
             && ws[..hi][..hi - 1] == ws[..hi - 1];
    }
  }

  lemma SegmentSumIsFold(rows: seq<int>, ids: seq<int>, ws: seq<real>, vals: seq<real>, w: nat, n: nat,
                         r: int, c: int, t: Term)
    requires |rows| == |ids| == |ws| && |vals| == |rows| * w && 0 <= c < w && 0 <= r < n
    requires forall k | 0 <= k < |rows| :: 0 <= k * w + c < |vals| && vals[k * w + c] == t(ids[k], ws[k])
    ensures 0 <= r * w + c < n * w
    ensures UnsortedSegmentSum(vals, rows, n, w)[r * w + c] == RowFold(rows, ids, ws, r, t)
  {
    SegmentSumAt(vals, rows, n, w, r, c);
    SegIsFold(rows, ids, ws, vals, w, r, c, t, |rows|);
    assert rows[..|rows|] == rows && ids[..|rows|] == ids && ws[..|rows|] == ws;
  }

  /** The weighted numerator of (r, c). */
  lemma NumeratorIsFold(emb: int -> seq<real>, d: nat, rows: seq<int>, ids: seq<int>, ws: seq<real>, n: nat, r: int,
                        c: int)
    requires Table(emb, d) && |rows| == |ids| == |ws| && 0 <= r < n && 0 <= c < d
    ensures 0 <= r * d + c < n * d
    ensures UnsortedSegmentSum(Scale(Embed(emb, d, ids), ws, d), rows, n, d)[r * d + c]
         == RowFold(rows, ids, ws, r, Weighted(emb, c))
  {
    var vals := Scale(Embed(emb, d, ids), ws, d);
    forall k | 0 <= k < |rows|
      ensures 0 <= k * d + c < |vals| && vals[k * d + c] == Weighted(emb, c)(ids[k], ws[k])
    {
      EmbedAt(emb, d, ids, k, c);
      CellSplit(d, k, c);
      assert Embedding(emb, d, ids[k]) == emb(ids[k]);
    }
    SegmentSumIsFold(rows, ids, ws, vals, d, n, r, c, Weighted(emb, c));
  }

  /** The unweighted one: all weights one. */
  lemma UnweightedNumerator(emb: int -> seq<real>, d: nat, rows: seq<int>, ids: seq<int>, n: nat, r: int, c: int)
    requires Table(emb, d) && |rows| == |ids| && 0 <= r < n && 0 <= c < d
    ensures 0 <= r * d + c < n * d
    ensures UnsortedSegmentSum(Embed(emb, d, ids), rows, n, d)[r * d + c]
         == RowFold(rows, ids, Ones(|ids|), r, Weighted(emb, c))
  {
    var e := Embed(emb, d, ids);
    NumeratorIsFold(emb, d, rows, ids, Ones(|ids|), n, r, c);
    forall i | 0 <= i < |e|
      ensures Scale(e, Ones(|ids|), d)[i] == e[i]
    {
      CellOf(d, |ids|, i);
    }
    assert Scale(e, Ones(|ids|), d) == e;
  }

  lemma ColumnIsFold(rows: seq<int>, ids: seq<int>, ws: seq<real>, vals: seq<real>, n: nat, r: int, t: Term)
    requires |rows| == |ids| == |ws| == |vals| && 0 <= r < n
    requires forall k | 0 <= k < |rows| :: vals[k] == t(ids[k], ws[k])
    ensures |vals| == |rows| * 1 && |UnsortedSegmentSum(vals, rows, n, 1)| == n
    ensures UnsortedSegmentSum(vals, rows, n, 1)[r] == RowFold(rows, ids, ws, r, t)
  {
    SegmentSumIsFold(rows, ids, ws, vals, 1, n, r, 0, t);
    assert r * 1 + 0 == r;
  }

  // ---------- the reducer ----------

  lemma WeightedCellAt(num: seq<real>, d: nat, sqrt: real -> real, rows: seq<int>, ids: seq<int>, ws: seq<real>,
                       n: nat, combiner: Combiner, r: int, c: int)
    requires |num| == n * d && |rows| == |ids| == |ws| && 0 <= r < n && 0 <= c < d
    ensures 0 <= r * d + c < n * d
    ensures WeightedCells(num, d, sqrt, rows, ws, n, combiner)[r * d + c]
         == Combine(combiner, sqrt, num[r * d + c],
                    RowFold(rows, ids, ws, r, Weight()), RowFold(rows, ids, ws, r, Squared()))
  {
    CellBound(d, n, r, c);
    CellSplit(d, r, c);
    ColumnIsFold(rows, ids, ws, ws, n, r, Weight());
    ColumnIsFold(rows, ids, ws, Squares(ws), n, r, Squared());
  }

  lemma WeightedLookupCell(emb: int -> seq<real>, d: nat, sqrt: real -> real, s: Sparse<int>, ws: seq<real>,
                           combiner: Combiner, r: int, c: int)
    requires Table(emb, d) && |s.rows| == |s.values| == |ws| && 0 <= r < RowCount(s.rows) && 0 <= c < d
    ensures 0 <= r * d + c < RowCount(s.rows) * d
    ensures EmbeddingLookupSparse(emb, d, sqrt, s, Some(ws), combiner)[r * d + c]
         == Combine(combiner, sqrt, RowFold(s.rows, s.values, ws, r, Weighted(emb, c)),
                    RowFold(s.rows, s.values, ws, r, Weight()), RowFold(s.rows, s.values, ws, r, Squared()))
  {
    var n := RowCount(s.rows);
    DedupLookup(emb, d, s.values);
    NumeratorIsFold(emb, d, s.rows, s.values, ws, n, r, c);
    WeightedCellAt(UnsortedSegmentSum(Scale(Embed(emb, d, s.values), ws, d), s.rows, n, d),
                   d, sqrt, s.rows, s.values, ws, n, combiner, r, c);
  }

  lemma {:induction false} PositiveCount(rows: seq<int>, ids: seq<int>, ws: seq<real>, r: int, t: Term)
    requires |rows| == |ids| == |ws| && forall k | 0 <= k < |rows| :: t(ids[k], ws[k]) > 0.0
    ensures RowFold(rows, ids, ws, r, t) >= 0.0
    ensures r in rows ==> RowFold(rows, ids, ws, r, t) > 0.0
  {
    if rows != [] {
      var n := |rows| - 1;
      PositiveCount(rows[..n], ids[..n], ws[..n], r, t);
      assert r in rows ==> r in rows[..n] || r == rows[n];
    }
  }

  lemma {:induction false} SquaresOfOnes(rows: seq<int>, ids: seq<int>, r: int)
    requires |rows| == |ids|
    ensures RowFold(rows, ids, Ones(|ids|), r, Squared()) == RowFold(rows, ids, Ones(|ids|), r, Weight())
  {
    if rows != [] {
      var n := |rows| - 1;
      SquaresOfOnes(rows[..n], ids[..n], r);
      assert Ones(|ids|)[..n] == Ones(n);
    }
  }

  lemma UnweightedCellAt(num: seq<real>, d: nat, sqrt: real -> real, rows: seq<int>, ids: seq<int>,
                         n: nat, combiner: Combiner, r: int, c: int)
    requires |num| == n * d && |rows| == |ids| && 0 <= r < n && 0 <= c < d && r in rows
    ensures 0 <= r * d + c < n * d
    ensures UnweightedCells(num, d, sqrt, rows, n, combiner)[r * d + c]
         == Combine(combiner, sqrt, num[r * d + c],
                    RowFold(rows, ids, Ones(|ids|), r, Weight()), RowFold(rows, ids, Ones(|ids|), r, Squared()))
  {
    CellBound(d, n, r, c);
    CellSplit(d, r, c);
    ColumnIsFold(rows, ids, Ones(|ids|), Ones(|ids|), n, r, Weight());
    SquaresOfOnes(rows, ids, r);
    PositiveCount(rows, ids, Ones(|ids|), r, Weight());
  }

  /** A row without entries is zero without weights. */
  lemma EmptyRowCells(num: seq<real>, d: nat, sqrt: real -> real, rows: seq<int>, ids: seq<int>,
                      n: nat, combiner: Combiner, r: int, c: int)
    requires |num| == n * d && |rows| == |ids| && 0 <= r < n && 0 <= c < d && r !in rows
    ensures 0 <= r * d + c < n * d
    ensures UnweightedCells(num, d, sqrt, rows, n, combiner)[r * d + c]
         == Number(if combiner == Sum then num[r * d + c] else 0.0)
  {
    CellBound(d, n, r, c);
    CellSplit(d, r, c);
    ColumnIsFold(rows, ids, Ones(|ids|), Ones(|ids|), n, r, Weight());
    RowFoldAbsent(rows, ids, Ones(|ids|), r, Weight());
  }

  lemma DivideZero(b: real)
    ensures Divide(0.0, b) == if b == 0.0 then NotANumber else Number(0.0)
  {
  }

  /** The two paths at (r, c), as one reduction of the same numerator. */
  lemma LookupCells(emb: int -> seq<real>, d: nat, sqrt: real -> real, s: Sparse<int>, combiner: Combiner, r: int,
                    c: int)
    requires Table(emb, d) && |s.rows| == |s.values| && 0 <= r < RowCount(s.rows) && 0 <= c < d
    ensures 0 <= r * d + c < RowCount(s.rows) * d
    ensures var n, ones := RowCount(s.rows), Ones(|s.values|);
            var num := UnsortedSegmentSum(Embed(emb, d, s.values), s.rows, n, d);
            && EmbeddingLookupSparse(emb, d, sqrt, s, None, combiner)
               == UnweightedCells(num, d, sqrt, s.rows, n, combiner)
            && EmbeddingLookupSparse(emb, d, sqrt, s, Some(ones), combiner)[r * d + c]
               == Combine(combiner, sqrt, num[r * d + c], RowFold(s.rows, s.values, ones, r, Weight()),
                          RowFold(s.rows, s.values, ones, r, Squared()))
            && num[r * d + c] == RowFold(s.rows, s.values, ones, r, Weighted(emb, c))
  {
    WeightedLookupCell(emb, d, sqrt, s, Ones(|s.values|), combiner, r, c);
    DedupLookup(emb, d, s.values);
    UnweightedNumerator(emb, d, s.rows, s.values, RowCount(s.rows), r, c);
  }

  /** No weights at all is the same as all weights one on every row with entries and, for "sum", on all
      rows; on a row without entries "mean" differs, and "sqrtn" where the root of zero is zero. */
  lemma UnweightedLookupCellExactly(emb: int -> seq<real>, d: nat, sqrt: real -> real, s: Sparse<int>,
                                    combiner: Combiner, r: int, c: int)
    requires Table(emb, d) && |s.rows| == |s.values| && 0 <= r < RowCount(s.rows) && 0 <= c < d
    ensures 0 <= r * d + c < RowCount(s.rows) * d
    ensures EmbeddingLookupSparse(emb, d, sqrt, s, None, combiner)[r * d + c]
         == EmbeddingLookupSparse(emb, d, sqrt, s, Some(Ones(|s.values|)), combiner)[r * d + c]
       <==> r in s.rows || combiner == Sum || (combiner == Sqrtn && sqrt(0.0) != 0.0)
  {
    var n, ones := RowCount(s.rows), Ones(|s.values|);
    LookupCells(emb, d, sqrt, s, combiner, r, c);
    var num := UnsortedSegmentSum(Embed(emb, d, s.values), s.rows, n, d);
    if r in s.rows {
      UnweightedCellAt(num, d, sqrt, s.rows, s.values, n, combiner, r, c);
    } else {
      RowFoldAbsent(s.rows, s.values, ones, r, Weighted(emb, c));
      RowFoldAbsent(s.rows, s.values, ones, r, Weight());
      RowFoldAbsent(s.rows, s.values, ones, r, Squared());
      EmptyRowCells(num, d, sqrt, s.rows, s.values, n, combiner, r, c);
      DivideZero(0.0);
      DivideZero(sqrt(0.0));
    }
  }

  /** A single entry in row 1: in row 0 "mean" gives a number only without weights. */
  lemma MissingRowDiffers(emb: int -> seq<real>, sqrt: real -> real)
    requires Table(emb, 1)
    ensures EmbeddingLookupSparse(emb, 1, sqrt, Sparse([1], [7]), None, Mean)[0]
         != EmbeddingLookupSparse(emb, 1, sqrt, Sparse([1], [7]), Some(Ones(1)), Mean)[0]
  {
    UnweightedLookupCellExactly(emb, 1, sqrt, Sparse([1], [7]), Mean, 0, 0);
  }

  // ---------- the whole lookup ----------

  /** The weights the specification speaks of: those given, or ones. */
  function WeightsOf(ids: Sparse<int>, weights: Option<Sparse<real>>): (ws: seq<real>)
    requires weights.Some? ==> |weights.value.values| == |ids.values|
    ensures |ws| == |ids.values|
  {
    match weights
    case Some(w) => w.values
    case None => Ones(|ids.values|)
  }

  /** After pruning: which rows are empty, and what every row folds to. */
  lemma PrunedFold(ids: Sparse<int>, ws: Sparse<real>, prune: bool, r: int, t: Term)
    requires ids.rows == ws.rows && |ids.rows| == |ids.values| == |ws.values|
    ensures var keep := Positive(ws.values);
            var (i, w) := if prune then (Retain(ids, keep), Retain(ws, keep)) else (ids, ws);
            && i.rows == w.rows && |i.rows| == |i.values| == |w.values|
            && (RowEmpty(i, r) <==> !HasKept(ids.rows, ws.values, prune, r))
            && RowFold(i.rows, i.values, w.values, r, t) == KeptFold(ids.rows, ids.values, ws.values, prune, r, t)
  {
    if prune {
      RetainFold(ids, ws, r, t);
      RetainHas(ids, ws.values, r);
    } else {
      UnprunedHas(ids, ws.values, r);
      UnprunedFold(ids.rows, ids.values, ws.values, r, t);
    }
  }

  /** Entry by entry, filling no weights at all is filling ones. */
  lemma {:induction false} FilledOnes(ids: Sparse<int>, n: nat, id: int)
    requires |ids.rows| == |ids.values|
    ensures FillEmptyRows(Sparse(ids.rows, Ones(|ids.rows|)), n, 1.0).values == Ones(|FillEmptyRows(ids, n, id).values|)
  {
    if n > 0 {
      FilledOnes(ids, n - 1, id);
      FillAligns(ids, Sparse(ids.rows, Ones(|ids.rows|)), n - 1, id, 1.0);
      RowValuesAlign(ids, Sparse(ids.rows, Ones(|ids.rows|)), n - 1);
      RowOfOnes(ids.rows, n - 1);
    }
  }

  lemma {:induction false} RowOfOnes(rows: seq<int>, r: int)
    ensures forall k | 0 <= k < |RowValues(Sparse(rows, Ones(|rows|)), r)| ::
              RowValues(Sparse(rows, Ones(|rows|)), r)[k] == 1.0
  {
    if rows != [] {
      var n := |rows| - 1;
      RowOfOnes(rows[..n], r);
      assert Ones(|rows|)[..n] == Ones(n);
    }
  }

  /** The reducer on the filled entries, at (r, c), in terms of the entries before filling. */
  lemma FilledLookupCell(emb: int -> seq<real>, d: nat, sqrt: real -> real, n: nat, i: Sparse<int>, w: Sparse<real>,
                         id: int, combiner: Combiner, r: int, c: int)
    requires Table(emb, d) && i.rows == w.rows && |i.rows| == |i.values| == |w.values| && 0 <= r < n && 0 <= c < d
    ensures var f, fw := FillEmptyRows(i, n, id), FillEmptyRows(w, n, 1.0);
            && RowCount(f.rows) == n && r in f.rows && |fw.values| == |f.values| && 0 <= r * d + c < n * d
            && EmbeddingLookupSparse(emb, d, sqrt, f, Some(fw.values), combiner)[r * d + c]
               == Combine(combiner, sqrt, FilledFold(i, w, r, id, Weighted(emb, c)),
                          FilledFold(i, w, r, id, Weight()), FilledFold(i, w, r, id, Squared()))
  {
    FilledRowsAreComplete(i, n, id);
    var f, fw := FillEmptyRows(i, n, id), FillEmptyRows(w, n, 1.0);
    FillAligns(i, w, n, id, 1.0);
    RowFoldFilled(i, w, n, id, f, fw, r, Weighted(emb, c));
    RowFoldFilled(i, w, n, id, f, fw, r, Weight());
    RowFoldFilled(i, w, n, id, f, fw, r, Squared());
    CellBound(d, n, r, c);
    WeightedLookupCell(emb, d, sqrt, f, fw.values, combiner, r, c);
  }

  lemma RowFoldFilled(i: Sparse<int>, w: Sparse<real>, n: nat, id: int, f: Sparse<int>, fw: Sparse<real>, r: int,
                      t: Term)
    requires i.rows == w.rows && |i.rows| == |i.values| == |w.values| && 0 <= r < n
    requires f == FillEmptyRows(i, n, id) && fw == FillEmptyRows(w, n, 1.0)
    ensures |f.rows| == |f.values| == |fw.values|
    ensures RowFold(f.rows, f.values, fw.values, r, t) == FilledFold(i, w, r, id, t)
  {
    FillAligns(i, w, n, id, 1.0);
    FillFold(i, w, n, id, r, t);
  }

  /** The same with no weights: they count as ones. */
  lemma FilledUnweightedCell(emb: int -> seq<real>, d: nat, sqrt: real -> real, n: nat, i: Sparse<int>,
                             id: int, combiner: Combiner, r: int, c: int)
    requires Table(emb, d) && |i.rows| == |i.values| && 0 <= r < n && 0 <= c < d
    ensures var f, w := FillEmptyRows(i, n, id), Sparse(i.rows, Ones(|i.rows|));
            && RowCount(f.rows) == n && 0 <= r * d + c < n * d
            && EmbeddingLookupSparse(emb, d, sqrt, f, None, combiner)[r * d + c]
               == Combine(combiner, sqrt, FilledFold(i, w, r, id, Weighted(emb, c)),
                          FilledFold(i, w, r, id, Weight()), FilledFold(i, w, r, id, Squared()))
  {
    FilledRowsAreComplete(i, n, id);
    FilledLookupCell(emb, d, sqrt, n, i, Sparse(i.rows, Ones(|i.rows|)), id, combiner, r, c);
    FilledOnes(i, n, id);
    UnweightedLookupCellExactly(emb, d, sqrt, FillEmptyRows(i, n, id), combiner, r, c);
  }

  /** An abstract square root is enough: positive on positive numbers, one at one. */
  ghost predicate SquareRoot(sqrt: real -> real) {
    sqrt(1.0) == 1.0 && forall x: real :: x > 0.0 ==> sqrt(x) > 0.0
  }

  /** The entries after pruning, and their weights. */
  function Survivors(ids: Sparse<int>, ws: Sparse<real>, prune: bool): (s: (Sparse<int>, Sparse<real>))
    requires ids.rows == ws.rows && |ids.rows| == |ids.values| == |ws.values|
    ensures s.0.rows == s.1.rows && |s.0.rows| == |s.0.values| == |s.1.values|
  {
    RetainAligns(ids, ws, Positive(ws.values));
    if prune then (Retain(ids, Positive(ws.values)), Retain(ws, Positive(ws.values))) else (ids, ws)
  }

  /** Folding the filled survivors is the specification's fold, or the default's term. */
  lemma SurvivorFold(ids: Sparse<int>, ws: Sparse<real>, prune: bool, id: int, r: int, t: Term)
    requires ids.rows == ws.rows && |ids.rows| == |ids.values| == |ws.values|
    ensures var s := Survivors(ids, ws, prune);
            && (RowEmpty(s.0, r) <==> !HasKept(ids.rows, ws.values, prune, r))
            && FilledFold(s.0, s.1, r, id, t)
               == if HasKept(ids.rows, ws.values, prune, r) then KeptFold(ids.rows, ids.values, ws.values, prune, r, t)
                  else t(id, 1.0)
  {
    PrunedFold(ids, ws, prune, r, t);
  }

  lemma FilledIsSpec(emb: int -> seq<real>, sqrt: real -> real, ids: Sparse<int>, ws: Sparse<real>, combiner: Combiner,
                     id: int, r: int, c: int)
    requires ids.rows == ws.rows && |ids.rows| == |ids.values| == |ws.values| && SquareRoot(sqrt)
    ensures var s := Survivors(ids, ws, combiner != Sum);
            && (RowEmpty(s.0, r) <==> !HasKept(ids.rows, ws.values, combiner != Sum, r))
            && Combine(combiner, sqrt, FilledFold(s.0, s.1, r, id, Weighted(emb, c)),
                       FilledFold(s.0, s.1, r, id, Weight()), FilledFold(s.0, s.1, r, id, Squared()))
               == RowSpec(emb, sqrt, ids.rows, ids.values, ws.values, combiner, Some(id), r, c)
  {
    SurvivorFold(ids, ws, combiner != Sum, id, r, Weighted(emb, c));
    SurvivorFold(ids, ws, combiner != Sum, id, r, Weight());
    SurvivorFold(ids, ws, combiner != Sum, id, r, Squared());
    assert Weighted(emb, c)(id, 1.0) == At(emb, id, c) && Weight()(id, 1.0) == 1.0 && Squared()(id, 1.0) == 1.0;
    assert Divide(At(emb, id, c), 1.0) == Number(At(emb, id, c));
  }

  lemma {:induction false} RetainAll<V>(s: Sparse<V>, keep: seq<bool>)
    requires |s.rows| == |s.values| == |keep| && forall k | 0 <= k < |keep| :: keep[k]
    ensures Retain(s, keep) == s
    decreases |keep|
  {
    if keep != [] {
      var n := |keep| - 1;
      RetainAll(Sparse(s.rows[..n], s.values[..n]), keep[..n]);
      assert s.rows == s.rows[..n] + [s.rows[n]] && s.values == s.values[..n] + [s.values[n]];
    }
  }

  /** Without weights nothing is pruned, which is pruning by all-one weights. */
  lemma OnesRetainAll<V>(s: Sparse<V>)
    requires |s.rows| == |s.values|
    ensures Retain(s, Positive(Ones(|s.rows|))) == s
  {
    RetainAll(s, Positive(Ones(|s.rows|)));
  }

  lemma WeightedSafeCell(emb: int -> seq<real>, d: nat, sqrt: real -> real, n: nat, ids: Sparse<int>, ws: Sparse<real>,
                         combiner: Combiner, defaultId: Option<int>, r: int, c: int)
    requires Table(emb, d) && SquareRoot(sqrt) && ids.Valid(n) && ws.rows == ids.rows && |ws.values| == |ids.values|
    requires 0 <= r < n && 0 <= c < d
    ensures 0 <= r * d + c < n * d
    ensures SafeEmbeddingLookupSparse(emb, d, sqrt, n, ids, Some(ws), combiner, defaultId)[r * d + c]
         == RowSpec(emb, sqrt, ids.rows, ids.values, ws.values, combiner, defaultId, r, c)
  {
    var fill := defaultId.UnwrapOr(0);
    var (i, w) := Survivors(ids, ws, combiner != Sum);
    FilledIsSpec(emb, sqrt, ids, ws, combiner, fill, r, c);
    FilledLookupCell(emb, d, sqrt, n, i, w, fill, combiner, r, c);
    FilledRowsAreComplete(i, n, fill);
    var f, fw := FillEmptyRows(i, n, fill), FillEmptyRows(w, n, 1.0);
    FillAligns(i, w, n, fill, 1.0);
    ZeroEmptyRowsAt(EmbeddingLookupSparse(emb, d, sqrt, f, Some(fw.values), combiner), n, d, i, r, c);
  }

  lemma UnweightedSafeCell(emb: int -> seq<real>, d: nat, sqrt: real -> real, n: nat, ids: Sparse<int>,
                           combiner: Combiner, defaultId: Option<int>, r: int, c: int)
    requires Table(emb, d) && SquareRoot(sqrt) && ids.Valid(n) && 0 <= r < n && 0 <= c < d
    ensures 0 <= r * d + c < n * d
    ensures SafeEmbeddingLookupSparse(emb, d, sqrt, n, ids, None, combiner, defaultId)[r * d + c]
         == RowSpec(emb, sqrt, ids.rows, ids.values, Ones(|ids.values|), combiner, defaultId, r, c)
  {
    var fill := defaultId.UnwrapOr(0);
    var ws := Sparse(ids.rows, Ones(|ids.rows|));
    FilledIsSpec(emb, sqrt, ids, ws, combiner, fill, r, c);
    OnesRetainAll(ids);
    OnesRetainAll(ws);
    FilledUnweightedCell(emb, d, sqrt, n, ids, fill, combiner, r, c);
    FilledRowsAreComplete(ids, n, fill);
    ZeroEmptyRowsAt(EmbeddingLookupSparse(emb, d, sqrt, FillEmptyRows(ids, n, fill), None, combiner), n, d, ids, r, c);
  }

  /** safe_embedding_lookup_sparse meets its row-wise specification for every ragged input. */
  lemma SafeLookupMeetsRowSpec(emb: int -> seq<real>, d: nat, sqrt: real -> real, n: nat, ids: Sparse<int>,
                               weights: Option<Sparse<real>>, combiner: Combiner, defaultId: Option<int>, r: int,
                               c: int)
    requires Table(emb, d) && SquareRoot(sqrt) && ids.Valid(n) && 0 <= r < n && 0 <= c < d
    requires weights.Some? ==> weights.value.rows == ids.rows && |weights.value.values| == |ids.values|
    ensures 0 <= r * d + c < n * d
    ensures SafeEmbeddingLookupSparse(emb, d, sqrt, n, ids, weights, combiner, defaultId)[r * d + c]
         == RowSpec(emb, sqrt, ids.rows, ids.values, WeightsOf(ids, weights), combiner, defaultId, r, c)
  {
    match weights
    case Some(ws) => WeightedSafeCell(emb, d, sqrt, n, ids, ws, combiner, defaultId, r, c);
    case None => UnweightedSafeCell(emb, d, sqrt, n, ids, combiner, defaultId, r, c);
  }

  lemma NoWeightsAreOnesAt(emb: int -> seq<real>, d: nat, sqrt: real -> real, n: nat, ids: Sparse<int>,
                           ones: Sparse<real>, combiner: Combiner, defaultId: Option<int>, r: int, c: int)
    requires Table(emb, d) && SquareRoot(sqrt) && ids.Valid(n) && 0 <= r < n && 0 <= c < d
    requires ones == Sparse(ids.rows, Ones(|ids.values|))
    ensures 0 <= r * d + c < n * d
    ensures SafeEmbeddingLookupSparse(emb, d, sqrt, n, ids, None, combiner, defaultId)[r * d + c]
         == SafeEmbeddingLookupSparse(emb, d, sqrt, n, ids, Some(ones), combiner, defaultId)[r * d + c]
  {
    UnweightedSafeCell(emb, d, sqrt, n, ids, combiner, defaultId, r, c);
    WeightedSafeCell(emb, d, sqrt, n, ids, ones, combiner, defaultId, r, c);
  }

  lemma NoWeightsAreOnesCell(emb: int -> seq<real>, d: nat, sqrt: real -> real, n: nat, ids: Sparse<int>,
                             ones: Sparse<real>, combiner: Combiner, defaultId: Option<int>, cell: int)
    requires Table(emb, d) && SquareRoot(sqrt) && ids.Valid(n) && 0 <= cell < n * d
    requires ones == Sparse(ids.rows, Ones(|ids.values|))
    ensures SafeEmbeddingLookupSparse(emb, d, sqrt, n, ids, None, combiner, defaultId)[cell]
         == SafeEmbeddingLookupSparse(emb, d, sqrt, n, ids, Some(ones), combiner, defaultId)[cell]
  {
    CellOf(d, n, cell);
    NoWeightsAreOnesAt(emb, d, sqrt, n, ids, ones, combiner, defaultId, cell / d, cell % d);
  }

  /** No weights and all weights one give the same result, for every combiner. */
  lemma NoWeightsAreOnes(emb: int -> seq<real>, d: nat, sqrt: real -> real, n: nat, ids: Sparse<int>,
                         ones: Sparse<real>, combiner: Combiner, defaultId: Option<int>)
    requires Table(emb, d) && SquareRoot(sqrt) && ids.Valid(n) && ones == Sparse(ids.rows, Ones(|ids.values|))
    ensures SafeEmbeddingLookupSparse(emb, d, sqrt, n, ids, None, combiner, defaultId)
         == SafeEmbeddingLookupSparse(emb, d, sqrt, n, ids, Some(ones), combiner, defaultId)
  {
    var a := SafeEmbeddingLookupSparse(emb, d, sqrt, n, ids, None, combiner, defaultId);
    var b := SafeEmbeddingLookupSparse(emb, d, sqrt, n, ids, Some(ones), combiner, defaultId);
    forall cell | 0 <= cell < n * d
      ensures a[cell] == b[cell]
    {
      NoWeightsAreOnesCell(emb, d, sqrt, n, ids, ones, combiner, defaultId, cell);
    }
  }

  lemma {:induction false} KeptPositive(rows: seq<int>, ids: seq<int>, ws: seq<real>, r: int, t: Term)
    requires |rows| == |ids| == |ws|
    requires forall k | 0 <= k < |ws| && ws[k] > 0.0 :: t(ids[k], ws[k]) > 0.0
    ensures KeptFold(rows, ids, ws, true, r, t) >= 0.0
    ensures HasKept(rows, ws, true, r) ==> KeptFold(rows, ids, ws, true, r, t) > 0.0
  {
    if rows != [] {
      var n := |rows| - 1;
      KeptPositive(rows[..n], ids[..n], ws[..n], r, t);
      HasKeptSnoc(rows, ws, true, r);
    }
  }

  /** No divisor of a row with entries of positive weight is zero. */
  lemma DivisorsPositive(rows: seq<int>, ids: seq<int>, ws: seq<real>, r: int)
    requires |rows| == |ids| == |ws| && HasKept(rows, ws, true, r)
    ensures KeptFold(rows, ids, ws, true, r, Weight()) > 0.0
    ensures KeptFold(rows, ids, ws, true, r, Squared()) > 0.0
  {
    KeptPositive(rows, ids, ws, r, Weight());
    forall k | 0 <= k < |ws| && ws[k] > 0.0
      ensures Squared()(ids[k], ws[k]) > 0.0
    {
      assert Squared()(ids[k], ws[k]) == Times(ws[k], ws[k]);
    }
    KeptPositive(rows, ids, ws, r, Squared());
  }

  lemma RowSpecIsNumeric(emb: int -> seq<real>, sqrt: real -> real, rows: seq<int>, ids: seq<int>, ws: seq<real>,
                         combiner: Combiner, defaultId: Option<int>, r: int, c: int)
    requires |rows| == |ids| == |ws| && SquareRoot(sqrt)
    ensures RowSpec(emb, sqrt, rows, ids, ws, combiner, defaultId, r, c).Number?
  {
    if combiner != Sum && HasKept(rows, ws, true, r) {
      DivisorsPositive(rows, ids, ws, r);
    }
  }

  /** Every element is a number: after pruning and filling no divisor is zero. */
  lemma SafeLookupIsNumeric(emb: int -> seq<real>, d: nat, sqrt: real -> real, n: nat, ids: Sparse<int>,
                            weights: Option<Sparse<real>>, combiner: Combiner, defaultId: Option<int>, r: int, c: int)
    requires Table(emb, d) && SquareRoot(sqrt) && ids.Valid(n) && 0 <= r < n && 0 <= c < d
    requires weights.Some? ==> weights.value.rows == ids.rows && |weights.value.values| == |ids.values|
    ensures 0 <= r * d + c < n * d
    ensures SafeEmbeddingLookupSparse(emb, d, sqrt, n, ids, weights, combiner, defaultId)[r * d + c].Number?
  {
    SafeLookupMeetsRowSpec(emb, d, sqrt, n, ids, weights, combiner, defaultId, r, c);
    RowSpecIsNumeric(emb, sqrt, ids.rows, ids.values, WeightsOf(ids, weights), combiner, defaultId, r, c);
  }

  // ---------- the result as weighted means of embeddings ----------

  /** The weight with which each entry counts for row r: its own, or zero for one of another row or pruned. */
  ghost function KeptWeights(rows: seq<int>, ws: seq<real>, prune: bool, r: int): (kept: seq<real>)
    requires |rows| == |ws|
    ensures |kept| == |rows|
    ensures forall k | 0 <= k < |rows| :: kept[k] == if rows[k] == r && (prune ==> ws[k] > 0.0) then ws[k] else 0.0
  {
    seq(|rows|, k requires 0 <= k < |rows| => if rows[k] == r && (prune ==> ws[k] > 0.0) then ws[k] else 0.0)
  }

  /** Element c of the embedding of each id. */
  ghost function Column(emb: int -> seq<real>, d: nat, ids: seq<int>, c: nat): (col: seq<real>)
    requires Table(emb, d) && c < d
    ensures |col| == |ids| && forall k | 0 <= k < |ids| :: |emb(ids[k])| == d && col[k] == emb(ids[k])[c]
  {
    seq(|ids|, k requires 0 <= k < |ids| => At(emb, ids[k], c))
  }

  lemma {:induction false} KeptNumerator(emb: int -> seq<real>, d: nat, rows: seq<int>, ids: seq<int>, ws: seq<real>,
                                         prune: bool, r: int, c: nat)
    requires Table(emb, d) && c < d && |rows| == |ids| == |ws|
    ensures KeptFold(rows, ids, ws, prune, r, Weighted(emb, c))
         == Dot(KeptWeights(rows, ws, prune, r), Column(emb, d, ids, c))
  {
    if rows != [] {
      var n := |rows| - 1;
      KeptNumerator(emb, d, rows[..n], ids[..n], ws[..n], prune, r, c);
      KeptWeightsInit(rows, ws, prune, r);
      ColumnInit(emb, d, ids, c);
      assert Weighted(emb, c)(ids[n], ws[n]) == At(emb, ids[n], c) * ws[n];
    }
  }

  lemma KeptWeightsInit(rows: seq<int>, ws: seq<real>, prune: bool, r: int)
    requires |rows| == |ws| && rows != []
    ensures var n := |rows| - 1; KeptWeights(rows, ws, prune, r)[..n] == KeptWeights(rows[..n], ws[..n], prune, r)
  {
  }

  lemma ColumnInit(emb: int -> seq<real>, d: nat, ids: seq<int>, c: nat)
    requires Table(emb, d) && c < d && ids != []
    ensures var n := |ids| - 1; Column(emb, d, ids, c)[..n] == Column(emb, d, ids[..n], c)
    ensures var n := |ids| - 1; Column(emb, d, ids, c)[n] == At(emb, ids[n], c)
  {
  }

  lemma {:induction false} KeptDivisors(rows: seq<int>, ids: seq<int>, ws: seq<real>, prune: bool, r: int)
    requires |rows| == |ids| == |ws|
    ensures var kept := KeptWeights(rows, ws, prune, r);
            && KeptFold(rows, ids, ws, prune, r, Weight()) == Dot(kept, Ones(|rows|))
            && KeptFold(rows, ids, ws, prune, r, Squared()) == Dot(kept, kept)
  {
    if rows != [] {
      var n := |rows| - 1;
      KeptDivisors(rows[..n], ids[..n], ws[..n], prune, r);
      KeptWeightsInit(rows, ws, prune, r);
      assert Ones(|rows|)[..n] == Ones(n);
    }
  }

  /** The cell is the number whose product with b is a; with b zero there is none. */
  ghost predicate Quotient(cell: Cell, a: real, b: real) {
    if b == 0.0 then cell == NotANumber else cell.Number? && cell.v * b == a
  }

  /** What combining gives: the sum, the sum divided by that of the weights, or by the root of their squares' sum. */
  lemma CombineIs(combiner: Combiner, sqrt: real -> real, num: real, weight: real, squares: real)
    ensures var cell := Combine(combiner, sqrt, num, weight, squares);
            match combiner
            case Sum => cell == Number(num)
            case Mean => Quotient(cell, num, weight)
            case Sqrtn => Quotient(cell, num, sqrt(squares))
  {
  }

  /** A row result, for any combiner, pruned or not, as a weighted mean. */
  lemma RowResultIs(emb: int -> seq<real>, d: nat, sqrt: real -> real, rows: seq<int>, ids: seq<int>, ws: seq<real>,
                    combiner: Combiner, defaultId: Option<int>, prune: bool, r: int, c: nat)
    requires Table(emb, d) && SquareRoot(sqrt) && c < d && |rows| == |ids| == |ws| && (combiner != Sum ==> prune)
    ensures var cell := RowResult(emb, sqrt, rows, ids, ws, combiner, defaultId, prune, r, c);
            if exists k | 0 <= k < |rows| :: rows[k] == r && (prune ==> ws[k] > 0.0) then
              var kept := KeptWeights(rows, ws, prune, r);
              var total := Dot(kept, Column(emb, d, ids, c));
              match combiner
              case Sum => cell == Number(total)
              case Mean => Quotient(cell, total, Dot(kept, Ones(|rows|))) && Dot(kept, Ones(|rows|)) > 0.0
              case Sqrtn => Quotient(cell, total, sqrt(Dot(kept, kept))) && sqrt(Dot(kept, kept)) > 0.0
            else if defaultId.Some? then |emb(defaultId.value)| == d && cell == Number(emb(defaultId.value)[c])
            else cell == Number(0.0)
  {
    if HasKept(rows, ws, prune, r) {
      KeptNumerator(emb, d, rows, ids, ws, prune, r, c);
      KeptDivisors(rows, ids, ws, prune, r);
      if combiner != Sum {
        DivisorsPositive(rows, ids, ws, r);
      }
      CombineIs(combiner, sqrt, KeptFold(rows, ids, ws, prune, r, Weighted(emb, c)),
                KeptFold(rows, ids, ws, prune, r, Weight()), KeptFold(rows, ids, ws, prune, r, Squared()));
    }
  }

  /** The whole lookup, element by element: the sum, mean or root mean of the weighted embeddings of a row's
      entries (for "mean" and "sqrtn", of those of positive weight); for a row left with none the default id's
      embedding, or zero. */
  lemma SafeLookupIsTheMean(emb: int -> seq<real>, d: nat, sqrt: real -> real, n: nat, ids: Sparse<int>,
                            weights: Option<Sparse<real>>, combiner: Combiner, defaultId: Option<int>, r: nat, c: nat)
    requires Table(emb, d) && SquareRoot(sqrt) && ids.Valid(n) && r < n && c < d
    requires weights.Some? ==> weights.value.rows == ids.rows && |weights.value.values| == |ids.values|
    ensures 0 <= r * d + c < n * d
    ensures var cell := SafeEmbeddingLookupSparse(emb, d, sqrt, n, ids, weights, combiner, defaultId)[r * d + c];
            var ws := if weights.Some? then weights.value.values else Ones(|ids.values|);
            if exists k | 0 <= k < |ids.rows| :: ids.rows[k] == r && (combiner != Sum ==> ws[k] > 0.0) then
              var kept := KeptWeights(ids.rows, ws, combiner != Sum, r);
              var total := Dot(kept, Column(emb, d, ids.values, c));
              match combiner
              case Sum => cell == Number(total)
              case Mean => Quotient(cell, total, Dot(kept, Ones(|ids.rows|))) && Dot(kept, Ones(|ids.rows|)) > 0.0
              case Sqrtn => Quotient(cell, total, sqrt(Dot(kept, kept))) && sqrt(Dot(kept, kept)) > 0.0
            else if defaultId.Some? then |emb(defaultId.value)| == d && cell == Number(emb(defaultId.value)[c])
            else cell == Number(0.0)
  {
    var ws := WeightsOf(ids, weights);
    SafeLookupMeetsRowSpec(emb, d, sqrt, n, ids, weights, combiner, defaultId, r, c);
    RowResultIs(emb, d, sqrt, ids.rows, ids.values, ws, combiner, defaultId, combiner != Sum, r, c);
  }

  /** The lookup by itself, with any weights. */
  lemma SparseLookupIsTheMean(emb: int -> seq<real>, d: nat, sqrt: real -> real, s: Sparse<int>, ws: seq<real>,
                              combiner: Combiner, r: nat, c: nat)
    requires Table(emb, d) && |s.rows| == |s.values| == |ws| && r < RowCount(s.rows) && c < d
    ensures 0 <= r * d + c < RowCount(s.rows) * d
    ensures var cell := EmbeddingLookupSparse(emb, d, sqrt, s, Some(ws), combiner)[r * d + c];
            var kept := KeptWeights(s.rows, ws, false, r);
            var total := Dot(kept, Column(emb, d, s.values, c));
            match combiner
            case Sum => cell == Number(total)
            case Mean => Quotient(cell, total, Dot(kept, Ones(|s.rows|)))
            case Sqrtn => Quotient(cell, total, sqrt(Dot(kept, kept)))
  {
    WeightedLookupCell(emb, d, sqrt, s, ws, combiner, r, c);
    UnprunedFold(s.rows, s.values, ws, r, Weighted(emb, c));
    UnprunedFold(s.rows, s.values, ws, r, Weight());
    UnprunedFold(s.rows, s.values, ws, r, Squared());
    KeptNumerator(emb, d, s.rows, s.values, ws, false, r, c);
    KeptDivisors(s.rows, s.values, ws, false, r);
    CombineIs(combiner, sqrt, RowFold(s.rows, s.values, ws, r, Weighted(emb, c)),
              RowFold(s.rows, s.values, ws, r, Weight()), RowFold(s.rows, s.values, ws, r, Squared()));
  }

  /** Without weights a row that no entry names is zero. */
  lemma MissingRowIsZero(emb: int -> seq<real>, d: nat, sqrt: real -> real, s: Sparse<int>, combiner: Combiner,
                         r: nat, c: nat)
    requires Table(emb, d) && |s.rows| == |s.values| && r < RowCount(s.rows) && c < d && r !in s.rows
    ensures 0 <= r * d + c < RowCount(s.rows) * d
    ensures EmbeddingLookupSparse(emb, d, sqrt, s, None, combiner)[r * d + c] == Number(0.0)
  {
    var n := RowCount(s.rows);
    LookupCells(emb, d, sqrt, s, combiner, r, c);
    RowFoldAbsent(s.rows, s.values, Ones(|s.values|), r, Weighted(emb, c));
    EmptyRowCells(UnsortedSegmentSum(Embed(emb, d, s.values), s.rows, n, d), d, sqrt, s.rows, s.values, n, combiner,
                  r, c);
  }
}
