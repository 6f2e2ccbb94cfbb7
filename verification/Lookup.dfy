/** The sparse embedding lookup: prune, fill empty rows, look up each distinct id once, reduce. */
module Lookup {
  import opened Wrappers
  import opened Tensors

  datatype Combiner = Sum | Mean | Sqrtn

  /** A result element; a division by zero gives no number. */
  datatype Cell = Number(v: real) | NotANumber

  /** The quotient, if there is one, times the divisor is the dividend. */
  function Divide(a: real, b: real): (q: Cell)
    ensures q.Number? <==> b != 0.0
    ensures q.Number? ==> q.v * b == a
  {
    if b == 0.0 then NotANumber else Number(a / b)
  }

  /** The entries of a two-dimensional sparse tensor: the row and the value of each. */
  datatype Sparse<V> = Sparse(rows: seq<int>, values: seq<V>) {
    predicate Valid(n: nat) {
      |rows| == |values| && InRange(rows, n)
    }
  }

  // ---------- distinct ids ----------

  /** Distinct ids in order of first occurrence, and for every id its place among them. */
  function Unique(ids: seq<int>): (r: (seq<int>, seq<int>))
    ensures |r.1| == |ids| && InRange(r.1, |r.0|)
  {
    if ids == [] then ([], []) else
      var n := |ids| - 1;
      var (u, idx) := Unique(ids[..n]);
      if ids[n] in u then
        (u, idx + [PlaceOf(u, ids[n])])
      else
        (u + [ids[n]], idx + [|u|])
  }

  /** Exactly the given ids, each once; and every id is found at its place. */
  lemma {:induction false} UniqueSpec(ids: seq<int>)
    ensures forall k | 0 <= k < |ids| :: Unique(ids).0[Unique(ids).1[k]] == ids[k]
    ensures forall i, j | 0 <= i < j < |Unique(ids).0| :: Unique(ids).0[i] != Unique(ids).0[j]
    ensures forall x :: x in Unique(ids).0 <==> x in ids
  {
    if ids != [] {
      var n := |ids| - 1;
      var (u, idx) := Unique(ids[..n]);
      UniqueSpec(ids[..n]);
      assert ids == ids[..n] + [ids[n]];
      forall x
        ensures x in Unique(ids).0 <==> x in ids
      {
        assert x in ids <==> x in ids[..n] || x == ids[n];
      }
    }
  }

  /** Ids take their places in the order in which they first occur: a new one comes behind all before it. */
  lemma {:induction false} UniqueKeepsOrder(ids: seq<int>, j: nat, k: nat)
    requires j < k < |ids| && ids[k] !in ids[..k]
    ensures Unique(ids).1[j] < Unique(ids).1[k]
  {
    var n := |ids| - 1;
    var before := ids[..n];
    if k < n {
      assert before[..k] == ids[..k];
      UniqueKeepsOrder(before, j, k);
    } else {
      UniqueSpec(before);
    }
  }

  function PlaceOf(u: seq<int>, x: int): (i: int)
    requires x in u
    ensures 0 <= i < |u| && u[i] == x
  {
    if u[|u| - 1] == x then |u| - 1 else PlaceOf(u[..|u| - 1], x)
  }

  // ---------- tables ----------

  /** Every id has an embedding of d elements. */
  ghost predicate Table(emb: int -> seq<real>, d: nat) {
    forall id :: |emb(id)| == d
  }

  /** The embedding of one id. */
  function Embedding(emb: int -> seq<real>, d: nat, id: int): (row: seq<real>)
    requires Table(emb, d)
    ensures |row| == d
  {
    emb(id)
  }

  /** The embeddings of ids, row after row. */
  function Embed(emb: int -> seq<real>, d: nat, ids: seq<int>): (e: seq<real>)
    requires Table(emb, d)
    ensures |e| == |ids| * d
  {
    if ids == [] then [] else
      var n := |ids| - 1;
      Distribute(n, 1, d);
      Embed(emb, d, ids[..n]) + Embedding(emb, d, ids[n])
  }

  lemma {:induction false} EmbedAt(emb: int -> seq<real>, d: nat, ids: seq<int>, k: int, c: int)
    requires Table(emb, d) && 0 <= k < |ids| && 0 <= c < d
    ensures 0 <= k * d + c < |ids| * d && Embed(emb, d, ids)[k * d + c] == Embedding(emb, d, ids[k])[c]
  {
    CellBound(d, |ids|, k, c);
    var n := |ids| - 1;
    Distribute(n, 1, d);
    if k < n {
      EmbedAt(emb, d, ids[..n], k, c);
    }
  }

  /** Looking up the distinct ids and gathering through the inverse index is looking up every id. */
  lemma DedupLookup(emb: int -> seq<real>, d: nat, ids: seq<int>)
    requires Table(emb, d)
    ensures Gather(Embed(emb, d, Unique(ids).0), d, |Unique(ids).0|, Unique(ids).1) == Embed(emb, d, ids)
  {
    var (u, idx) := Unique(ids);
    UniqueSpec(ids);
    var a, b := Gather(Embed(emb, d, u), d, |u|, idx), Embed(emb, d, ids);
    forall i | 0 <= i < |a|
      ensures a[i] == b[i]
    {
      CellOf(d, |ids|, i);
      var k, c := i / d, i % d;
      GatherAt(Embed(emb, d, u), d, |u|, idx, k, c);
      EmbedAt(emb, d, u, idx[k], c);
      EmbedAt(emb, d, ids, k, c);
    }
  }

  /** embedding_lookup_unique: flatten, dedup, look up, gather back, restore the shape. */
  function EmbeddingLookupUnique(emb: int -> seq<real>, d: nat, ids: Tensor<int>): Tensor<real>
    requires Table(emb, d) && ids.Valid()
  {
    var (u, idx) := Unique(ids.flat);
    Tensor(ids.shape + [d], Gather(Embed(emb, d, u), d, |u|, idx))
  }

  /** Its result has shape [shape of ids] + [d] and holds, for every id, that id's own embedding. */
  lemma LookupUniqueIsNaive(emb: int -> seq<real>, d: nat, ids: Tensor<int>)
    requires Table(emb, d) && ids.Valid()
    ensures EmbeddingLookupUnique(emb, d, ids) == Tensor(ids.shape + [d], Embed(emb, d, ids.flat))
    ensures EmbeddingLookupUnique(emb, d, ids).Valid()
  {
    DedupLookup(emb, d, ids.flat);
    ProductConcat(ids.shape, [d]);
    assert Product([d]) == d * Product([]);
  }

  /** Element c behind position k is element c of the embedding of the id there. */
  lemma LookupUniqueAt(emb: int -> seq<real>, d: nat, ids: Tensor<int>, k: nat, c: nat)
    requires Table(emb, d) && ids.Valid() && k < |ids.flat| && c < d
    ensures var e := EmbeddingLookupUnique(emb, d, ids);
            && e.shape == ids.shape + [d] && |e.flat| == |ids.flat| * d
            && 0 <= k * d + c < |e.flat| && |emb(ids.flat[k])| == d && e.flat[k * d + c] == emb(ids.flat[k])[c]
  {
    LookupUniqueIsNaive(emb, d, ids);
    EmbedAt(emb, d, ids.flat, k, c);
  }

  // ---------- prune and fill ----------

  function Retain<V>(s: Sparse<V>, keep: seq<bool>): (t: Sparse<V>)
    requires |s.rows| == |s.values| == |keep|
    ensures |t.rows| == |t.values|
    decreases |keep|
  {
    if keep == [] then Sparse([], []) else
      var n := |keep| - 1;
      var t := Retain(Sparse(s.rows[..n], s.values[..n]), keep[..n]);
      if keep[n] then Sparse(t.rows + [s.rows[n]], t.values + [s.values[n]]) else t
  }

  function Positive(weights: seq<real>): (keep: seq<bool>)
    ensures |keep| == |weights|
  {
    seq(|weights|, k requires 0 <= k < |weights| => weights[k] > 0.0)
  }

  function PruneInvalidWeights(ids: Sparse<int>,
                               weights: Option<Sparse<real>>): (r: (Sparse<int>, Option<Sparse<real>>))
    requires |ids.rows| == |ids.values|
    requires weights.Some? ==> weights.value.rows == ids.rows && |weights.value.values| == |ids.values|
    ensures |r.0.rows| == |r.0.values|
  {
    match weights
    case None => (ids, weights)
    case Some(ws) => (Retain(ids, Positive(ws.values)), Some(Retain(ws, Positive(ws.values))))
  }

  /** The values of row r, in order. */
  function RowValues<V>(s: Sparse<V>, r: int): seq<V>
    requires |s.rows| == |s.values|
    decreases |s.rows|
  {
    if s.rows == [] then [] else
      var n := |s.rows| - 1;
      var before := RowValues(Sparse(s.rows[..n], s.values[..n]), r);
      if s.rows[n] == r then before + [s.values[n]] else before
  }

  /** Row r as it leaves the filling: its values, or the default alone. */
  function FilledRow<V>(s: Sparse<V>, r: int, default: V): (vs: seq<V>)
    requires |s.rows| == |s.values|
    ensures vs != []
  {
    if RowValues(s, r) == [] then [default] else RowValues(s, r)
  }

  function Repeat(r: int, n: nat): (s: seq<int>)
    ensures |s| == n && forall i | 0 <= i < n :: s[i] == r
  {
    seq(n, _ => r)
  }

  /** Rows 0..n one after the other, an empty one with the default. */
  function FillEmptyRows<V>(s: Sparse<V>, n: nat, default: V): (t: Sparse<V>)
    requires |s.rows| == |s.values|
    ensures |t.rows| == |t.values|
  {
    if n == 0 then Sparse([], []) else
      var t, row := FillEmptyRows(s, n - 1, default), FilledRow(s, n - 1, default);
      Sparse(t.rows + Repeat(n - 1, |row|), t.values + row)
  }

  /** The empty-row indicator of the filling. */
  predicate RowEmpty<V>(s: Sparse<V>, r: int)
    requires |s.rows| == |s.values|
  {
    RowValues(s, r) == []
  }

  lemma {:induction false} RowValuesAlign<U, V>(s: Sparse<U>, t: Sparse<V>, r: int)
    requires s.rows == t.rows && |s.rows| == |s.values| == |t.values|
    ensures |RowValues(s, r)| == |RowValues(t, r)|
    decreases |s.rows|
  {
    if s.rows != [] {
      var n := |s.rows| - 1;
      RowValuesAlign(Sparse(s.rows[..n], s.values[..n]), Sparse(t.rows[..n], t.values[..n]), r);
    }
  }

  /** Filling ids and weights separately leaves them aligned entry by entry. */
  lemma {:induction false} FillAligns<U, V>(s: Sparse<U>, t: Sparse<V>, n: nat, a: U, b: V)
    requires s.rows == t.rows && |s.rows| == |s.values| == |t.values|
    ensures FillEmptyRows(s, n, a).rows == FillEmptyRows(t, n, b).rows
  {
    if n > 0 {
      FillAligns(s, t, n - 1, a, b);
      RowValuesAlign(s, t, n - 1);
    }
  }

  lemma {:induction false} RetainAligns<U, V>(s: Sparse<U>, t: Sparse<V>, keep: seq<bool>)
    requires s.rows == t.rows && |s.rows| == |s.values| == |t.values| == |keep|
    ensures Retain(s, keep).rows == Retain(t, keep).rows
    decreases |keep|
  {
    if keep != [] {
      var n := |keep| - 1;
      RetainAligns(Sparse(s.rows[..n], s.values[..n]), Sparse(t.rows[..n], t.values[..n]), keep[..n]);
    }
  }

  /** Filled rows are sorted, in range and hit every row, so the row count read off the last one is n. */
  lemma {:induction false} FilledRowsAreComplete<V>(s: Sparse<V>, n: nat, default: V)
    requires |s.rows| == |s.values|
    ensures var rows := FillEmptyRows(s, n, default).rows;
            && Sorted(rows) && InRange(rows, n)
            && (forall r | 0 <= r < n :: r in rows)
            && RowCount(rows) == n
  {
    if n > 0 {
      FilledRowsAreComplete(s, n - 1, default);
      var before := FillEmptyRows(s, n - 1, default).rows;
      var size := |FilledRow(s, n - 1, default)|;
      var rows := FillEmptyRows(s, n, default).rows;
      assert rows == before + Repeat(n - 1, size);
      assert rows[|before|] == n - 1;
      forall r | 0 <= r < n
        ensures r in rows
      {
        if r < n - 1 {
          assert r in before;
        }
      }
    }
  }

  // ---------- reduction ----------

  function Scale(e: seq<real>, ws: seq<real>, d: nat): (s: seq<real>)
    requires |e| == |ws| * d
    ensures |s| == |e|
  {
    seq(|e|, i requires 0 <= i < |e| => CellOf(d, |ws|, i); e[i] * ws[i / d])
  }

  function Squares(ws: seq<real>): (s: seq<real>)
    ensures |s| == |ws|
  {
    seq(|ws|, k requires 0 <= k < |ws| => ws[k] * ws[k])
  }

  /** Combine the weighted segment sums `num`; a segment whose divisor is zero has no number. */
  function WeightedCells(num: seq<real>, d: nat, sqrt: real -> real, ids: seq<int>, ws: seq<real>, rows: nat,
                         combiner: Combiner): (out: seq<Cell>)
    requires |num| == rows * d && |ids| == |ws|
    ensures |out| == rows * d
  {
    seq(rows * d, cell requires 0 <= cell < rows * d =>
      CellOf(d, rows, cell);
      match combiner
      case Sum => Number(num[cell])
      case Mean => Divide(num[cell], UnsortedSegmentSum(ws, ids, rows, 1)[cell / d])
      case Sqrtn => Divide(num[cell], sqrt(UnsortedSegmentSum(Squares(ws), ids, rows, 1)[cell / d])))
  }

  /** Combine the unweighted segment sums `num`; a segment without entries is zero. */
  function UnweightedCells(num: seq<real>, d: nat, sqrt: real -> real, ids: seq<int>, rows: nat,
                           combiner: Combiner): (out: seq<Cell>)
    requires |num| == rows * d
    ensures |out| == rows * d
  {
    seq(rows * d, cell requires 0 <= cell < rows * d =>
      CellOf(d, rows, cell);
      var count := UnsortedSegmentSum(Ones(|ids|), ids, rows, 1)[cell / d];
      match combiner
      case Sum => Number(num[cell])
      case Mean => if count == 0.0 then Number(0.0) else Divide(num[cell], count)
      case Sqrtn => if count == 0.0 then Number(0.0) else Divide(num[cell], sqrt(count)))
  }

  /** Look up each distinct id once, gather (and scale) per entry, and reduce by row. */
  function EmbeddingLookupSparse(emb: int -> seq<real>, d: nat, sqrt: real -> real, spIds: Sparse<int>,
                                 spWeights: Option<seq<real>>, combiner: Combiner): (out: seq<Cell>)
    requires Table(emb, d) && |spIds.rows| == |spIds.values|
    requires spWeights.Some? ==> |spWeights.value| == |spIds.values|
    requires 0 <= RowCount(spIds.rows)
    ensures |out| == RowCount(spIds.rows) * d
  {
    var rows := RowCount(spIds.rows);
    var (u, idx) := Unique(spIds.values);
    var e := Gather(Embed(emb, d, u), d, |u|, idx);
    match spWeights
    case Some(ws) =>
      WeightedCells(UnsortedSegmentSum(Scale(e, ws, d), spIds.rows, rows, d), d, sqrt, spIds.rows, ws, rows, combiner)
    case None =>
      UnweightedCells(UnsortedSegmentSum(e, spIds.rows, rows, d), d, sqrt, spIds.rows, rows, combiner)
  }

  /** The whole lookup over n rows. */
  function SafeEmbeddingLookupSparse(emb: int -> seq<real>, d: nat, sqrt: real -> real, n: nat, ids: Sparse<int>,
                                     weights: Option<Sparse<real>>, combiner: Combiner, defaultId: Option<int>)
    : (out: seq<Cell>)
    requires Table(emb, d) && ids.Valid(n)
    requires weights.Some? ==> weights.value.rows == ids.rows && |weights.value.values| == |ids.values|
    ensures |out| == n * d
  {
    var (spIds, spWeights) := if combiner != Sum then PruneInvalidWeights(ids, weights) else (ids, weights);
    var fill := defaultId.UnwrapOr(0);
    var filled := FillEmptyRows(spIds, n, fill);
    PrunedAligns(ids, weights);
    FilledRowsAreComplete(spIds, n, fill);
    var filledWeights := match spWeights
      case Some(ws) => (FillAligns(spIds, ws, n, fill, 1.0); Some(FillEmptyRows(ws, n, 1.0).values))
      case None => None;
    var result := EmbeddingLookupSparse(emb, d, sqrt, filled, filledWeights, combiner);
    if defaultId.None? then ZeroEmptyRows(result, n, d, spIds) else result
  }

  /** Zero in the rows that were empty before filling. */
  function ZeroEmptyRows(result: seq<Cell>, n: nat, d: nat, s: Sparse<int>): (out: seq<Cell>)
    requires |result| == n * d && |s.rows| == |s.values|
    ensures |out| == n * d
  {
    seq(n * d, cell requires 0 <= cell < n * d =>
      CellOf(d, n, cell);
      if RowEmpty(s, cell / d) then Number(0.0) else result[cell])
  }

  lemma ZeroEmptyRowsAt(result: seq<Cell>, n: nat, d: nat, s: Sparse<int>, r: int, c: int)
    requires |result| == n * d && |s.rows| == |s.values| && 0 <= r < n && 0 <= c < d
    ensures 0 <= r * d + c < n * d
    ensures ZeroEmptyRows(result, n, d, s)[r * d + c] == if RowEmpty(s, r) then Number(0.0) else result[r * d + c]
  {
    CellBound(d, n, r, c);
    CellSplit(d, r, c);
  }

  lemma PrunedAligns(ids: Sparse<int>, weights: Option<Sparse<real>>)
    requires |ids.rows| == |ids.values|
    requires weights.Some? ==> weights.value.rows == ids.rows && |weights.value.values| == |ids.values|
    ensures var (i, w) := PruneInvalidWeights(ids, weights);
            w.Some? == weights.Some? && (w.Some? ==> w.value.rows == i.rows && |w.value.values| == |i.values|)
  {
    if weights.Some? {
      RetainAligns(ids, weights.value, Positive(weights.value.values));
    }
  }
}
