/** The unweighted "sum" lookup through the segment-sum operator and its tiled kernel. */
module LookupKernel {
  import opened Wrappers
  import opened Tensors
  import opened Interleave
  import opened Lookup
  import opened LookupSpec
  import SegmentSum

  /** What the kernel is launched on after the filling: the distinct embeddings, the inverse index and the
      filled rows. It is what the kernel asks of its caller. */
  ghost function KernelProblem(emb: int -> seq<real>, d: nat, s: Sparse<int>, n: nat,
                               default: int): (p: SegmentSum.Problem)
    requires Table(emb, d) && |s.rows| == |s.values|
    ensures p.Valid() && p.rows == n && forall r | 0 <= r < n :: r in p.ids
  {
    FilledRowsAreComplete(s, n, default);
    var f := FillEmptyRows(s, n, default);
    var (u, idx) := Unique(f.values);
    SegmentSum.Problem(Embed(emb, d, u), |u|, d, idx, f.rows, n, SegmentSum.TILE)
  }

  function Vector(v: seq<int>): (t: Tensor<int>)
    ensures t.Valid()
  {
    assert Product([|v|]) == |v| * Product([]);
    Tensor([|v|], v)
  }

  /** The operator, which reads the row count off the last id, is given what it needs exactly when there
      is a row at all. */
  lemma OperatorIsSuitedExactly(emb: int -> seq<real>, d: nat, s: Sparse<int>, n: nat, default: int)
    requires Table(emb, d) && |s.rows| == |s.values|
    ensures var p := KernelProblem(emb, d, s, n, default);
            var input := Tensor([p.inputRows, d], p.input);
            && (SegmentSum.Suits(input, Vector(p.indices), Vector(p.ids), None) <==> n > 0)
            && (n > 0 ==> SegmentSum.Accepted(input, Vector(p.indices), Vector(p.ids), None)
                          && SegmentSum.OutputRows(p.ids, None) == n)
  {
    FilledRowsAreComplete(s, n, default);
    var p := KernelProblem(emb, d, s, n, default);
    assert [p.inputRows, d][1..] == [d];
    assert Product([d]) == d * Product([]);
    assert n > 0 ==> 0 in p.ids;
  }

  /** A batch of no rows: there is no last id. */
  lemma NoRowsDoNotSuit(emb: int -> seq<real>)
    requires Table(emb, 1)
    ensures var p := KernelProblem(emb, 1, Sparse([], []), 0, 0);
            !SegmentSum.Suits(Tensor([p.inputRows, 1], p.input), Vector(p.indices), Vector(p.ids), None)
  {
    OperatorIsSuitedExactly(emb, 1, Sparse([], []), 0, 0);
  }

  /** One element of the lookup, from what the kernel left. */
  function FinalCell(out: real, s: Sparse<int>, defaultId: Option<int>, r: int): Cell
    requires |s.rows| == |s.values|
  {
    if defaultId.None? && RowEmpty(s, r) then Number(0.0) else Number(out)
  }

  /** Whatever the order in which the stripes run, the unweighted "sum" lookup meets its row-wise specification. */
  lemma EveryRunMeetsRowSpec(emb: int -> seq<real>, d: nat, sqrt: real -> real, n: nat, ids: Sparse<int>,
                             defaultId: Option<int>, zero: seq<real>, trace: seq<Event>, r: int, c: int)
    requires Table(emb, d) && SquareRoot(sqrt) && ids.Valid(n) && 0 <= r < n && 0 <= c < d
    requires |zero| == n * d && forall i | 0 <= i < |zero| :: zero[i] == 0.0
    requires Interleaving(trace, SegmentSum.AllWrites(KernelProblem(emb, d, ids, n, defaultId.UnwrapOr(0))))
    ensures InBounds(Writes(trace), |zero|) && 0 <= r * d + c < n * d
    ensures FinalCell(Run(zero, Writes(trace))[r * d + c], ids, defaultId, r)
         == RowSpec(emb, sqrt, ids.rows, ids.values, Ones(|ids.values|), Sum, defaultId, r, c)
  {
    var fill := defaultId.UnwrapOr(0);
    var p := KernelProblem(emb, d, ids, n, fill);
    SegmentSum.EveryRunIsTheSegmentSum(p, zero, trace);
    CellBound(d, n, r, c);
    var f, ones := FillEmptyRows(ids, n, fill), Sparse(ids.rows, Ones(|ids.rows|));
    DedupLookup(emb, d, f.values);
    UnweightedNumerator(emb, d, f.rows, f.values, n, r, c);
    FilledOnes(ids, n, fill);
    RowFoldFilled(ids, ones, n, fill, f, FillEmptyRows(ones, n, 1.0), r, Weighted(emb, c));
    FilledIsSpec(emb, sqrt, ids, ones, Sum, fill, r, c);
  }
}
