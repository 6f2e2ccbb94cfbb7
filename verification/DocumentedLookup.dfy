/** The documentation of the sparse lookup prunes entries of weight zero or less for every combiner; the
    code does not for "sum". When the two agree. */
module DocumentedLookup {
  import opened Wrappers
  import opened Tensors
  import opened Lookup
  import opened LookupSpec

  /** The documented result of "sum" at (r, c). */
  function DocumentedSum(emb: int -> seq<real>, sqrt: real -> real, rows: seq<int>, ids: seq<int>, ws: seq<real>,
                         defaultId: Option<int>, r: int, c: int): Cell
    requires |rows| == |ids| == |ws|
  {
    RowResult(emb, sqrt, rows, ids, ws, Sum, defaultId, true, r, c)
  }

  ghost predicate NoNegative(ws: seq<real>) {
    forall k | 0 <= k < |ws| :: ws[k] >= 0.0
  }

  /** Every row with an entry has one of positive weight. */
  ghost predicate PositiveRows(rows: seq<int>, ws: seq<real>)
    requires |rows| == |ws|
  {
    forall r :: HasKept(rows, ws, false, r) ==> HasKept(rows, ws, true, r)
  }

  function HotRow(d: nat, hot: int, id: int): (row: seq<real>)
    ensures |row| == d && forall c | 0 <= c < d :: row[c] == if id == hot then 1.0 else 0.0
  {
    if id == hot then Ones(d) else Zeros(d)
  }

  /** The table that is one at a single id and zero elsewhere. */
  function OneHot(d: nat, hot: int): int -> seq<real> {
    id => HotRow(d, hot, id)
  }

  lemma OneHotAt(d: nat, hot: int, id: int, c: int)
    requires 0 <= c < d
    ensures Table(OneHot(d, hot), d)
    ensures At(OneHot(d, hot), id, c) == if id == hot then 1.0 else 0.0
  {
    forall x
      ensures |OneHot(d, hot)(x)| == d
    {
      assert OneHot(d, hot)(x) == HotRow(d, hot, x);
    }
    assert OneHot(d, hot)(id) == HotRow(d, hot, id);
  }

  lemma AddNothing(a: real, w: real)
    requires w == 0.0
    ensures a * w == 0.0
  {
  }

  /** Entries of weight zero add nothing. */
  lemma {:induction false} ZerosAddNothing(emb: int -> seq<real>, rows: seq<int>, ids: seq<int>, ws: seq<real>,
                                           r: int, c: int)
    requires |rows| == |ids| == |ws| && NoNegative(ws)
    ensures KeptFold(rows, ids, ws, true, r, Weighted(emb, c)) == KeptFold(rows, ids, ws, false, r, Weighted(emb, c))
  {
    if rows != [] {
      var n := |rows| - 1;
      ZerosAddNothing(emb, rows[..n], ids[..n], ws[..n], r, c);
      if ws[n] == 0.0 {
        AddNothing(At(emb, ids[n], c), ws[n]);
      }
    }
  }

  lemma {:induction false} NothingKept(rows: seq<int>, ids: seq<int>, ws: seq<real>, prune: bool, r: int, t: Term)
    requires |rows| == |ids| == |ws| && !HasKept(rows, ws, prune, r)
    ensures KeptFold(rows, ids, ws, prune, r, t) == 0.0
  {
    if rows != [] {
      var n := |rows| - 1;
      HasKeptSnoc(rows, ws, prune, r);
      NothingKept(rows[..n], ids[..n], ws[..n], prune, r, t);
    }
  }

  /** Pruning never lowers the sum over a table of zeros and ones, and raises it where a negative weight of
      the hot id is pruned. */
  lemma {:induction false} PruningRaises(d: nat, hot: int, rows: seq<int>, ids: seq<int>, ws: seq<real>, r: int)
    requires 0 < d && |rows| == |ids| == |ws|
    ensures var t := Weighted(OneHot(d, hot), 0);
            var pruned, whole := KeptFold(rows, ids, ws, true, r, t), KeptFold(rows, ids, ws, false, r, t);
            && whole <= pruned && 0.0 <= pruned
            && ((exists k | 0 <= k < |rows| :: rows[k] == r && ids[k] == hot && ws[k] < 0.0) ==> whole < pruned)
  {
    if rows != [] {
      var n := |rows| - 1;
      PruningRaises(d, hot, rows[..n], ids[..n], ws[..n], r);
      OneHotAt(d, hot, ids[n], 0);
      if k :| 0 <= k < |rows| && rows[k] == r && ids[k] == hot && ws[k] < 0.0 && k < n {
        assert rows[..n][k] == r && ids[..n][k] == hot && ws[..n][k] < 0.0;
      }
    }
  }

  /** A pruned negative weight: the two results differ for the table that is one at its id. */
  lemma NegativeDiffers(d: nat, sqrt: real -> real, rows: seq<int>, ids: seq<int>, ws: seq<real>,
                        defaultId: Option<int>, k: nat)
    requires 0 < d && |rows| == |ids| == |ws| && k < |ws| && ws[k] < 0.0
    ensures RowSpec(OneHot(d, ids[k]), sqrt, rows, ids, ws, Sum, defaultId, rows[k], 0)
         != DocumentedSum(OneHot(d, ids[k]), sqrt, rows, ids, ws, defaultId, rows[k], 0)
  {
    var emb, r := OneHot(d, ids[k]), rows[k];
    PruningRaises(d, ids[k], rows, ids, ws, r);
    if !HasKept(rows, ws, true, r) {
      NothingKept(rows, ids, ws, true, r, Weighted(emb, 0));
    }
    if defaultId.Some? {
      OneHotAt(d, ids[k], defaultId.value, 0);
    }
  }

  /** A row of zero weights with a default id: the two results differ for the table that is one at the default id. */
  lemma ZeroRowDiffers(d: nat, sqrt: real -> real, rows: seq<int>, ids: seq<int>, ws: seq<real>, id: int, r: int)
    requires 0 < d && |rows| == |ids| == |ws| && NoNegative(ws)
    requires HasKept(rows, ws, false, r) && !HasKept(rows, ws, true, r)
    ensures RowSpec(OneHot(d, id), sqrt, rows, ids, ws, Sum, Some(id), r, 0)
         != DocumentedSum(OneHot(d, id), sqrt, rows, ids, ws, Some(id), r, 0)
  {
    var emb := OneHot(d, id);
    ZerosAddNothing(emb, rows, ids, ws, r, 0);
    NothingKept(rows, ids, ws, true, r, Weighted(emb, 0));
    OneHotAt(d, id, id, 0);
  }

  /** Without negative weights, and with a positive one in every row that has entries or no default id. */
  ghost predicate PruningIsIdle(rows: seq<int>, ws: seq<real>, defaultId: Option<int>)
    requires |rows| == |ws|
  {
    NoNegative(ws) && (defaultId.None? || PositiveRows(rows, ws))
  }

  lemma IdlePruningAgrees(emb: int -> seq<real>, sqrt: real -> real, rows: seq<int>, ids: seq<int>, ws: seq<real>,
                          defaultId: Option<int>, r: int, c: int)
    requires |rows| == |ids| == |ws| && PruningIsIdle(rows, ws, defaultId)
    ensures RowSpec(emb, sqrt, rows, ids, ws, Sum, defaultId, r, c)
         == DocumentedSum(emb, sqrt, rows, ids, ws, defaultId, r, c)
  {
    ZerosAddNothing(emb, rows, ids, ws, r, c);
    if HasKept(rows, ws, true, r) {
      var k :| 0 <= k < |rows| && rows[k] == r && ws[k] > 0.0;
      assert HasKept(rows, ws, false, r);
    } else {
      NothingKept(rows, ids, ws, true, r, Weighted(emb, c));
    }
  }

  /** The code gives the documented "sum" in every element of the result. */
  ghost predicate SumAsDocumented(emb: int -> seq<real>, d: nat, sqrt: real -> real, n: nat, ids: Sparse<int>,
                                  ws: Sparse<real>, defaultId: Option<int>)
    requires Table(emb, d) && ids.Valid(n) && ws.rows == ids.rows && |ws.values| == |ids.values|
  {
    forall r, c | 0 <= r < n && 0 <= c < d ::
      CellBound(d, n, r, c);
      SafeEmbeddingLookupSparse(emb, d, sqrt, n, ids, Some(ws), Sum, defaultId)[r * d + c]
      == DocumentedSum(emb, sqrt, ids.rows, ids.values, ws.values, defaultId, r, c)
  }

  lemma SumAsDocumentedAt(emb: int -> seq<real>, d: nat, sqrt: real -> real, n: nat, ids: Sparse<int>,
                          ws: Sparse<real>, defaultId: Option<int>, r: int, c: int)
    requires Table(emb, d) && SquareRoot(sqrt) && ids.Valid(n) && ws.rows == ids.rows && |ws.values| == |ids.values|
    requires SumAsDocumented(emb, d, sqrt, n, ids, ws, defaultId) && 0 <= r < n && 0 <= c < d
    ensures RowSpec(emb, sqrt, ids.rows, ids.values, ws.values, Sum, defaultId, r, c)
         == DocumentedSum(emb, sqrt, ids.rows, ids.values, ws.values, defaultId, r, c)
  {
    SafeLookupMeetsRowSpec(emb, d, sqrt, n, ids, Some(ws), Sum, defaultId, r, c);
  }

  /** For given entries, "sum" is as documented for all tables exactly when no weight is negative and, if
      there is a default id, every row with an entry has one of positive weight. */
  lemma SumIsAsDocumentedExactly(d: nat, sqrt: real -> real, n: nat, ids: Sparse<int>, ws: Sparse<real>,
                                 defaultId: Option<int>)
    requires 0 < d && SquareRoot(sqrt) && ids.Valid(n) && ws.rows == ids.rows && |ws.values| == |ids.values|
    ensures (forall emb | Table(emb, d) :: SumAsDocumented(emb, d, sqrt, n, ids, ws, defaultId))
       <==> PruningIsIdle(ids.rows, ws.values, defaultId)
  {
    if PruningIsIdle(ids.rows, ws.values, defaultId) {
      forall emb | Table(emb, d)
        ensures SumAsDocumented(emb, d, sqrt, n, ids, ws, defaultId)
      {
        IdleIsDocumented(emb, d, sqrt, n, ids, ws, defaultId);
      }
    } else {
      SomeTableDiffers(d, sqrt, n, ids, ws, defaultId);
    }
  }

  lemma IdleIsDocumented(emb: int -> seq<real>, d: nat, sqrt: real -> real, n: nat, ids: Sparse<int>,
                         ws: Sparse<real>, defaultId: Option<int>)
    requires Table(emb, d) && SquareRoot(sqrt) && ids.Valid(n) && ws.rows == ids.rows && |ws.values| == |ids.values|
    requires PruningIsIdle(ids.rows, ws.values, defaultId)
    ensures SumAsDocumented(emb, d, sqrt, n, ids, ws, defaultId)
  {
    forall r, c | 0 <= r < n && 0 <= c < d
      ensures 0 <= r * d + c < n * d
      ensures SafeEmbeddingLookupSparse(emb, d, sqrt, n, ids, Some(ws), Sum, defaultId)[r * d + c]
           == DocumentedSum(emb, sqrt, ids.rows, ids.values, ws.values, defaultId, r, c)
    {
      SafeLookupMeetsRowSpec(emb, d, sqrt, n, ids, Some(ws), Sum, defaultId, r, c);
      IdlePruningAgrees(emb, sqrt, ids.rows, ids.values, ws.values, defaultId, r, c);
    }
  }

  lemma SomeTableDiffers(d: nat, sqrt: real -> real, n: nat, ids: Sparse<int>, ws: Sparse<real>, defaultId: Option<int>)
    requires 0 < d && SquareRoot(sqrt) && ids.Valid(n) && ws.rows == ids.rows && |ws.values| == |ids.values|
    requires !PruningIsIdle(ids.rows, ws.values, defaultId)
    ensures exists emb :: Table(emb, d) && !SumAsDocumented(emb, d, sqrt, n, ids, ws, defaultId)
  {
    if !NoNegative(ws.values) {
      var k: nat :| k < |ws.values| && ws.values[k] < 0.0;
      var emb := OneHot(d, ids.values[k]);
      OneHotAt(d, ids.values[k], 0, 0);
      NegativeDiffers(d, sqrt, ids.rows, ids.values, ws.values, defaultId, k);
      if SumAsDocumented(emb, d, sqrt, n, ids, ws, defaultId) {
        SumAsDocumentedAt(emb, d, sqrt, n, ids, ws, defaultId, ids.rows[k], 0);
        assert false;
      }
    } else {
      var r :| HasKept(ids.rows, ws.values, false, r) && !HasKept(ids.rows, ws.values, true, r);
      var emb := OneHot(d, defaultId.value);
      OneHotAt(d, defaultId.value, 0, 0);
      ZeroRowDiffers(d, sqrt, ids.rows, ids.values, ws.values, defaultId.value, r);
      if SumAsDocumented(emb, d, sqrt, n, ids, ws, defaultId) {
        SumAsDocumentedAt(emb, d, sqrt, n, ids, ws, defaultId, r, 0);
        assert false;
      }
    }
  }

  lemma OneNegativeEntry(sqrt: real -> real)
    ensures RowSpec(OneHot(1, 7), sqrt, [0], [7], [-1.0], Sum, None, 0, 0) == Number(-1.0)
    ensures DocumentedSum(OneHot(1, 7), sqrt, [0], [7], [-1.0], None, 0, 0) == Number(0.0)
  {
    var emb, rows, ws := OneHot(1, 7), [0], [-1.0];
    OneHotAt(1, 7, 7, 0);
    assert rows[0] == 0;
    assert HasKept(rows, ws, false, 0) && !HasKept(rows, ws, true, 0);
    assert KeptFold(rows, [7], ws, false, 0, Weighted(emb, 0))
        == KeptFold([], [], [], false, 0, Weighted(emb, 0)) + Weighted(emb, 0)(7, -1.0);
  }

  /** One entry of weight minus one: the code gives -1 where the documentation gives 0. */
  lemma NegativeWeightIsKept(sqrt: real -> real)
    requires SquareRoot(sqrt)
    ensures var ids, ws := Sparse([0], [7]), Sparse([0], [-1.0]);
            && Table(OneHot(1, 7), 1)
            && SafeEmbeddingLookupSparse(OneHot(1, 7), 1, sqrt, 1, ids, Some(ws), Sum, None)[0] == Number(-1.0)
            && DocumentedSum(OneHot(1, 7), sqrt, [0], [7], [-1.0], None, 0, 0) == Number(0.0)
  {
    var emb, ids, ws := OneHot(1, 7), Sparse([0], [7]), Sparse([0], [-1.0]);
    OneHotAt(1, 7, 7, 0);
    OneNegativeEntry(sqrt);
    SafeLookupMeetsRowSpec(emb, 1, sqrt, 1, ids, Some(ws), Sum, None, 0, 0);
  }
}
