/** Exactly when the unordered forms of stitch agree with the serial one. */
module StitchRaces {
  import opened Tensors
  import opened Interleave
  import opened Stitch

  // ---------- a run that keeps one thread for last ----------

  function Tag(g: nat, ws: seq<Write>): (t: seq<Event>)
    ensures |t| == |ws|
  {
    seq(|ws|, i requires 0 <= i < |ws| => Event(g, ws[i]))
  }

  lemma {:induction false} ProjTag(g: nat, ws: seq<Write>, h: nat)
    ensures Proj(Tag(g, ws), h) == if h == g then ws else []
  {
    if ws != [] {
      var n := |ws| - 1;
      ProjTag(g, ws[..n], h);
      assert Tag(g, ws)[..n] == Tag(g, ws[..n]);
    }
  }

  lemma {:induction false} ProjConcat(t: seq<Event>, u: seq<Event>, g: nat)
    ensures Proj(t + u, g) == Proj(t, g) + Proj(u, g)
  {
    if u == [] {
      assert t + u == t;
    } else {
      var n := |u| - 1;
      ProjConcat(t, u[..n], g);
      assert (t + u)[..|t| + n] == t + u[..n];
    }
  }

  /** The first n threads but a, one after the other. */
  function AllBut(progs: seq<seq<Write>>, n: nat, a: nat): seq<Event>
    requires n <= |progs|
  {
    if n == 0 then []
    else if n - 1 == a then AllBut(progs, n - 1, a)
    else AllBut(progs, n - 1, a) + Tag(n - 1, progs[n - 1])
  }

  lemma {:induction false} ProjAllBut(progs: seq<seq<Write>>, n: nat, a: nat, g: nat)
    requires n <= |progs|
    ensures Proj(AllBut(progs, n, a), g) == if g < n && g != a then progs[g] else []
  {
    if n > 0 {
      ProjAllBut(progs, n - 1, a, g);
      if n - 1 != a {
        ProjConcat(AllBut(progs, n - 1, a), Tag(n - 1, progs[n - 1]), g);
        ProjTag(n - 1, progs[n - 1], g);
      }
    }
  }

  lemma {:induction false} AllButThreads(progs: seq<seq<Write>>, n: nat, a: nat)
    requires n <= |progs|
    ensures forall i | 0 <= i < |AllBut(progs, n, a)| :: AllBut(progs, n, a)[i].thread < n
  {
    if n > 0 {
      AllButThreads(progs, n - 1, a);
    }
  }

  function LastRun(progs: seq<seq<Write>>, a: nat): seq<Event>
    requires a < |progs|
  {
    AllBut(progs, |progs|, a) + Tag(a, progs[a])
  }

  lemma LastRunInterleaves(progs: seq<seq<Write>>, a: nat)
    requires a < |progs|
    ensures Interleaving(LastRun(progs, a), progs)
  {
    forall g | 0 <= g < |progs|
      ensures Proj(LastRun(progs, a), g) == progs[g]
    {
      ProjAllBut(progs, |progs|, a, g);
      ProjConcat(AllBut(progs, |progs|, a), Tag(a, progs[a]), g);
      ProjTag(a, progs[a], g);
    }
    AllButThreads(progs, |progs|, a);
  }

  // ---------- the thread-pool form ----------

  ghost predicate SameIds(xs: seq<Rows>, ids: seq<seq<int>>) {
    |xs| == |ids| && forall a | 0 <= a < |xs| :: xs[a].ids == ids[a]
  }

  ghost predicate NoSharedIds(ids: seq<seq<int>>) {
    forall a, b, r | 0 <= a < |ids| && 0 <= b < |ids| && r in ids[a] && r in ids[b] :: a == b
  }

  /** Every run over every initial output gives the serial result. */
  ghost predicate AlwaysSerial(xs: seq<Rows>, w: nat, rows: nat) {
    && Fits(xs, w)
    && IdsInRange(xs, rows)
    && |FlatData(xs)| == |FlatIds(xs)| * w
    && forall init: seq<real>, trace | |init| == rows * w && Interleaving(trace, Programs(xs, w)) ::
         && InBounds(Writes(trace), |init|)
         && Run(init, Writes(trace)) == Stitched(init, w, rows, FlatIds(xs), FlatData(xs))
  }

  /** Input a carries the number a in every element. */
  function Labelled(ids: seq<seq<int>>, w: nat): (xs: seq<Rows>)
    ensures |xs| == |ids|
  {
    seq(|ids|, a requires 0 <= a < |ids| => Rows(ids[a], seq(|ids[a]| * w, _ => a as real)))
  }

  lemma LabelledFits(ids: seq<seq<int>>, w: nat)
    ensures SameIds(Labelled(ids, w), ids) && Fits(Labelled(ids, w), w)
    ensures forall a, m | 0 <= a < |ids| && 0 <= m < |Labelled(ids, w)[a].data| ::
              Labelled(ids, w)[a].data[m] == a as real
  {
  }

  lemma LastNamer(xs: seq<Rows>, r: int, b: nat) returns (q: nat)
    requires Names(xs, b, r)
    ensures b <= q && Names(xs, q, r) && forall d | q < d :: !Names(xs, d, r)
    decreases |xs| - b
  {
    if d :| b < d && Names(xs, d, r) {
      q := LastNamer(xs, r, d);
    } else {
      q := b;
    }
  }

  lemma LastRunSplits(xs: seq<Rows>, w: nat, rows: nat, a: nat)
    requires Fits(xs, w) && IdsInRange(xs, rows) && a < |xs|
    ensures var progs := Programs(xs, w); var others := AllBut(progs, |progs|, a);
            && InBounds(Writes(LastRun(progs, a)), rows * w) && InBounds(Writes(others), rows * w)
            && InBounds(progs[a], rows * w) && Writes(LastRun(progs, a)) == Writes(others) + progs[a]
  {
    var progs := Programs(xs, w);
    var others, trace := AllBut(progs, |progs|, a), LastRun(progs, a);
    LastRunInterleaves(progs, a);
    ProgramsInBounds(xs, w, rows);
    InterleavingInBounds(trace, progs, rows * w);
    assert Writes(trace) == Writes(others) + progs[a];
    forall i | 0 <= i < |others|
      ensures 0 <= Writes(others)[i].cell < rows * w
    {
      assert Writes(others)[i] == Writes(trace)[i];
    }
  }

  /** Whatever was written before, a thread that copies rows leaves its last row for r in row r. */
  lemma RunThenCopy(init: seq<real>, before: seq<Write>, w: nat, rows: nat, ids: seq<int>, data: seq<real>, r: int,
                    c: int)
    requires |init| == rows * w && InBounds(before, |init|) && |data| == |ids| * w && InRange(ids, rows)
    requires r in ids && 0 <= r < rows && 0 <= c < w
    ensures InBounds(before + CopyWrites(ids, data, w), |init|)
    ensures var k := LastAt(ids, r);
            && k >= 0 && 0 <= k * w + c < |data| && 0 <= r * w + c < |init|
            && Run(init, before + CopyWrites(ids, data, w))[r * w + c] == data[k * w + c]
  {
    var mem := Run(init, before);
    RunCopy(mem, w, rows, ids, data);
    RunConcat(init, before, CopyWrites(ids, data, w));
    StitchedAt(mem, w, rows, ids, data, r, c);
  }

  lemma LastRunCell(xs: seq<Rows>, w: nat, rows: nat, init: seq<real>, a: nat, r: int, c: int)
    requires Fits(xs, w) && IdsInRange(xs, rows) && |init| == rows * w
    requires Names(xs, a, r) && 0 <= r < rows && 0 <= c < w
    ensures var trace, k := LastRun(Programs(xs, w), a), LastAt(xs[a].ids, r);
            && InBounds(Writes(trace), |init|) && 0 <= r * w + c < |init|
            && k >= 0 && 0 <= k * w + c < |xs[a].data|
            && Run(init, Writes(trace))[r * w + c] == xs[a].data[k * w + c]
  {
    var progs := Programs(xs, w);
    LastRunSplits(xs, w, rows, a);
    assert InRange(xs[a].ids, rows) && |xs[a].data| == |xs[a].ids| * w;
    assert Writes(LastRun(progs, a)) == Writes(AllBut(progs, |progs|, a)) + CopyWrites(xs[a].ids, xs[a].data, w);
    RunThenCopy(init, Writes(AllBut(progs, |progs|, a)), w, rows, xs[a].ids, xs[a].data, r, c);
  }

  /** Two inputs that name one row race: some data and some run give something else. */
  lemma SharedRowRaces(ids: seq<seq<int>>, w: nat, rows: nat, a: nat, b: nat, r: int)
    requires 0 < w && forall q | 0 <= q < |ids| :: InRange(ids[q], rows)
    requires a < b < |ids| && r in ids[a] && r in ids[b]
    ensures SameIds(Labelled(ids, w), ids) && Fits(Labelled(ids, w), w)
    ensures !AlwaysSerial(Labelled(ids, w), w, rows)
  {
    var xs := Labelled(ids, w);
    LabelledFits(ids, w);
    assert Names(xs, a, r) && Names(xs, b, r);
    var q := LastNamer(xs, r, b);
    assert forall x | 0 <= x < |xs| :: InRange(xs[x].ids, rows);
    RunsDiffer(xs, w, rows, a, q, r);
  }

  /** If input q names r last but input a does so too, keeping a for last puts a's row where q's should be. */
  lemma RunsDiffer(xs: seq<Rows>, w: nat, rows: nat, a: nat, q: nat, r: int)
    requires 0 < w && Fits(xs, w) && IdsInRange(xs, rows) && a < q && Names(xs, a, r) && Names(xs, q, r)
    requires forall d | q < d :: !Names(xs, d, r)
    requires forall m | 0 <= m < |xs[a].data| :: xs[a].data[m] == a as real
    requires forall m | 0 <= m < |xs[q].data| :: xs[q].data[m] == q as real
    ensures !AlwaysSerial(xs, w, rows)
  {
    FlatSize(xs, w);
    assert InRange(xs[a].ids, rows);
    var init := seq(rows * w, _ => 0.0);
    var trace := LastRun(Programs(xs, w), a);
    LastRunInterleaves(Programs(xs, w), a);
    LastRunCell(xs, w, rows, init, a, r, 0);
    SerialRow(xs, w, rows, init, q, r, 0);
    assert a as real != q as real;
    assert Run(init, Writes(trace)) != Stitched(init, w, rows, FlatIds(xs), FlatData(xs));
  }

  ghost predicate Named(xs: seq<Rows>, r: int) {
    exists a :: Names(xs, a, r)
  }

  /** v is element c of the last slice for row r of an input that names r. */
  ghost predicate Leaves(x: Rows, w: nat, r: int, c: int, v: real) {
    && r in x.ids
    && var k := LastAt(x.ids, r); 0 <= k * w + c < |x.data| && x.data[k * w + c] == v
  }

  /** Some input leaves v there. */
  ghost predicate FromANamer(xs: seq<Rows>, w: nat, r: int, c: int, v: real) {
    exists a | 0 <= a < |xs| :: Leaves(xs[a], w, r, c, v)
  }

  /** A copying thread only stores. */
  lemma {:induction false} CopyWritesStore(ids: seq<int>, data: seq<real>, w: nat, i: nat)
    requires |data| == |ids| * w && i < |CopyWrites(ids, data, w)|
    ensures CopyWrites(ids, data, w)[i].Store?
  {
    var n := |ids| - 1;
    RowBound(w, |ids|, n);
    if i < |CopyWrites(ids[..n], data[..n * w], w)| {
      CopyWritesStore(ids[..n], data[..n * w], w, i);
    }
  }

  lemma RunsOnlyStore(xs: seq<Rows>, w: nat, trace: seq<Event>, cell: int)
    requires Fits(xs, w) && Interleaving(trace, Programs(xs, w))
    ensures OnlyStored(Writes(trace), cell)
  {
    forall i | 0 <= i < |trace|
      ensures Writes(trace)[i].Store?
    {
      ProjAt(trace, i);
      var a, pos := trace[i].thread, |Proj(trace[..i], trace[i].thread)|;
      CopyWritesStore(xs[a].ids, xs[a].data, w, pos);
    }
  }

  /** Alone, a thread that names the row leaves its last slice there. */
  lemma NamerAlone(x: Rows, w: nat, rows: nat, init: seq<real>, r: int, c: int)
    requires |init| == rows * w && |x.data| == |x.ids| * w && InRange(x.ids, rows)
    requires r in x.ids && 0 <= r < rows && 0 <= c < w
    ensures InBounds(CopyWrites(x.ids, x.data, w), |init|) && 0 <= r * w + c < |init|
    ensures Leaves(x, w, r, c, Run(init, CopyWrites(x.ids, x.data, w))[r * w + c])
  {
    RunCopy(init, w, rows, x.ids, x.data);
    StitchedAt(init, w, rows, x.ids, x.data, r, c);
  }

  lemma NamerTouches(xs: seq<Rows>, w: nat, a: nat, r: int, c: int)
    requires Fits(xs, w) && a < |xs| && 0 <= c < w && Touches(Programs(xs, w)[a], r * w + c)
    ensures Names(xs, a, r)
  {
    var prog := Programs(xs, w)[a];
    var i: nat :| i < |prog| && prog[i].cell == r * w + c;
    CopyWritesNamed(xs[a].ids, xs[a].data, w, i);
    CellSplit(w, r, c);
  }

  /** In every run, an element of a named row ends as some input that names the row leaves it. */
  lemma EveryRunHoldsANamer(xs: seq<Rows>, w: nat, rows: nat, init: seq<real>, trace: seq<Event>, r: int, c: int)
    requires Fits(xs, w) && IdsInRange(xs, rows) && |init| == rows * w && Interleaving(trace, Programs(xs, w))
    requires Named(xs, r) && 0 <= r < rows && 0 <= c < w
    ensures InBounds(Writes(trace), |init|) && 0 <= r * w + c < |init|
    ensures FromANamer(xs, w, r, c, Run(init, Writes(trace))[r * w + c])
  {
    CellBound(w, rows, r, c);
    ProgramsInBounds(xs, w, rows);
    InterleavingInBounds(trace, Programs(xs, w), |init|);
    var a := DecidingInput(xs, w, rows, init, trace, r, c);
    NamerAlone(xs[a], w, rows, init, r, c);
  }

  /** The input that decides an element: the last to write it or, if none did, any that names its row. */
  lemma DecidingInput(xs: seq<Rows>, w: nat, rows: nat, init: seq<real>, trace: seq<Event>, r: int, c: int)
    returns (a: nat)
    requires Fits(xs, w) && InBounds(Writes(trace), |init|) && AllInBounds(Programs(xs, w), |init|)
    requires 0 <= r * w + c < |init| && Interleaving(trace, Programs(xs, w)) && Named(xs, r) && 0 <= c < w
    ensures Names(xs, a, r) && InBounds(Programs(xs, w)[a], |init|)
    ensures Run(init, Writes(trace))[r * w + c] == Run(init, Programs(xs, w)[a])[r * w + c]
  {
    var progs, cell := Programs(xs, w), r * w + c;
    RunsOnlyStore(xs, w, trace, cell);
    a := LastWriter(init, trace, cell);
    if Touches(Writes(trace), cell) {
      NoOtherThread(trace, progs, a, cell);
      NamerTouches(xs, w, a, r, c);
    } else {
      a :| Names(xs, a, r);
      UntouchedProgram(trace, progs, a, cell);
      RunUntouched(init, Writes(trace), cell);
      RunUntouched(init, progs[a], cell);
    }
  }

  /** Threads beyond the last issue nothing. */
  lemma {:induction false} NoOtherThread(trace: seq<Event>, progs: seq<seq<Write>>, g: nat, cell: int)
    requires (forall i | 0 <= i < |trace| :: trace[i].thread < |progs|) && Touches(Proj(trace, g), cell)
    ensures g < |progs|
  {
    var n := |trace| - 1;
    if trace[n].thread != g {
      NoOtherThread(trace[..n], progs, g, cell);
    }
  }

  lemma UntouchedProgram(trace: seq<Event>, progs: seq<seq<Write>>, a: nat, cell: int)
    requires Interleaving(trace, progs) && a < |progs| && !Touches(Writes(trace), cell)
    ensures forall i | 0 <= i < |progs[a]| :: progs[a][i].cell != cell
  {
    forall i | 0 <= i < |progs[a]|
      ensures progs[a][i].cell != cell
    {
      ProjFrom(trace, a, i);
    }
  }

  /** Every write of a thread's list is issued somewhere in the run. */
  lemma {:induction false} ProjFrom(trace: seq<Event>, g: nat, i: nat)
    requires i < |Proj(trace, g)|
    ensures exists j | 0 <= j < |trace| :: Writes(trace)[j] == Proj(trace, g)[i]
  {
    var n := |trace| - 1;
    if trace[n].thread == g && i == |Proj(trace, g)| - 1 {
      assert Writes(trace)[n] == Proj(trace, g)[i];
    } else {
      ProjFrom(trace[..n], g, i);
      var j :| 0 <= j < n && Writes(trace[..n])[j] == Proj(trace[..n], g)[i];
      assert Writes(trace)[j] == Proj(trace, g)[i];
    }
  }

  /** trace is a run that ends with v in element c of row r. */
  ghost predicate EndsWith(xs: seq<Rows>, w: nat, init: seq<real>, trace: seq<Event>, r: int, c: int, v: real)
    requires Fits(xs, w)
  {
    && Interleaving(trace, Programs(xs, w)) && InBounds(Writes(trace), |init|)
    && 0 <= r * w + c < |init| && Run(init, Writes(trace))[r * w + c] == v
  }

  /** The run that keeps input a for last ends with what a leaves. */
  lemma LeavingRun(xs: seq<Rows>, w: nat, rows: nat, init: seq<real>, a: nat, r: int, c: int, v: real)
    requires Fits(xs, w) && IdsInRange(xs, rows) && |init| == rows * w && 0 <= r < rows && 0 <= c < w
    requires a < |xs| && Leaves(xs[a], w, r, c, v)
    ensures EndsWith(xs, w, init, LastRun(Programs(xs, w), a), r, c, v)
  {
    LastRunInterleaves(Programs(xs, w), a);
    LastRunCell(xs, w, rows, init, a, r, c);
  }

  /** The values an element of a named row can end with are exactly those its namers leave alone. */
  lemma RunValuesExactly(xs: seq<Rows>, w: nat, rows: nat, init: seq<real>, r: int, c: int, v: real)
    requires Fits(xs, w) && IdsInRange(xs, rows) && |init| == rows * w
    requires Named(xs, r) && 0 <= r < rows && 0 <= c < w
    ensures (exists trace :: EndsWith(xs, w, init, trace, r, c, v)) <==> FromANamer(xs, w, r, c, v)
  {
    if trace :| EndsWith(xs, w, init, trace, r, c, v) {
      EveryRunHoldsANamer(xs, w, rows, init, trace, r, c);
    }
    if FromANamer(xs, w, r, c, v) {
      var a: nat :| a < |xs| && Leaves(xs[a], w, r, c, v);
      LeavingRun(xs, w, rows, init, a, r, c, v);
    }
  }

  /** For given index lists: all data and all runs give the serial result exactly when no index is in two lists. */
  lemma ParallelIsSerialExactly(ids: seq<seq<int>>, w: nat, rows: nat)
    requires 0 < w && forall q | 0 <= q < |ids| :: InRange(ids[q], rows)
    ensures NoSharedIds(ids) <==> forall xs | SameIds(xs, ids) && Fits(xs, w) :: AlwaysSerial(xs, w, rows)
  {
    if NoSharedIds(ids) {
      forall xs | SameIds(xs, ids) && Fits(xs, w)
        ensures AlwaysSerial(xs, w, rows)
      {
        FlatSize(xs, w);
        forall a, b, r | Names(xs, a, r) && Names(xs, b, r)
          ensures a == b
        {
          assert r in ids[a] && r in ids[b];
        }
        forall init: seq<real>, trace | |init| == rows * w && Interleaving(trace, Programs(xs, w))
          ensures InBounds(Writes(trace), |init|)
          ensures Run(init, Writes(trace)) == Stitched(init, w, rows, FlatIds(xs), FlatData(xs))
        {
          DisjointInputsStitchSerially(xs, w, rows, init, trace);
        }
      }
    } else {
      var a, b, r :| 0 <= a < |ids| && 0 <= b < |ids| && r in ids[a] && r in ids[b] && a != b;
      if a < b {
        SharedRowRaces(ids, w, rows, a, b, r);
      } else {
        SharedRowRaces(ids, w, rows, b, a, r);
      }
    }
  }

  // ---------- the fast form ----------

  predicate DistinctIds(ids: seq<int>) {
    forall i, j | 0 <= i < j < |ids| :: ids[i] != ids[j]
  }

  predicate Covers(ids: seq<int>, m: nat) {
    forall r | 0 <= r < m :: r in ids
  }

  /** The largest index, or -1 if there is none or all are negative. */
  function MaxIndex(ids: seq<int>): (m: int)
    ensures -1 <= m && (m == -1 || m in ids)
    ensures forall i | 0 <= i < |ids| :: ids[i] <= m
  {
    if ids == [] then -1 else
      var n := |ids| - 1;
      var m := MaxIndex(ids[..n]);
      if m < ids[n] then ids[n] else m
  }

  function Elements(ids: seq<int>): (s: set<int>)
    ensures forall x :: x in s <==> x in ids
  {
    if ids == [] then {} else Elements(ids[..|ids| - 1]) + {ids[|ids| - 1]}
  }

  lemma {:induction false} DistinctSize(ids: seq<int>)
    requires DistinctIds(ids)
    ensures |Elements(ids)| == |ids|
  {
    if ids != [] {
      DistinctSize(ids[..|ids| - 1]);
    }
  }

  lemma {:induction false} CoverSize(s: set<int>, m: nat)
    requires forall x | x in s :: 0 <= x < m
    ensures |s| <= m
    ensures |s| == m <==> forall r | 0 <= r < m :: r in s
  {
    if m == 0 {
      assert forall x :: x !in s;
      assert s == {};
    } else {
      var t := s - {m - 1};
      CoverSize(t, m - 1);
      if m - 1 in s {
        assert s == t + {m - 1};
      } else {
        assert s == t;
      }
    }
  }

  /** Distinct indices below m number at most m, and m exactly when they cover 0..m. */
  lemma Pigeonhole(ids: seq<int>, m: nat)
    requires InRange(ids, m) && DistinctIds(ids)
    ensures |ids| <= m && (|ids| == m <==> Covers(ids, m))
  {
    DistinctSize(ids);
    assert forall x | x in ids :: 0 <= x < m;
    CoverSize(Elements(ids), m);
  }

  /** The fast form sizes its output by the number of indices, the others by the largest. */
  lemma FastSizeExactly(ids: seq<int>)
    requires DistinctIds(ids) && forall i | 0 <= i < |ids| :: 0 <= ids[i]
    ensures |ids| == MaxIndex(ids) + 1 <==> Covers(ids, MaxIndex(ids) + 1)
  {
    Pigeonhole(ids, MaxIndex(ids) + 1);
  }

  /** Every index by itself: one thread of the fast form. */
  function Singles(ids: seq<int>): (s: seq<seq<int>>)
    ensures |s| == |ids|
  {
    seq(|ids|, k requires 0 <= k < |ids| => [ids[k]])
  }

  lemma SinglesShareNothing(ids: seq<int>)
    ensures NoSharedIds(Singles(ids)) <==> DistinctIds(ids)
  {
    if NoSharedIds(Singles(ids)) {
      forall i, j | 0 <= i < j < |ids|
        ensures ids[i] != ids[j]
      {
        assert ids[i] in Singles(ids)[i] && ids[j] in Singles(ids)[j];
      }
    }
    if DistinctIds(ids) {
      forall a, b, r | 0 <= a < |ids| && 0 <= b < |ids| && r in Singles(ids)[a] && r in Singles(ids)[b]
        ensures a == b
      {
        assert r == ids[a] == ids[b];
      }
    }
  }

  /** The fast form has the ordinary size and, for all data and all thread orders, the ordinary
      contents exactly when the indices are distinct and cover 0..max. */
  lemma FastIsOrdinaryExactly(ids: seq<int>, w: nat)
    requires 0 < w && forall i | 0 <= i < |ids| :: 0 <= ids[i]
    ensures (|ids| == MaxIndex(ids) + 1
             && forall xs | SameIds(xs, Singles(ids)) && Fits(xs, w) :: AlwaysSerial(xs, w, |ids|))
       <==> (DistinctIds(ids) && Covers(ids, MaxIndex(ids) + 1))
  {
    if DistinctIds(ids) {
      FastSizeExactly(ids);
    }
    SinglesShareNothing(ids);
    if |ids| == MaxIndex(ids) + 1 {
      assert forall q | 0 <= q < |ids| :: InRange(Singles(ids)[q], |ids|);
      ParallelIsSerialExactly(Singles(ids), w, |ids|);
    }
  }

  /** The indices 0, 0: the fast form has a row too many, and the threads race for the other. */
  lemma RepeatedIndexIsNotOrdinary(w: nat)
    requires 0 < w
    ensures !(|[0, 0]| == MaxIndex([0, 0]) + 1
              && forall xs | SameIds(xs, Singles([0, 0])) && Fits(xs, w) :: AlwaysSerial(xs, w, |[0, 0]|))
  {
    var ids := [0, 0];
    assert ids[0] == ids[1];
    FastIsOrdinaryExactly(ids, w);
  }
}
