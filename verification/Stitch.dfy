/** Dynamic stitch: row k of the data goes to the output row that index k names. The serial form is
    the reference (the last row to name an output row wins); the thread-pool, table-driven and fast
    forms are compared with it under every interleaving of their writes. */
module Stitch {
  import opened Tensors
  import opened Interleave

  /** One input, flattened: row k of data goes to row ids[k]. */
  datatype Rows = Rows(ids: seq<int>, data: seq<real>)

  ghost predicate Fits(xs: seq<Rows>, w: nat) {
    forall a | 0 <= a < |xs| :: |xs[a].data| == |xs[a].ids| * w
  }

  ghost predicate IdsInRange(xs: seq<Rows>, rows: nat) {
    forall a | 0 <= a < |xs| :: InRange(xs[a].ids, rows)
  }

  function FlatIds(xs: seq<Rows>): seq<int> {
    if xs == [] then [] else FlatIds(xs[..|xs| - 1]) + xs[|xs| - 1].ids
  }

  function FlatData(xs: seq<Rows>): seq<real> {
    if xs == [] then [] else FlatData(xs[..|xs| - 1]) + xs[|xs| - 1].data
  }

  lemma {:induction false} FlatSize(xs: seq<Rows>, w: nat)
    requires Fits(xs, w)
    ensures |FlatData(xs)| == |FlatIds(xs)| * w
  {
    if xs != [] {
      var n := |xs| - 1;
      FlatSize(xs[..n], w);
      assert (|FlatIds(xs[..n])| + |xs[n].ids|) * w == |FlatIds(xs[..n])| * w + |xs[n].ids| * w;
    }
  }

  /** Flattening puts the inputs one behind the other. */
  lemma {:induction false} FlatConcat(xs: seq<Rows>, ys: seq<Rows>)
    ensures FlatIds(xs + ys) == FlatIds(xs) + FlatIds(ys) && FlatData(xs + ys) == FlatData(xs) + FlatData(ys)
  {
    if ys == [] {
      assert xs + ys == xs;
    } else {
      var n := |ys| - 1;
      FlatConcat(xs, ys[..n]);
      assert (xs + ys)[..|xs| + n] == xs + ys[..n] && (xs + ys)[|xs| + n] == ys[n];
      Reassociate(FlatIds(xs), FlatIds(ys[..n]), ys[n].ids);
      Reassociate(FlatData(xs), FlatData(ys[..n]), ys[n].data);
    }
  }

  lemma FlatSingle(x: Rows)
    ensures FlatIds([x]) == x.ids && FlatData([x]) == x.data && FlatIds([]) == [] && FlatData([]) == []
  {
    assert [x][..0] == [];
  }

  lemma InRangeConcat(a: seq<int>, b: seq<int>, rows: nat)
    ensures InRange(a + b, rows) <==> InRange(a, rows) && InRange(b, rows)
  {
    if InRange(a + b, rows) {
      assert forall k | 0 <= k < |a| :: a[k] == (a + b)[k];
      assert forall k | 0 <= k < |b| :: b[k] == (a + b)[|a| + k];
    }
  }

  lemma IdsInRangeSnoc(xs: seq<Rows>, rows: nat)
    requires xs != []
    ensures IdsInRange(xs, rows) <==> IdsInRange(xs[..|xs| - 1], rows) && InRange(xs[|xs| - 1].ids, rows)
  {
    var n := |xs| - 1;
    if IdsInRange(xs, rows) {
      assert forall a | 0 <= a < n :: xs[..n][a] == xs[a];
    } else {
      var a :| 0 <= a < |xs| && !InRange(xs[a].ids, rows);
      assert a < n ==> xs[..n][a] == xs[a];
    }
  }

  lemma {:induction false} FlatInRange(xs: seq<Rows>, rows: nat)
    ensures IdsInRange(xs, rows) <==> InRange(FlatIds(xs), rows)
  {
    if xs != [] {
      var n := |xs| - 1;
      FlatInRange(xs[..n], rows);
      IdsInRangeSnoc(xs, rows);
      InRangeConcat(FlatIds(xs[..n]), xs[n].ids, rows);
    }
  }

  lemma {:induction false} FlatMember(xs: seq<Rows>, a: nat, k: nat)
    requires a < |xs| && k < |xs[a].ids|
    ensures xs[a].ids[k] in FlatIds(xs)
  {
    var n := |xs| - 1;
    if a < n {
      FlatMember(xs[..n], a, k);
    }
  }

  // ---------- the reference ----------

  /** The last position that names row r, or -1. */
  function LastAt(ids: seq<int>, r: int): (k: int)
    ensures -1 <= k < |ids|
    ensures k >= 0 ==> ids[k] == r
    ensures forall j | k < j < |ids| :: ids[j] != r
  {
    if ids == [] then -1 else
      var n := |ids| - 1;
      if ids[n] == r then n else LastAt(ids[..n], r)
  }

  lemma {:induction false} LastAtConcat(a: seq<int>, b: seq<int>, r: int)
    ensures LastAt(a + b, r) == if LastAt(b, r) >= 0 then |a| + LastAt(b, r) else LastAt(a, r)
  {
    if b == [] {
      assert a + b == a;
    } else {
      var n := |b| - 1;
      LastAtConcat(a, b[..n], r);
      assert (a + b)[..|a| + n] == a + b[..n];
    }
  }

  function StitchCell(init: seq<real>, w: nat, rows: nat, ids: seq<int>, data: seq<real>, cell: int): real
    requires |init| == rows * w && |data| == |ids| * w && 0 <= cell < |init|
  {
    CellOf(w, rows, cell);
    var k := LastAt(ids, cell / w);
    if k < 0 then init[cell] else
      CellBound(w, |ids|, k, cell % w);
      data[k * w + cell % w]
  }

  /** Row r of the result is the data row last named r, or the initial row if there is none. */
  function Stitched(init: seq<real>, w: nat, rows: nat, ids: seq<int>, data: seq<real>): (out: seq<real>)
    requires |init| == rows * w && |data| == |ids| * w
    ensures |out| == |init|
  {
    seq(|init|, cell requires 0 <= cell < |init| => StitchCell(init, w, rows, ids, data, cell))
  }

  lemma StitchedAt(init: seq<real>, w: nat, rows: nat, ids: seq<int>, data: seq<real>, r: int, c: int)
    requires |init| == rows * w && |data| == |ids| * w && 0 <= r < rows && 0 <= c < w
    ensures 0 <= r * w + c < |init|
    ensures var k := LastAt(ids, r);
            if k < 0 then Stitched(init, w, rows, ids, data)[r * w + c] == init[r * w + c]
            else 0 <= k * w + c < |data| && Stitched(init, w, rows, ids, data)[r * w + c] == data[k * w + c]
  {
    CellBound(w, rows, r, c);
    CellSplit(w, r, c);
    var k := LastAt(ids, r);
    if k >= 0 {
      CellBound(w, |ids|, k, c);
    }
  }

  lemma {:induction false} StitchedNothing(init: seq<real>, w: nat, rows: nat)
    requires |init| == rows * w
    ensures Stitched(init, w, rows, [], []) == init
  {
    forall cell | 0 <= cell < |init|
      ensures Stitched(init, w, rows, [], [])[cell] == init[cell]
    {
      CellOf(w, rows, cell);
    }
  }

  lemma SnocFits(data: seq<real>, n: nat, w: nat, row: seq<real>)
    requires |data| == n * w && |row| == w
    ensures |data + row| == (n + 1) * w
  {
  }

  lemma LastAtSnoc(ids: seq<int>, r: int, q: int)
    ensures LastAt(ids + [r], q) == if q == r then |ids| else LastAt(ids, q)
  {
    assert (ids + [r])[..|ids|] == ids;
  }

  lemma StitchedSnocAt(init: seq<real>, w: nat, rows: nat, ids: seq<int>, data: seq<real>, r: int, row: seq<real>,
                       q: int, c: int)
    requires |init| == rows * w && |data| == |ids| * w && 0 <= r < rows && |row| == w
    requires 0 <= q < rows && 0 <= c < w
    ensures |data + row| == |ids + [r]| * w && 0 <= q * w + c < |init|
    ensures Stitched(init, w, rows, ids + [r], data + row)[q * w + c]
         == PutRow(Stitched(init, w, rows, ids, data), w, rows, r, row)[q * w + c]
  {
    SnocFits(data, |ids|, w, row);
    LastAtSnoc(ids, r, q);
    StitchedAt(init, w, rows, ids + [r], data + row, q, c);
    StitchedAt(init, w, rows, ids, data, q, c);
    PutRowAt(Stitched(init, w, rows, ids, data), w, rows, r, row, q, c);
  }

  /** One more data row overwrites the row it names. */
  lemma StitchedSnoc(init: seq<real>, w: nat, rows: nat, ids: seq<int>, data: seq<real>, r: int, row: seq<real>)
    requires |init| == rows * w && |data| == |ids| * w && 0 <= r < rows && |row| == w
    ensures |data + row| == |ids + [r]| * w
    ensures Stitched(init, w, rows, ids + [r], data + row)
         == PutRow(Stitched(init, w, rows, ids, data), w, rows, r, row)
  {
    SnocFits(data, |ids|, w, row);
    var a := Stitched(init, w, rows, ids + [r], data + row);
    var b := PutRow(Stitched(init, w, rows, ids, data), w, rows, r, row);
    forall cell | 0 <= cell < |init|
      ensures a[cell] == b[cell]
    {
      CellOf(w, rows, cell);
      StitchedSnocAt(init, w, rows, ids, data, r, row, cell / w, cell % w);
    }
  }

  // ---------- the writes of one thread that copies rows ----------

  function RowWrites(r: int, row: seq<real>, w: nat): (ws: seq<Write>)
    requires |row| == w
    ensures |ws| == w
  {
    seq(w, c requires 0 <= c < w => Store(r * w + c, row[c]))
  }

  /** Copy the rows one after the other, element by element. */
  function CopyWrites(ids: seq<int>, data: seq<real>, w: nat): seq<Write>
    requires |data| == |ids| * w
  {
    if ids == [] then [] else
      var n := |ids| - 1;
      RowBound(w, |ids|, n);
      CopyWrites(ids[..n], data[..n * w], w) + RowWrites(ids[n], data[n * w..], w)
  }

  lemma RowWritesInBounds(r: int, row: seq<real>, w: nat, rows: nat)
    requires |row| == w && 0 <= r < rows
    ensures InBounds(RowWrites(r, row, w), rows * w)
  {
    forall c | 0 <= c < w
      ensures 0 <= RowWrites(r, row, w)[c].cell < rows * w
    {
      CellBound(w, rows, r, c);
    }
  }

  lemma RunOneMore(mem: seq<real>, ws: seq<Write>, k: nat)
    requires InBounds(ws, |mem|) && k < |ws|
    ensures InBounds(ws[..k], |mem|) && InBounds(ws[..k + 1], |mem|)
    ensures Run(mem, ws[..k + 1]) == Apply(Run(mem, ws[..k]), ws[k])
  {
    assert ws[..k + 1] == ws[..k] + [ws[k]];
    RunSnoc(mem, ws[..k], ws[k]);
  }

  lemma {:induction false} RunRowPrefix(mem: seq<real>, w: nat, lo: nat, r: int, row: seq<real>, k: nat)
    requires lo == r * w && lo + w <= |mem| && |row| == w && k <= w
    requires InBounds(RowWrites(r, row, w), |mem|)
    ensures InBounds(RowWrites(r, row, w)[..k], |mem|)
    ensures Run(mem, RowWrites(r, row, w)[..k]) == Splice(mem, lo, row[..k])
  {
    if k > 0 {
      RunRowPrefix(mem, w, lo, r, row, k - 1);
      RunOneMore(mem, RowWrites(r, row, w), k - 1);
      assert RowWrites(r, row, w)[k - 1] == Store(lo + k - 1, row[k - 1]);
      SpliceGrows(mem, lo, row, k - 1);
    } else {
      SpliceSame(mem, lo, 0);
      assert row[..0] == mem[lo..lo + 0];
    }
  }

  lemma RunRow(mem: seq<real>, w: nat, rows: nat, r: int, row: seq<real>)
    requires |mem| == rows * w && 0 <= r < rows && |row| == w
    ensures InBounds(RowWrites(r, row, w), |mem|)
    ensures Run(mem, RowWrites(r, row, w)) == PutRow(mem, w, rows, r, row)
  {
    RowBound(w, rows, r);
    RowWritesInBounds(r, row, w, rows);
    RunRowPrefix(mem, w, r * w, r, row, w);
    assert RowWrites(r, row, w)[..w] == RowWrites(r, row, w) && row[..w] == row;
  }

  lemma CopyWritesSnoc(ids: seq<int>, data: seq<real>, w: nat, r: int, row: seq<real>)
    requires |data| == |ids| * w && |row| == w
    ensures |data + row| == |ids + [r]| * w
    ensures CopyWrites(ids + [r], data + row, w) == CopyWrites(ids, data, w) + RowWrites(r, row, w)
  {
    SnocFits(data, |ids|, w, row);
    assert (ids + [r])[..|ids|] == ids && (data + row)[..|ids| * w] == data && (data + row)[|ids| * w..] == row;
  }

  lemma RunCopySnoc(mem: seq<real>, w: nat, rows: nat, ids: seq<int>, data: seq<real>, r: int, row: seq<real>)
    requires |mem| == rows * w && |data| == |ids| * w && 0 <= r < rows && |row| == w
    requires InBounds(CopyWrites(ids, data, w), |mem|)
    requires Run(mem, CopyWrites(ids, data, w)) == Stitched(mem, w, rows, ids, data)
    ensures |data + row| == |ids + [r]| * w
    ensures InBounds(CopyWrites(ids + [r], data + row, w), |mem|)
    ensures Run(mem, CopyWrites(ids + [r], data + row, w)) == Stitched(mem, w, rows, ids + [r], data + row)
  {
    CopyWritesSnoc(ids, data, w, r, row);
    RunRow(Run(mem, CopyWrites(ids, data, w)), w, rows, r, row);
    RunConcat(mem, CopyWrites(ids, data, w), RowWrites(r, row, w));
    StitchedSnoc(mem, w, rows, ids, data, r, row);
  }

  /** Alone, such a thread does what the reference says. */
  lemma {:induction false} RunCopy(mem: seq<real>, w: nat, rows: nat, ids: seq<int>, data: seq<real>)
    requires |mem| == rows * w && |data| == |ids| * w && InRange(ids, rows)
    ensures InBounds(CopyWrites(ids, data, w), |mem|)
    ensures Run(mem, CopyWrites(ids, data, w)) == Stitched(mem, w, rows, ids, data)
  {
    if ids == [] {
      StitchedNothing(mem, w, rows);
    } else {
      var n := |ids| - 1;
      LastRow(data, n, w);
      var ids', data', row := ids[..n], data[..n * w], data[n * w..];
      assert ids == ids' + [ids[n]];
      RunCopy(mem, w, rows, ids', data');
      RunCopySnoc(mem, w, rows, ids', data', ids[n], row);
    }
  }

  lemma LastRow(data: seq<real>, n: nat, w: nat)
    requires |data| == (n + 1) * w
    ensures n * w <= |data| && |data[n * w..]| == w && data == data[..n * w] + data[n * w..]
  {
    Distribute(n, 1, w);
  }

  /** A copying thread writes only cells of rows it names. */
  lemma {:induction false} CopyWritesNamed(ids: seq<int>, data: seq<real>, w: nat, i: nat)
    requires |data| == |ids| * w && i < |CopyWrites(ids, data, w)|
    ensures 0 < w && CopyWrites(ids, data, w)[i].cell / w in ids
  {
    var n := |ids| - 1;
    RowBound(w, |ids|, n);
    var before := CopyWrites(ids[..n], data[..n * w], w);
    if i < |before| {
      CopyWritesNamed(ids[..n], data[..n * w], w, i);
    } else {
      CellSplit(w, ids[n], i - |before|);
    }
  }

  // ---------- one thread an input ----------

  ghost function Programs(xs: seq<Rows>, w: nat): (progs: seq<seq<Write>>)
    requires Fits(xs, w)
    ensures |progs| == |xs|
  {
    seq(|xs|, a requires 0 <= a < |xs| => CopyWrites(xs[a].ids, xs[a].data, w))
  }

  lemma ProgramsInBounds(xs: seq<Rows>, w: nat, rows: nat)
    requires Fits(xs, w) && IdsInRange(xs, rows)
    ensures AllInBounds(Programs(xs, w), rows * w)
  {
    forall a | 0 <= a < |xs|
      ensures InBounds(Programs(xs, w)[a], rows * w)
    {
      var zero := seq(rows * w, _ => 0.0);
      RunCopy(zero, w, rows, xs[a].ids, xs[a].data);
    }
  }

  predicate Names(xs: seq<Rows>, a: int, r: int) {
    0 <= a < |xs| && r in xs[a].ids
  }

  /** No row is named by two different inputs; one input may name a row twice. */
  ghost predicate NoSharedRow(xs: seq<Rows>) {
    forall a, b, r | Names(xs, a, r) && Names(xs, b, r) :: a == b
  }

  /** Where input a's data starts in the flattened data. */
  lemma {:induction false} FlatDataAt(xs: seq<Rows>, w: nat, a: nat, m: nat)
    requires Fits(xs, w) && a < |xs| && m < |xs[a].data|
    ensures 0 <= |FlatIds(xs[..a])| * w + m < |FlatData(xs)|
    ensures FlatData(xs)[|FlatIds(xs[..a])| * w + m] == xs[a].data[m]
  {
    var n := |xs| - 1;
    FlatSize(xs[..n], w);
    if a < n {
      assert xs[..n][..a] == xs[..a];
      FlatDataAt(xs[..n], w, a, m);
    }
  }

  /** If no input behind a names r, the last position naming r is a's. */
  lemma {:induction false} FlatLastAt(xs: seq<Rows>, a: nat, r: int)
    requires Names(xs, a, r) && forall b | a < b :: !Names(xs, b, r)
    ensures LastAt(xs[a].ids, r) >= 0
    ensures LastAt(FlatIds(xs), r) == |FlatIds(xs[..a])| + LastAt(xs[a].ids, r)
  {
    var n := |xs| - 1;
    LastAtConcat(FlatIds(xs[..n]), xs[n].ids, r);
    if a < n {
      assert xs[..n][..a] == xs[..a];
      assert !Names(xs, n, r);
      forall b | a < b
        ensures !Names(xs[..n], b, r)
      {
        assert !Names(xs, b, r);
      }
      assert Names(xs[..n], a, r);
      FlatLastAt(xs[..n], a, r);
    }
  }

  lemma FlatRowAt(xs: seq<Rows>, w: nat, a: nat, k: nat, c: int)
    requires Fits(xs, w) && a < |xs| && k < |xs[a].ids| && 0 <= c < w
    ensures var f := |FlatIds(xs[..a])| + k;
            && 0 <= k * w + c < |xs[a].data| && 0 <= f * w + c < |FlatData(xs)|
            && FlatData(xs)[f * w + c] == xs[a].data[k * w + c]
  {
    CellBound(w, |xs[a].ids|, k, c);
    var m := k * w + c;
    FlatDataAt(xs, w, a, m);
    Distribute(|FlatIds(xs[..a])|, k, w);
  }

  /** The serial result in a row whose last namer is input a. */
  lemma SerialRow(xs: seq<Rows>, w: nat, rows: nat, init: seq<real>, a: nat, r: int, c: int)
    requires Fits(xs, w) && |init| == rows * w && |FlatData(xs)| == |FlatIds(xs)| * w
    requires Names(xs, a, r) && forall b | a < b :: !Names(xs, b, r)
    requires 0 <= r < rows && 0 <= c < w
    ensures var k := LastAt(xs[a].ids, r);
            && k >= 0 && 0 <= k * w + c < |xs[a].data| && 0 <= r * w + c < |init|
            && Stitched(init, w, rows, FlatIds(xs), FlatData(xs))[r * w + c] == xs[a].data[k * w + c]
  {
    StitchedAt(init, w, rows, FlatIds(xs), FlatData(xs), r, c);
    FlatLastAt(xs, a, r);
    FlatRowAt(xs, w, a, LastAt(xs[a].ids, r), c);
  }

  lemma {:induction false} FlatAbsent(xs: seq<Rows>, r: int)
    requires forall a :: !Names(xs, a, r)
    ensures LastAt(FlatIds(xs), r) < 0
  {
    if xs != [] {
      var n := |xs| - 1;
      assert !Names(xs, n, r);
      forall a
        ensures !Names(xs[..n], a, r)
      {
        assert !Names(xs, a, r);
      }
      FlatAbsent(xs[..n], r);
      LastAtConcat(FlatIds(xs[..n]), xs[n].ids, r);
    }
  }

  lemma RowIsOwned(xs: seq<Rows>, w: nat, a: nat, r: int, c: int)
    requires Fits(xs, w) && NoSharedRow(xs) && Names(xs, a, r) && 0 <= c < w
    ensures Owns(Programs(xs, w), a, r * w + c)
  {
    var progs: seq<seq<Write>> := Programs(xs, w);
    forall h, i | 0 <= h < |progs| && 0 <= i < |progs[h]| && progs[h][i].cell == r * w + c
      ensures h == a
    {
      CopyWritesNamed(xs[h].ids, xs[h].data, w, i);
      CellSplit(w, r, c);
      assert Names(xs, h, r);
    }
  }

  lemma RowIsUnwritten(xs: seq<Rows>, w: nat, r: int, c: int)
    requires Fits(xs, w) && 0 <= c < w && forall a :: !Names(xs, a, r)
    ensures forall g, i | 0 <= g < |Programs(xs, w)| && 0 <= i < |Programs(xs, w)[g]| ::
              Programs(xs, w)[g][i].cell != r * w + c
  {
    var progs: seq<seq<Write>> := Programs(xs, w);
    forall g, i | 0 <= g < |progs| && 0 <= i < |progs[g]|
      ensures progs[g][i].cell != r * w + c
    {
      CopyWritesNamed(xs[g].ids, xs[g].data, w, i);
      CellSplit(w, r, c);
      assert !Names(xs, g, r);
    }
  }

  lemma OwnedRowCell(xs: seq<Rows>, w: nat, rows: nat, init: seq<real>, trace: seq<Event>, a: nat, r: int, c: int)
    requires Fits(xs, w) && IdsInRange(xs, rows) && NoSharedRow(xs) && |init| == rows * w
    requires Interleaving(trace, Programs(xs, w)) && InBounds(Writes(trace), |init|)
    requires Names(xs, a, r) && 0 <= r < rows && 0 <= c < w
    ensures var k := LastAt(xs[a].ids, r);
            && k >= 0 && 0 <= k * w + c < |xs[a].data| && 0 <= r * w + c < |init|
            && Run(init, Writes(trace))[r * w + c] == xs[a].data[k * w + c]
  {
    ProgramsInBounds(xs, w, rows);
    CellBound(w, rows, r, c);
    RowIsOwned(xs, w, a, r, c);
    OwnedCellIsScheduleIndependent(init, Programs(xs, w), trace, a, r * w + c);
    RunCopy(init, w, rows, xs[a].ids, xs[a].data);
    StitchedAt(init, w, rows, xs[a].ids, xs[a].data, r, c);
  }

  lemma UnwrittenRowCell(xs: seq<Rows>, w: nat, rows: nat, init: seq<real>, trace: seq<Event>, r: int, c: int)
    requires Fits(xs, w) && IdsInRange(xs, rows) && |init| == rows * w
    requires Interleaving(trace, Programs(xs, w)) && InBounds(Writes(trace), |init|)
    requires (forall a :: !Names(xs, a, r)) && 0 <= r < rows && 0 <= c < w
    ensures 0 <= r * w + c < |init|
    ensures Run(init, Writes(trace))[r * w + c] == init[r * w + c]
  {
    ProgramsInBounds(xs, w, rows);
    CellBound(w, rows, r, c);
    RowIsUnwritten(xs, w, r, c);
    UnwrittenCellIsKept(init, Programs(xs, w), trace, r * w + c);
  }

  lemma DisjointCell(xs: seq<Rows>, w: nat, rows: nat, init: seq<real>, trace: seq<Event>, r: int, c: int)
    requires Fits(xs, w) && IdsInRange(xs, rows) && NoSharedRow(xs) && |init| == rows * w
    requires Interleaving(trace, Programs(xs, w)) && InBounds(Writes(trace), |init|)
    requires |FlatData(xs)| == |FlatIds(xs)| * w && 0 <= r < rows && 0 <= c < w
    ensures 0 <= r * w + c < |init|
    ensures Run(init, Writes(trace))[r * w + c] == Stitched(init, w, rows, FlatIds(xs), FlatData(xs))[r * w + c]
  {
    StitchedAt(init, w, rows, FlatIds(xs), FlatData(xs), r, c);
    if a: nat :| Names(xs, a, r) {
      OwnedRowCell(xs, w, rows, init, trace, a, r, c);
      SerialRow(xs, w, rows, init, a, r, c);
    } else {
      UnwrittenRowCell(xs, w, rows, init, trace, r, c);
      FlatAbsent(xs, r);
    }
  }

  /** If no row is named by two inputs, every interleaving of the inputs' element writes gives the serial result. */
  lemma DisjointInputsStitchSerially(xs: seq<Rows>, w: nat, rows: nat, init: seq<real>, trace: seq<Event>)
    requires Fits(xs, w) && IdsInRange(xs, rows) && NoSharedRow(xs) && |init| == rows * w
    requires Interleaving(trace, Programs(xs, w))
    ensures InBounds(Writes(trace), |init|) && |FlatData(xs)| == |FlatIds(xs)| * w
    ensures Run(init, Writes(trace)) == Stitched(init, w, rows, FlatIds(xs), FlatData(xs))
  {
    FlatSize(xs, w);
    ProgramsInBounds(xs, w, rows);
    InterleavingInBounds(trace, Programs(xs, w), |init|);
    var a, b := Run(init, Writes(trace)), Stitched(init, w, rows, FlatIds(xs), FlatData(xs));
    forall cell | 0 <= cell < |init|
      ensures a[cell] == b[cell]
    {
      CellOf(w, rows, cell);
      DisjointCell(xs, w, rows, init, trace, cell / w, cell % w);
    }
  }
}
