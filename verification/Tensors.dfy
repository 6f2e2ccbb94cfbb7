/** Flat row-major tensors: index arithmetic, gathering and scattering of rows,
    inner products, and the unsorted segment sum that the kernels are measured against. */
module Tensors {

  // ---------- index arithmetic ----------

  lemma RowBound(w: nat, rows: nat, r: int)
    requires 0 <= r < rows
    ensures 0 <= r * w <= r * w + w <= rows * w
  {
    assert (r + 1) * w <= rows * w;
  }

  lemma Distribute(s: int, k: int, w: nat)
    ensures (s + k) * w == s * w + k * w
  {
  }

  lemma CellBound(w: nat, rows: nat, r: int, c: int)
    requires 0 <= r < rows && 0 <= c < w
    ensures 0 <= r * w + c < rows * w
  {
    RowBound(w, rows, r);
  }

  lemma CellSplit(w: nat, r: int, c: int)
    requires 0 <= c < w
    ensures (r * w + c) / w == r && (r * w + c) % w == c
  {
    var q, m := (r * w + c) / w, (r * w + c) % w;
    assert q * w + m == r * w + c;
    assert q < r ==> (q + 1) * w <= r * w;
    assert r < q ==> (r + 1) * w <= q * w;
  }

  lemma CellInjective(w: nat, r: int, c: int, r': int, c': int)
    requires 0 <= c < w && 0 <= c' < w
    requires r * w + c == r' * w + c'
    ensures r == r' && c == c'
  {
    CellSplit(w, r, c);
    CellSplit(w, r', c');
  }

  lemma CellsDiffer(w: nat, r: int, r': int, c: int)
    requires 0 <= c < w && r != r'
    ensures r * w + c != r' * w + c
  {
    CellSplit(w, r, c);
    CellSplit(w, r', c);
  }

  lemma CellOf(w: nat, rows: nat, cell: int)
    requires 0 <= cell < rows * w
    ensures 0 < w && 0 <= cell / w < rows && 0 <= cell % w < w
    ensures cell == cell / w * w + cell % w
  {
    assert w != 0;
    var q := cell / w;
    assert rows <= q ==> rows * w <= q * w;
  }

  // ---------- shapes ----------

  function Product(shape: seq<nat>): nat {
    if shape == [] then 1 else shape[0] * Product(shape[1..])
  }

  lemma {:induction false} ProductConcat(a: seq<nat>, b: seq<nat>)
    ensures Product(a + b) == Product(a) * Product(b)
  {
    if a == [] {
      assert a + b == b;
    } else {
      ProductConcat(a[1..], b);
      assert (a + b)[1..] == a[1..] + b;
      TimesAssociates(a[0], Product(a[1..]), Product(b));
    }
  }

  lemma TimesAssociates(x: nat, y: nat, z: nat)
    ensures x * (y * z) == (x * y) * z
  {
  }

  /** What sizes multiply to: one for no dimension, and a dimension at a time. */
  lemma ProductOf(n: nat, a: seq<nat>, b: seq<nat>)
    ensures Product([]) == 1 && Product([n]) == n && Product(a + b) == Product(a) * Product(b)
  {
    ProductConcat(a, b);
    assert Product([n]) == n * Product([]);
  }

  predicate StartsWith(shape: seq<nat>, prefix: seq<nat>): (starts: bool)
    ensures starts <==> |prefix| <= |shape| && forall i | 0 <= i < |prefix| :: shape[i] == prefix[i]
  {
    prefix <= shape
  }

  /** A dense tensor: its shape and its elements in row-major order. */
  datatype Tensor<T> = Tensor(shape: seq<nat>, flat: seq<T>) {
    predicate Valid() {
      |flat| == Product(shape)
    }
  }

  function Zeros(n: nat): (z: seq<real>)
    ensures |z| == n && forall i | 0 <= i < n :: z[i] == 0.0
  {
    seq(n, _ => 0.0)
  }

  function Ones(n: nat): (u: seq<real>)
    ensures |u| == n && forall i | 0 <= i < n :: u[i] == 1.0
  {
    seq(n, _ => 1.0)
  }

  // ---------- sorted and rising sequences ----------

  ghost predicate Sorted(keys: seq<int>) {
    forall i, j | 0 <= i <= j < |keys| :: keys[i] <= keys[j]
  }

  /** The number of rows sorted ids ask for: one more than the last. */
  function RowCount(ids: seq<int>): int {
    if ids == [] then 0 else ids[|ids| - 1] + 1
  }

  ghost predicate Rising(segs: seq<int>) {
    forall i, j | 0 <= i < j < |segs| :: segs[i] < segs[j]
  }

  lemma RisingSnoc(segs: seq<int>, last: int)
    requires Rising(segs) && forall s | s in segs :: s < last
    ensures Rising(segs + [last])
  {
    forall i | 0 <= i < |segs|
      ensures segs[i] < last
    {
      assert segs[i] in segs;
    }
  }

  /** A rising sequence is determined by its elements. */
  lemma {:induction false} RisingUnique(a: seq<int>, b: seq<int>)
    requires Rising(a) && Rising(b) && forall x :: x in a <==> x in b
    ensures a == b
  {
    var m, n := |a| - 1, |b| - 1;
    if a != [] {
      assert a[m] in a;
    }
    if b != [] {
      assert b[n] in b;
    }
    if a != [] && b != [] {
      assert a[m] == b[n];
      forall x
        ensures x in a[..m] <==> x in b[..n]
      {
        assert x in a <==> x in a[..m] || x == a[m];
        assert x in b <==> x in b[..n] || x == b[n];
      }
      RisingUnique(a[..m], b[..n]);
      assert a == a[..m] + [a[m]] && b == b[..n] + [b[n]];
    }
  }

  // ---------- rows ----------

  function Row<T>(x: seq<T>, w: nat, rows: nat, r: int): (row: seq<T>)
    requires |x| == rows * w && 0 <= r < rows
    ensures |row| == w
  {
    RowBound(w, rows, r);
    x[r * w..r * w + w]
  }

  lemma RowAt<T>(x: seq<T>, w: nat, rows: nat, r: int, c: int)
    requires |x| == rows * w && 0 <= r < rows && 0 <= c < w
    ensures 0 <= r * w + c < |x| && Row(x, w, rows, r)[c] == x[r * w + c]
  {
    CellBound(w, rows, r, c);
    RowBound(w, rows, r);
  }

  function UpTo(n: nat): (s: set<int>)
    ensures forall i :: i in s <==> 0 <= i < n
  {
    if n == 0 then {} else UpTo(n - 1) + {n - 1}
  }

  predicate InRange(idx: seq<int>, rows: nat) {
    forall k | 0 <= k < |idx| :: 0 <= idx[k] < rows
  }

  /** The rows of x named by idx, in that order. */
  function Gather<T>(x: seq<T>, w: nat, rows: nat, idx: seq<int>): (g: seq<T>)
    requires |x| == rows * w && InRange(idx, rows)
    ensures |g| == |idx| * w
  {
    if idx == [] then [] else
      var n := |idx| - 1;
      assert (n + 1) * w == n * w + w;
      Gather(x, w, rows, idx[..n]) + Row(x, w, rows, idx[n])
  }

  lemma {:induction false} GatherAt<T>(x: seq<T>, w: nat, rows: nat, idx: seq<int>, k: int, c: int)
    requires |x| == rows * w && InRange(idx, rows)
    requires 0 <= k < |idx| && 0 <= c < w
    ensures 0 <= k * w + c < |idx| * w && 0 <= idx[k] * w + c < |x|
    ensures Gather(x, w, rows, idx)[k * w + c] == x[idx[k] * w + c]
  {
    CellBound(w, |idx|, k, c);
    CellBound(w, rows, idx[k], c);
    RowBound(w, rows, idx[k]);
    var n := |idx| - 1;
    assert (n + 1) * w == n * w + w;
    var init := Gather(x, w, rows, idx[..n]);
    if k == n {
      assert Gather(x, w, rows, idx)[k * w + c] == Row(x, w, rows, idx[n])[c];
    } else {
      CellBound(w, n, k, c);
      GatherAt(x, w, rows, idx[..n], k, c);
      assert Gather(x, w, rows, idx)[k * w + c] == init[k * w + c];
    }
  }

  lemma {:induction false} GatherConcat<T>(x: seq<T>, w: nat, rows: nat, a: seq<int>, b: seq<int>)
    requires |x| == rows * w && InRange(a, rows) && InRange(b, rows)
    ensures InRange(a + b, rows)
    ensures Gather(x, w, rows, a + b) == Gather(x, w, rows, a) + Gather(x, w, rows, b)
  {
    if b == [] {
      assert a + b == a;
    } else {
      var n := |b| - 1;
      GatherConcat(x, w, rows, a, b[..n]);
      assert (a + b)[..|a + b| - 1] == a + b[..n] && (a + b)[|a + b| - 1] == b[n];
      Reassociate(Gather(x, w, rows, a), Gather(x, w, rows, b[..n]), Row(x, w, rows, b[n]));
    }
  }

  lemma Reassociate<T>(a: seq<T>, b: seq<T>, c: seq<T>)
    ensures a + (b + c) == (a + b) + c
  {
  }

  /** x with the elements from lo on replaced by row. */
  function Splice<T>(x: seq<T>, lo: nat, row: seq<T>): (y: seq<T>)
    requires lo + |row| <= |x|
    ensures |y| == |x|
  {
    x[..lo] + row + x[lo + |row|..]
  }

  lemma SpliceAt<T>(x: seq<T>, lo: nat, row: seq<T>, i: nat)
    requires lo + |row| <= |x| && i < |x|
    ensures Splice(x, lo, row)[i] == if lo <= i < lo + |row| then row[i - lo] else x[i]
  {
  }

  lemma SpliceSame<T>(x: seq<T>, lo: nat, n: nat)
    requires lo + n <= |x|
    ensures Splice(x, lo, x[lo..lo + n]) == x
  {
  }

  /** One more element replaced. */
  lemma SpliceGrows<T>(x: seq<T>, lo: nat, row: seq<T>, k: nat)
    requires k < |row| && lo + |row| <= |x|
    ensures Splice(x, lo, row[..k + 1]) == Splice(x, lo, row[..k])[lo + k := row[k]]
  {
  }

  /** x with row r replaced. */
  function PutRow<T>(x: seq<T>, w: nat, rows: nat, r: int, row: seq<T>): (y: seq<T>)
    requires |x| == rows * w && 0 <= r < rows && |row| == w
    ensures |y| == rows * w
  {
    RowBound(w, rows, r);
    Splice(x, r * w, row)
  }

  lemma PutRowAt<T>(x: seq<T>, w: nat, rows: nat, r: int, row: seq<T>, q: int, c: int)
    requires |x| == rows * w && 0 <= r < rows && |row| == w
    requires 0 <= q < rows && 0 <= c < w
    ensures 0 <= q * w + c < |x|
    ensures PutRow(x, w, rows, r, row)[q * w + c] == if q == r then row[c] else x[q * w + c]
  {
    CellBound(w, rows, q, c);
    RowBound(w, rows, r);
    SpliceAt(x, r * w, row, q * w + c);
    if q < r {
      CellBound(w, r, q, c);
    } else if r < q {
      RowBound(w, q, r);
    }
  }

  /** Copy a slice of src into dst, element by element. */
  method CopySlice<T>(dst: array<T>, base: nat, src: seq<T>, from: nat, w: nat)
    requires base + w <= dst.Length && from + w <= |src|
    modifies dst
    ensures dst[..] == Splice(old(dst[..]), base, src[from..from + w])
  {
    ghost var row := src[from..from + w];
    SpliceSame(dst[..], base, 0);
    assert row[..0] == dst[base..base + 0];
    for k := 0 to w
      invariant dst[..] == Splice(old(dst[..]), base, row[..k])
    {
      SpliceGrows(old(dst[..]), base, row, k);
      dst[base + k] := src[from + k];
    }
    assert row[..w] == row;
  }

  // ---------- inner products ----------

  function Dot(x: seq<real>, y: seq<real>): real
    requires |x| == |y|
  {
    if x == [] then 0.0 else
      var n := |x| - 1;
      Dot(x[..n], y[..n]) + x[n] * y[n]
  }

  lemma {:induction false} DotConcat(a: seq<real>, b: seq<real>, c: seq<real>, d: seq<real>)
    requires |a| == |c| && |b| == |d|
    ensures Dot(a + b, c + d) == Dot(a, c) + Dot(b, d)
  {
    if b == [] {
      assert a + b == a && c + d == c;
    } else {
      var n := |b| - 1;
      DotConcat(a, b[..n], c, d[..n]);
      assert (a + b)[..|a| + n] == a + b[..n];
      assert (c + d)[..|a| + n] == c + d[..n];
    }
  }

  lemma {:induction false} DotSymmetric(x: seq<real>, y: seq<real>)
    requires |x| == |y|
    ensures Dot(x, y) == Dot(y, x)
  {
    if x != [] {
      var n := |x| - 1;
      DotSymmetric(x[..n], y[..n]);
    }
  }

  lemma {:induction false} DotZero(x: seq<real>, y: seq<real>)
    requires |x| == |y| && forall i | 0 <= i < |x| :: x[i] == 0.0
    ensures Dot(x, y) == 0.0
  {
    if x != [] {
      var n := |x| - 1;
      DotZero(x[..n], y[..n]);
    }
  }

  function Plus(a: seq<real>, b: seq<real>): (s: seq<real>)
    requires |a| == |b|
    ensures |s| == |a|
  {
    seq(|a|, i requires 0 <= i < |a| => a[i] + b[i])
  }

  lemma {:induction false} DotPlus(a: seq<real>, b: seq<real>, c: seq<real>)
    requires |a| == |b| == |c|
    ensures Dot(Plus(a, b), c) == Dot(a, c) + Dot(b, c)
  {
    if a != [] {
      var n := |a| - 1;
      DotPlus(a[..n], b[..n], c[..n]);
      assert Plus(a, b)[..n] == Plus(a[..n], b[..n]);
      assert (a[n] + b[n]) * c[n] == a[n] * c[n] + b[n] * c[n];
    }
  }

  /** The inner product with x's middle replaced by row, part by part. */
  lemma DotSplit(x: seq<real>, g: seq<real>, lo: nat, hi: nat, row: seq<real>)
    requires |x| == |g| && lo <= hi <= |x| && |row| == hi - lo
    ensures Dot(x[..lo] + row + x[hi..], g) == Dot(x[..lo], g[..lo]) + Dot(row, g[lo..hi]) + Dot(x[hi..], g[hi..])
  {
    assert g == g[..lo] + g[lo..hi] + g[hi..];
    DotConcat(x[..lo] + row, x[hi..], g[..lo] + g[lo..hi], g[hi..]);
    DotConcat(x[..lo], row, g[..lo], g[lo..hi]);
  }

  /** Replacing x's middle by row changes the inner product by what the middle and row weigh. */
  lemma DotReplace(x: seq<real>, g: seq<real>, lo: nat, hi: nat, row: seq<real>)
    requires |x| == |g| && lo <= hi <= |x| && |row| == hi - lo
    ensures Dot(x[..lo] + row + x[hi..], g) == Dot(x, g) - Dot(x[lo..hi], g[lo..hi]) + Dot(row, g[lo..hi])
  {
    assert x == x[..lo] + x[lo..hi] + x[hi..];
    DotSplit(x, g, lo, hi, x[lo..hi]);
    DotSplit(x, g, lo, hi, row);
  }

  lemma DotSplice(x: seq<real>, g: seq<real>, lo: nat, row: seq<real>)
    requires |x| == |g| && lo + |row| <= |x|
    ensures var hi := lo + |row|;
            Dot(Splice(x, lo, row), g) == Dot(x, g) - Dot(x[lo..hi], g[lo..hi]) + Dot(row, g[lo..hi])
  {
    DotReplace(x, g, lo, lo + |row|, row);
  }

  lemma DotPutRow(x: seq<real>, w: nat, rows: nat, r: int, row: seq<real>, g: seq<real>)
    requires |x| == |g| == rows * w && 0 <= r < rows && |row| == w
    ensures Dot(PutRow(x, w, rows, r, row), g)
         == Dot(x, g) - Dot(Row(x, w, rows, r), Row(g, w, rows, r)) + Dot(row, Row(g, w, rows, r))
  {
    RowBound(w, rows, r);
    DotSplice(x, g, r * w, row);
  }

  // ---------- unsorted segment sum ----------

  /** Sum, over the first `hi` entries with id r, of column c of their value rows. */
  function SegUpTo(ids: seq<int>, vals: seq<real>, w: nat, r: int, c: int, hi: nat): real
    requires |vals| == |ids| * w && 0 <= c < w && hi <= |ids|
  {
    if hi == 0 then 0.0 else
      CellBound(w, |ids|, hi - 1, c);
      SegUpTo(ids, vals, w, r, c, hi - 1) + if ids[hi - 1] == r then vals[(hi - 1) * w + c] else 0.0
  }

  function SegCell(ids: seq<int>, vals: seq<real>, w: nat, rows: nat, cell: int): real
    requires |vals| == |ids| * w && 0 <= cell < rows * w
  {
    CellOf(w, rows, cell);
    SegUpTo(ids, vals, w, cell / w, cell % w, |ids|)
  }

  /** Row r of the result is the sum of the value rows whose id is r; ids outside 0..rows are dropped. */
  function UnsortedSegmentSum(vals: seq<real>, ids: seq<int>, rows: nat, w: nat): (s: seq<real>)
    requires |vals| == |ids| * w
    ensures |s| == rows * w
  {
    seq(rows * w, cell requires 0 <= cell < rows * w => SegCell(ids, vals, w, rows, cell))
  }

  lemma SegmentSumAt(vals: seq<real>, ids: seq<int>, rows: nat, w: nat, r: int, c: int)
    requires |vals| == |ids| * w && 0 <= r < rows && 0 <= c < w
    ensures 0 <= r * w + c < rows * w
    ensures UnsortedSegmentSum(vals, ids, rows, w)[r * w + c] == SegUpTo(ids, vals, w, r, c, |ids|)
  {
    CellBound(w, rows, r, c);
    CellSplit(w, r, c);
  }

  lemma {:induction false} SegUpToPrefix(
      ids: seq<int>, vals: seq<real>, ids': seq<int>, vals': seq<real>, w: nat, r: int, c: int, hi: nat)
    requires |vals| == |ids| * w && |vals'| == |ids'| * w && 0 <= c < w && hi <= |ids| && hi <= |ids'|
    requires ids[..hi] == ids'[..hi]
    requires hi * w <= |vals| && hi * w <= |vals'| && vals[..hi * w] == vals'[..hi * w]
    ensures SegUpTo(ids, vals, w, r, c, hi) == SegUpTo(ids', vals', w, r, c, hi)
  {
    if hi != 0 {
      RowBound(w, hi, hi - 1);
      CellBound(w, hi, hi - 1, c);
      assert ids[hi - 1] == ids[..hi][hi - 1] == ids'[..hi][hi - 1];
      assert vals[(hi - 1) * w + c] == vals[..hi * w][(hi - 1) * w + c] == vals'[..hi * w][(hi - 1) * w + c];
      assert vals[..(hi - 1) * w] == vals[..hi * w][..(hi - 1) * w];
      assert vals'[..(hi - 1) * w] == vals'[..hi * w][..(hi - 1) * w];
      assert ids[..hi - 1] == ids[..hi][..hi - 1];
      assert ids'[..hi - 1] == ids'[..hi][..hi - 1];
      SegUpToPrefix(ids, vals, ids', vals', w, r, c, hi - 1);
    }
  }

  lemma SegUpToSnoc(vals: seq<real>, ids: seq<int>, w: nat, id: int, row: seq<real>, r: int, c: int)
    requires |vals| == |ids| * w && |row| == w && 0 <= c < w
    ensures |vals + row| == |ids + [id]| * w
    ensures SegUpTo(ids + [id], vals + row, w, r, c, |ids| + 1)
         == SegUpTo(ids, vals, w, r, c, |ids|) + if id == r then row[c] else 0.0
  {
    var n := |ids|;
    Distribute(n, 1, w);
    SegUpToPrefix(ids, vals, ids + [id], vals + row, w, r, c, n);
    assert (vals + row)[n * w + c] == row[c];
  }

  lemma SegmentSumSnocAt(vals: seq<real>, ids: seq<int>, rows: nat, w: nat, id: int, row: seq<real>, r: int, c: int)
    requires |vals| == |ids| * w && |row| == w && 0 <= id < rows && 0 <= r < rows && 0 <= c < w
    ensures |vals + row| == |ids + [id]| * w && 0 <= r * w + c < rows * w
    ensures var s := UnsortedSegmentSum(vals, ids, rows, w);
            UnsortedSegmentSum(vals + row, ids + [id], rows, w)[r * w + c]
            == PutRow(s, w, rows, id, Plus(Row(s, w, rows, id), row))[r * w + c]
  {
    var s := UnsortedSegmentSum(vals, ids, rows, w);
    SegUpToSnoc(vals, ids, w, id, row, r, c);
    SegmentSumAt(vals, ids, rows, w, r, c);
    SegmentSumAt(vals + row, ids + [id], rows, w, r, c);
    PutRowAt(s, w, rows, id, Plus(Row(s, w, rows, id), row), r, c);
    RowAt(s, w, rows, id, c);
  }

  /** One more entry adds its row to the row it names. */
  lemma SegmentSumSnoc(vals: seq<real>, ids: seq<int>, rows: nat, w: nat, id: int, row: seq<real>)
    requires |vals| == |ids| * w && |row| == w && 0 <= id < rows
    ensures |vals + row| == |ids + [id]| * w
    ensures var s := UnsortedSegmentSum(vals, ids, rows, w);
            UnsortedSegmentSum(vals + row, ids + [id], rows, w)
            == PutRow(s, w, rows, id, Plus(Row(s, w, rows, id), row))
  {
    Distribute(|ids|, 1, w);
    var s := UnsortedSegmentSum(vals, ids, rows, w);
    var t := UnsortedSegmentSum(vals + row, ids + [id], rows, w);
    var u := PutRow(s, w, rows, id, Plus(Row(s, w, rows, id), row));
    forall cell | 0 <= cell < rows * w
      ensures t[cell] == u[cell]
    {
      CellOf(w, rows, cell);
      SegmentSumSnocAt(vals, ids, rows, w, id, row, cell / w, cell % w);
    }
  }

  /** Scattering rows by id and gathering rows by id are adjoint. */
  lemma {:induction false} ScatterGatherAdjoint(vals: seq<real>, ids: seq<int>, rows: nat, w: nat, g: seq<real>)
    requires |vals| == |ids| * w && InRange(ids, rows) && |g| == rows * w
    ensures Dot(UnsortedSegmentSum(vals, ids, rows, w), g) == Dot(vals, Gather(g, w, rows, ids))
  {
    if ids == [] {
      var s := UnsortedSegmentSum(vals, ids, rows, w);
      forall cell | 0 <= cell < rows * w
        ensures s[cell] == 0.0
      {
        CellOf(w, rows, cell);
      }
      DotZero(s, g);
    } else {
      var n := |ids| - 1;
      assert (n + 1) * w == n * w + w;
      var ids', id, vals', row := ids[..n], ids[n], vals[..n * w], vals[n * w..];
      ScatterGatherAdjoint(vals', ids', rows, w, g);
      var s := UnsortedSegmentSum(vals', ids', rows, w);
      assert vals == vals' + row && ids == ids' + [id];
      SegmentSumSnoc(vals', ids', rows, w, id, row);
      var old' := Row(s, w, rows, id);
      DotPutRow(s, w, rows, id, Plus(old', row), g);
      DotPlus(old', row, Row(g, w, rows, id));
      DotConcat(vals', row, Gather(g, w, rows, ids'), Row(g, w, rows, id));
    }
  }
}
