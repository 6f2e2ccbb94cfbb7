/** The tiled sparse segment sum. A stripe is one column of one tile of consecutive entries; it adds
    up runs of equal segment ids and writes each run's sum, with a plain store where it believes it
    is alone and with an atomic add at both ends of its tile. All stripes write one shared output. */
module SegmentSum {
  import opened Wrappers
  import opened Tensors
  import opened Interleave

  datatype Problem = Problem(
    input: seq<real>, inputRows: nat, inner: nat, indices: seq<int>, ids: seq<int>, rows: nat, tile: nat)
  {
    ghost predicate Valid() {
      && |input| == inputRows * inner
      && |indices| == |ids|
      && InRange(indices, inputRows)
      && InRange(ids, rows)
      && Sorted(ids)
      && 0 < tile
    }

    /** Element (k, c) of the gathered input, read where the kernel reads it. */
    function At(k: int, c: int): real
      requires Valid() && 0 <= k < |ids| && 0 <= c < inner
    {
      CellBound(inner, inputRows, indices[k], c);
      input[indices[k] * inner + c]
    }

    ghost function Values(): (v: seq<real>)
      requires Valid()
      ensures |v| == |ids| * inner
    {
      Gather(input, inner, inputRows, indices)
    }

    /** What entries lo..hi contribute to segment s, column c. */
    ghost function Part(lo: nat, hi: nat, s: int, c: int): real
      requires Valid() && lo <= hi <= |ids| && 0 <= c < inner
    {
      SegUpTo(ids, Values(), inner, s, c, hi) - SegUpTo(ids, Values(), inner, s, c, lo)
    }

    function Stripes(): nat
      requires 0 < tile
    {
      inner * ((|ids| + tile - 1) / tile)
    }

    function Low(g: nat): nat
      requires 0 < inner
    {
      g / inner * tile
    }

    function High(g: nat): nat
      requires 0 < inner
    {
      if Low(g) + tile <= |ids| then Low(g) + tile else |ids|
    }
  }

  lemma StripeBounds(p: Problem, g: nat)
    requires p.Valid() && g < p.Stripes()
    ensures 0 < p.inner && p.Low(g) < p.High(g) <= |p.ids|
    ensures 0 <= g % p.inner < p.inner && g == g / p.inner * p.inner + g % p.inner
  {
    var tiles := (|p.ids| + p.tile - 1) / p.tile;
    CellOf(p.inner, tiles, g);
    var t := g / p.inner;
    RowBound(p.tile, tiles, t);
    assert tiles * p.tile <= |p.ids| + p.tile - 1;
    assert (t + 1) * p.tile == t * p.tile + p.tile;
  }

  // ---------- what a stripe writes ----------

  /** The running sum after j entries of the tile that starts at lo. */
  function RunSum(p: Problem, lo: nat, j: nat, c: int): real
    requires p.Valid() && lo + j <= |p.ids| && 0 <= c < p.inner
  {
    if j == 0 then 0.0 else
      (if 1 < j && p.ids[lo + j - 2] < p.ids[lo + j - 1] then 0.0 else RunSum(p, lo, j - 1, c)) + p.At(lo + j - 1, c)
  }

  /** The writes issued while the first j entries are read. */
  function Emitted(p: Problem, lo: nat, j: nat, c: int): seq<Write>
    requires p.Valid() && lo + j <= |p.ids| && 0 <= c < p.inner
  {
    if j <= 1 then [] else
      var last := p.ids[lo + j - 2];
      if last < p.ids[lo + j - 1] then
        var cell, sum := last * p.inner + c, RunSum(p, lo, j - 1, c);
        Emitted(p, lo, j - 1, c) + [if last == p.ids[lo] then AtomicAdd(cell, sum) else Store(cell, sum)]
      else
        Emitted(p, lo, j - 1, c)
  }

  /** The writes of the stripe that reads entries lo..hi of column c. */
  function StripeWrites(p: Problem, lo: nat, hi: nat, c: int): seq<Write>
    requires p.Valid() && lo < hi <= |p.ids| && 0 <= c < p.inner
  {
    Emitted(p, lo, hi - lo, c) + [AtomicAdd(p.ids[hi - 1] * p.inner + c, RunSum(p, lo, hi - lo, c))]
  }

  function StripeProgram(p: Problem, g: nat): seq<Write>
    requires p.Valid() && g < p.Stripes()
  {
    StripeBounds(p, g);
    StripeWrites(p, p.Low(g), p.High(g), g % p.inner)
  }

  ghost function AllWrites(p: Problem): (progs: seq<seq<Write>>)
    requires p.Valid()
    ensures |progs| == p.Stripes()
  {
    seq(p.Stripes(), g requires 0 <= g < p.Stripes() => StripeProgram(p, g))
  }

  /** The loop of one stripe. The segment of the pending sum starts at `rows`, above every id. */
  method RunStripe(p: Problem, g: nat) returns (ws: seq<Write>)
    requires p.Valid() && g < p.Stripes()
    ensures ws == StripeProgram(p, g)
  {
    StripeBounds(p, g);
    var offset := g % p.inner;
    var base := g / p.inner * p.tile;
    var height := if p.tile <= |p.ids| - base then p.tile else |p.ids| - base;
    ws := ReadTile(p, base, height, offset);
  }

  lemma ReadStep(p: Problem, lo: nat, j: nat, c: int)
    requires p.Valid() && lo + j < |p.ids| && 0 <= c < p.inner
    ensures p.ids[lo + j] < p.rows
    ensures var first, last, current, sum :=
              p.ids[lo], if j == 0 then p.rows else p.ids[lo + j - 1], p.ids[lo + j], RunSum(p, lo, j, c);
            && RunSum(p, lo, j + 1, c) == (if last < current then 0.0 else sum) + p.At(lo + j, c)
            && Emitted(p, lo, j + 1, c) == Emitted(p, lo, j, c) +
                 if last < current then
                   [if last == first then AtomicAdd(last * p.inner + c, sum) else Store(last * p.inner + c, sum)]
                 else []
  {
  }

  /** Entry j of a tile: a new segment first writes out the finished one. */
  method ReadEntry(p: Problem, base: nat, j: nat, offset: nat, last: int, sum: real, ws: seq<Write>)
    returns (last': int, sum': real, ws': seq<Write>)
    requires p.Valid() && base + j < |p.ids| && offset < p.inner
    requires last == (if j == 0 then p.rows else p.ids[base + j - 1])
    requires sum == RunSum(p, base, j, offset) && ws == Emitted(p, base, j, offset)
    ensures last' == p.ids[base + j]
    ensures sum' == RunSum(p, base, j + 1, offset) && ws' == Emitted(p, base, j + 1, offset)
  {
    ReadStep(p, base, j, offset);
    var first, current := p.ids[base], p.ids[base + j];
    sum', ws' := sum, ws;
    if last < current {
      var cell := last * p.inner + offset;
      if last == first {
        ws' := ws + [AtomicAdd(cell, sum)];
      } else {
        ws' := ws + [Store(cell, sum)];
      }
      sum' := 0.0;
    }
    sum' := sum' + p.At(base + j, offset);
    last' := current;
  }

  /** Entries base..base + height of column offset, one after the other. */
  method ReadTile(p: Problem, base: nat, height: nat, offset: nat) returns (ws: seq<Write>)
    requires p.Valid() && 0 < height && base + height <= |p.ids| && offset < p.inner
    ensures ws == StripeWrites(p, base, base + height, offset)
  {
    var sum := 0.0;
    var last: int := p.rows;
    ws := [];
    var j := 0;
    while j < height
      invariant 0 <= j <= height
      invariant last == if j == 0 then p.rows else p.ids[base + j - 1]
      invariant sum == RunSum(p, base, j, offset)
      invariant ws == Emitted(p, base, j, offset)
    {
      last, sum, ws := ReadEntry(p, base, j, offset, last, sum, ws);
      j := j + 1;
    }
    ws := ws + [AtomicAdd(last * p.inner + offset, sum)];
  }

  // ---------- one stripe, segment by segment ----------

  lemma PartStep(p: Problem, lo: nat, hi: nat, s: int, c: int)
    requires p.Valid() && lo < hi <= |p.ids| && 0 <= c < p.inner
    ensures p.Part(lo, hi, s, c) == p.Part(lo, hi - 1, s, c) + if p.ids[hi - 1] == s then p.At(hi - 1, c) else 0.0
  {
    GatherAt(p.input, p.inner, p.inputRows, p.indices, hi - 1, c);
  }

  lemma {:induction false} PartAbsent(p: Problem, lo: nat, hi: nat, s: int, c: int)
    requires p.Valid() && lo <= hi <= |p.ids| && 0 <= c < p.inner
    requires forall k | lo <= k < hi :: p.ids[k] != s
    ensures p.Part(lo, hi, s, c) == 0.0
  {
    if lo < hi {
      PartStep(p, lo, hi, s, c);
      PartAbsent(p, lo, hi - 1, s, c);
    }
  }

  lemma {:induction false} RunSumIsPart(p: Problem, lo: nat, j: nat, c: int)
    requires p.Valid() && 0 < j && lo + j <= |p.ids| && 0 <= c < p.inner
    ensures RunSum(p, lo, j, c) == p.Part(lo, lo + j, p.ids[lo + j - 1], c)
  {
    var s := p.ids[lo + j - 1];
    PartStep(p, lo, lo + j, s, c);
    if j == 1 {
      assert RunSum(p, lo, 0, c) == 0.0;
    } else if p.ids[lo + j - 2] < s {
      PartAbsent(p, lo, lo + j - 1, s, c);
    } else {
      RunSumIsPart(p, lo, j - 1, c);
    }
  }

  /** The segments of the emitted writes, in order. */
  function EmittedSegs(p: Problem, lo: nat, j: nat): seq<int>
    requires p.Valid() && lo + j <= |p.ids|
  {
    if j <= 1 then [] else
      var last := p.ids[lo + j - 2];
      if last < p.ids[lo + j - 1] then EmittedSegs(p, lo, j - 1) + [last] else EmittedSegs(p, lo, j - 1)
  }

  function StripeSegs(p: Problem, lo: nat, hi: nat): seq<int>
    requires p.Valid() && lo < hi <= |p.ids|
  {
    EmittedSegs(p, lo, hi - lo) + [p.ids[hi - 1]]
  }

  /** Write i goes to column c of segment segs[i]; the segments rise. */
  ghost predicate Shaped(ws: seq<Write>, segs: seq<int>, w: nat, c: int) {
    && |ws| == |segs|
    && (forall i | 0 <= i < |ws| :: ws[i].cell == segs[i] * w + c)
    && Rising(segs)
  }

  ghost predicate FoundIn(segs: seq<int>, ids: seq<int>) {
    forall s | s in segs :: s in ids
  }

  /** The segments emitted so far rise, come from the entries read, and precede the current one. */
  lemma {:induction false} EmittedSegsRise(p: Problem, lo: nat, j: nat)
    requires p.Valid() && 0 < j && lo + j <= |p.ids|
    ensures Rising(EmittedSegs(p, lo, j)) && FoundIn(EmittedSegs(p, lo, j), p.ids[lo..lo + j])
    ensures forall s | s in EmittedSegs(p, lo, j) :: p.ids[lo] <= s < p.ids[lo + j - 1]
  {
    if 1 < j {
      EmittedSegsRise(p, lo, j - 1);
      assert p.ids[lo..lo + j] == p.ids[lo..lo + j - 1] + [p.ids[lo + j - 1]];
      assert p.ids[lo + j - 2] == p.ids[lo..lo + j][j - 2];
      RisingSnoc(EmittedSegs(p, lo, j - 1), p.ids[lo + j - 2]);
    }
  }

  lemma {:induction false} EmittedCells(p: Problem, lo: nat, j: nat, c: int)
    requires p.Valid() && lo + j <= |p.ids| && 0 <= c < p.inner
    ensures var e, segs := Emitted(p, lo, j, c), EmittedSegs(p, lo, j);
            && |e| == |segs|
            && (forall i | 0 <= i < |e| :: e[i].cell == segs[i] * p.inner + c)
            && (forall i | 0 <= i < |e| :: e[i].AtomicAdd? <==> segs[i] == p.ids[lo])
  {
    if 1 < j {
      EmittedCells(p, lo, j - 1, c);
    }
  }

  lemma StripeWriteAt(p: Problem, lo: nat, hi: nat, c: int, i: int)
    requires p.Valid() && lo < hi <= |p.ids| && 0 <= c < p.inner && 0 <= i < |StripeSegs(p, lo, hi)|
    ensures var ws, seg := StripeWrites(p, lo, hi, c), StripeSegs(p, lo, hi)[i];
            i < |ws| && ws[i].cell == seg * p.inner + c && (ws[i].Store? <==> p.ids[lo] < seg < p.ids[hi - 1])
  {
    var d := EmittedSegs(p, lo, hi - lo);
    EmittedCells(p, lo, hi - lo, c);
    EmittedSegsRise(p, lo, hi - lo);
    if i < |d| {
      assert d[i] in d;
    }
  }

  /** A stripe's writes: in its own column, one for each of certain segments of its tile, rising;
      a plain store exactly where the segment is neither the tile's first nor its last. */
  lemma StripeShape(p: Problem, lo: nat, hi: nat, c: int)
    requires p.Valid() && lo < hi <= |p.ids| && 0 <= c < p.inner
    ensures var ws, segs := StripeWrites(p, lo, hi, c), StripeSegs(p, lo, hi);
            && Shaped(ws, segs, p.inner, c)
            && (forall i | 0 <= i < |ws| :: ws[i].Store? <==> p.ids[lo] < segs[i] < p.ids[hi - 1])
    ensures FoundIn(StripeSegs(p, lo, hi), p.ids[lo..hi])
  {
    EmittedSegsRise(p, lo, hi - lo);
    RisingSnoc(EmittedSegs(p, lo, hi - lo), p.ids[hi - 1]);
    assert p.ids[hi - 1] == p.ids[lo..hi][hi - lo - 1];
    var ws, segs := StripeWrites(p, lo, hi, c), StripeSegs(p, lo, hi);
    forall i | 0 <= i < |segs|
      ensures i < |ws| && ws[i].cell == segs[i] * p.inner + c
      ensures ws[i].Store? <==> p.ids[lo] < segs[i] < p.ids[hi - 1]
    {
      StripeWriteAt(p, lo, hi, c, i);
    }
    EmittedCells(p, lo, hi - lo, c);
  }

  /** The write issued when a new segment begins brings the finished segment's total to what it should be. */
  lemma EmittedTotalNew(p: Problem, lo: nat, j: nat, s: int, c: int)
    requires p.Valid() && 1 < j && lo + j <= |p.ids| && 0 <= c < p.inner
    requires p.ids[lo + j - 2] < p.ids[lo + j - 1]
    requires Total(Emitted(p, lo, j - 1, c), s * p.inner + c)
          == if s < p.ids[lo + j - 2] then p.Part(lo, lo + j - 1, s, c) else 0.0
    ensures Total(Emitted(p, lo, j, c), s * p.inner + c)
         == if s < p.ids[lo + j - 1] then p.Part(lo, lo + j - 1, s, c) else 0.0
  {
    var last := p.ids[lo + j - 2];
    var d, w := Emitted(p, lo, j - 1, c), LastEmitted(p, lo, j, c);
    TotalSnoc(d, w, s * p.inner + c);
    if s == last {
      RunSumIsPart(p, lo, j - 1, c);
    } else {
      CellsDiffer(p.inner, s, last, c);
      if last < s < p.ids[lo + j - 1] {
        PartAbsent(p, lo, lo + j - 1, s, c);
      }
    }
  }

  /** The write issued on reading entry j of the tile, which begins a new segment. */
  function LastEmitted(p: Problem, lo: nat, j: nat, c: int): (w: Write)
    requires p.Valid() && 1 < j && lo + j <= |p.ids| && 0 <= c < p.inner
    requires p.ids[lo + j - 2] < p.ids[lo + j - 1]
    ensures Emitted(p, lo, j, c) == Emitted(p, lo, j - 1, c) + [w]
    ensures w.cell == p.ids[lo + j - 2] * p.inner + c && w.value == RunSum(p, lo, j - 1, c)
  {
    var last := p.ids[lo + j - 2];
    var cell, sum := last * p.inner + c, RunSum(p, lo, j - 1, c);
    if last == p.ids[lo] then AtomicAdd(cell, sum) else Store(cell, sum)
  }

  /** For every segment already passed, the emitted writes total what the entries hold for it. */
  lemma {:induction false} EmittedTotal(p: Problem, lo: nat, j: nat, s: int, c: int)
    requires p.Valid() && 0 < j && lo + j <= |p.ids| && 0 <= c < p.inner
    ensures Total(Emitted(p, lo, j, c), s * p.inner + c)
         == if s < p.ids[lo + j - 1] then p.Part(lo, lo + j, s, c) else 0.0
  {
    if j == 1 {
      if s < p.ids[lo] {
        PartAbsent(p, lo, lo + 1, s, c);
      }
    } else {
      EmittedTotal(p, lo, j - 1, s, c);
      PartStep(p, lo, lo + j, s, c);
      if p.ids[lo + j - 2] < p.ids[lo + j - 1] {
        EmittedTotalNew(p, lo, j, s, c);
      }
    }
  }

  /** A stripe's writes to its column of segment s total exactly what its entries hold for s. */
  lemma StripeTotal(p: Problem, lo: nat, hi: nat, s: int, c: int)
    requires p.Valid() && lo < hi <= |p.ids| && 0 <= c < p.inner
    ensures Total(StripeWrites(p, lo, hi, c), s * p.inner + c) == p.Part(lo, hi, s, c)
  {
    var ws := StripeWrites(p, lo, hi, c);
    assert ws[..|ws| - 1] == Emitted(p, lo, hi - lo, c);
    EmittedTotal(p, lo, hi - lo, s, c);
    RunSumIsPart(p, lo, hi - lo, c);
    if s != p.ids[hi - 1] {
      CellsDiffer(p.inner, s, p.ids[hi - 1], c);
    }
    if p.ids[hi - 1] < s {
      PartAbsent(p, lo, hi, s, c);
    }
  }

  lemma OtherColumnTotal(p: Problem, lo: nat, hi: nat, c: int, s: int, c': int)
    requires p.Valid() && lo < hi <= |p.ids| && 0 <= c < p.inner && 0 <= c' < p.inner && c != c'
    ensures Total(StripeWrites(p, lo, hi, c), s * p.inner + c') == 0.0
  {
    var ws, segs := StripeWrites(p, lo, hi, c), StripeSegs(p, lo, hi);
    StripeShape(p, lo, hi, c);
    forall i | 0 <= i < |ws|
      ensures ws[i].cell != s * p.inner + c'
    {
      CellSplit(p.inner, s, c');
      CellSplit(p.inner, segs[i], c);
    }
    TotalUntouched(ws, s * p.inner + c');
  }

  // ---------- all stripes ----------

  /** A segment found strictly between a tile's first and last ids is found in no other tile. */
  lemma InteriorStaysInTile(p: Problem, lo: nat, hi: nat, k: nat)
    requires p.Valid() && lo < hi <= |p.ids| && k < |p.ids|
    requires p.ids[lo] < p.ids[k] < p.ids[hi - 1]
    ensures lo < k < hi - 1
  {
  }

  lemma SameStripe(p: Problem, g: nat, h: nat, k: nat)
    requires p.Valid() && g < p.Stripes() && h < p.Stripes()
    requires 0 < p.inner && g % p.inner == h % p.inner
    requires p.Low(g) <= k < p.High(g) && p.Low(h) <= k < p.High(h)
    ensures g == h
  {
    StripeBounds(p, g);
    StripeBounds(p, h);
    var t, u := g / p.inner, h / p.inner;
    CellSplit(p.tile, t, k - t * p.tile);
    CellSplit(p.tile, u, k - u * p.tile);
  }

  /** A plain store of stripe g shares its cell with no other write of any stripe. */
  lemma StoreIsExclusive(p: Problem, g: nat, i: nat, h: nat, j: nat)
    requires p.Valid() && g < p.Stripes() && h < p.Stripes()
    requires i < |StripeProgram(p, g)| && j < |StripeProgram(p, h)|
    requires StripeProgram(p, g)[i].Store? && StripeProgram(p, h)[j].cell == StripeProgram(p, g)[i].cell
    ensures g == h && i == j
  {
    StripeBounds(p, g);
    StripeBounds(p, h);
    var lo, hi, lo', hi' := p.Low(g), p.High(g), p.Low(h), p.High(h);
    StripeShape(p, lo, hi, g % p.inner);
    StripeShape(p, lo', hi', h % p.inner);
    var s, s' := StripeSegs(p, lo, hi)[i], StripeSegs(p, lo', hi')[j];
    CellInjective(p.inner, s, g % p.inner, s', h % p.inner);
    assert s' in p.ids[lo'..hi'];
    var k :| lo' <= k < hi' && p.ids[k] == s;
    InteriorStaysInTile(p, lo, hi, k);
    SameStripe(p, g, h, k);
  }

  lemma StoresAreExclusive(p: Problem)
    requires p.Valid()
    ensures Exclusive(AllWrites(p))
  {
    var progs: seq<seq<Write>> := AllWrites(p);
    forall g, i, h, j |
      0 <= g < |progs| && 0 <= i < |progs[g]| && 0 <= h < |progs| && 0 <= j < |progs[h]|
      && progs[g][i].Store? && progs[h][j].cell == progs[g][i].cell
      ensures g == h && i == j
    {
      StoreIsExclusive(p, g, i, h, j);
    }
  }

  lemma StripeInBounds(p: Problem, lo: nat, hi: nat, c: int)
    requires p.Valid() && lo < hi <= |p.ids| && 0 <= c < p.inner
    ensures InBounds(StripeWrites(p, lo, hi, c), p.rows * p.inner)
  {
    var ws, segs := StripeWrites(p, lo, hi, c), StripeSegs(p, lo, hi);
    StripeShape(p, lo, hi, c);
    forall i | 0 <= i < |ws|
      ensures 0 <= ws[i].cell < p.rows * p.inner
    {
      assert segs[i] in p.ids[lo..hi];
      CellBound(p.inner, p.rows, segs[i], c);
    }
  }

  lemma WritesInBounds(p: Problem)
    requires p.Valid()
    ensures AllInBounds(AllWrites(p), p.rows * p.inner)
  {
    forall g | 0 <= g < p.Stripes()
      ensures InBounds(AllWrites(p)[g], p.rows * p.inner)
    {
      StripeBounds(p, g);
      StripeInBounds(p, p.Low(g), p.High(g), g % p.inner);
    }
  }

  /** How many entries the first g stripes have covered in column c. */
  function Covered(p: Problem, g: nat, c: int): nat
    requires 0 < p.inner
  {
    var k := (g / p.inner + if c < g % p.inner then 1 else 0) * p.tile;
    if k <= |p.ids| then k else |p.ids|
  }

  lemma CoveredStep(p: Problem, g: nat, c: int)
    requires p.Valid() && g < p.Stripes() && 0 <= c < p.inner
    ensures if g % p.inner == c then Covered(p, g, c) == p.Low(g) && Covered(p, g + 1, c) == p.High(g)
            else Covered(p, g + 1, c) == Covered(p, g, c)
  {
    StripeBounds(p, g);
    var t, col := g / p.inner, g % p.inner;
    assert (t + 1) * p.inner == t * p.inner + p.inner;
    assert (t + 1) * p.tile == t * p.tile + p.tile;
    if col + 1 < p.inner {
      CellSplit(p.inner, t, col + 1);
    } else {
      CellSplit(p.inner, t + 1, 0);
    }
  }

  /** Stripe g writes to (s, c) just what it newly covers there. */
  lemma StripeAdvances(p: Problem, g: nat, s: int, c: int)
    requires p.Valid() && g < p.Stripes() && 0 <= c < p.inner
    ensures Total(StripeProgram(p, g), s * p.inner + c)
         == p.Part(0, Covered(p, g + 1, c), s, c) - p.Part(0, Covered(p, g, c), s, c)
  {
    StripeBounds(p, g);
    CoveredStep(p, g, c);
    if g % p.inner == c {
      StripeTotal(p, p.Low(g), p.High(g), s, c);
    } else {
      OtherColumnTotal(p, p.Low(g), p.High(g), g % p.inner, s, c);
    }
  }

  lemma AllCovered(p: Problem, c: int)
    requires p.Valid() && 0 <= c < p.inner
    ensures Covered(p, p.Stripes(), c) == |p.ids|
  {
    var tiles := (|p.ids| + p.tile - 1) / p.tile;
    assert p.Stripes() == tiles * p.inner + 0;
    CellSplit(p.inner, tiles, 0);
    CeilCovers(|p.ids|, p.tile);
  }

  lemma CeilCovers(n: nat, tile: nat)
    requires 0 < tile
    ensures n <= (n + tile - 1) / tile * tile
  {
    var q, r := (n + tile - 1) / tile, (n + tile - 1) % tile;
    assert q * tile + r == n + tile - 1;
  }

  lemma NothingCovered(p: Problem, c: int)
    requires p.Valid() && 0 <= c < p.inner
    ensures Covered(p, 0, c) == 0
  {
    CellSplit(p.inner, 0, 0);
  }

  /** What the first g stripes have covered holds for (s, c). */
  ghost function CoveredPart(p: Problem, g: nat, s: int, c: int): real
    requires p.Valid() && 0 <= c < p.inner
  {
    p.Part(0, Covered(p, g, c), s, c)
  }

  lemma CoveredEnds(p: Problem, s: int, c: int)
    requires p.Valid() && 0 <= c < p.inner
    ensures CoveredPart(p, 0, s, c) == 0.0 && CoveredPart(p, p.Stripes(), s, c) == p.Part(0, |p.ids|, s, c)
  {
    NothingCovered(p, c);
    AllCovered(p, c);
  }

  lemma StripeStep(p: Problem, g: nat, s: int, c: int)
    requires p.Valid() && g < p.Stripes() && 0 <= c < p.inner
    ensures Total(AllWrites(p)[g], s * p.inner + c) == CoveredPart(p, g + 1, s, c) - CoveredPart(p, g, s, c)
  {
    StripeAdvances(p, g, s, c);
    assert AllWrites(p)[g] == StripeProgram(p, g);
  }

  /** Stripe by stripe, what is covered. */
  lemma CoveredParts(p: Problem, s: int, c: int) returns (f: seq<real>)
    requires p.Valid() && 0 <= c < p.inner
    ensures |f| == p.Stripes() + 1
    ensures forall g | 0 <= g < p.Stripes() :: Total(AllWrites(p)[g], s * p.inner + c) == f[g + 1] - f[g]
    ensures f[0] == 0.0 && f[p.Stripes()] == p.Part(0, |p.ids|, s, c)
  {
    f := seq(p.Stripes() + 1, g requires 0 <= g < p.Stripes() + 1 => CoveredPart(p, g, s, c));
    forall g | 0 <= g < p.Stripes()
      ensures Total(AllWrites(p)[g], s * p.inner + c) == f[g + 1] - f[g]
    {
      StripeStep(p, g, s, c);
    }
    CoveredEnds(p, s, c);
  }

  /** The whole grid writes to (s, c) the sum over all entries. */
  lemma GridTotal(p: Problem, s: int, c: int)
    requires p.Valid() && 0 <= c < p.inner
    ensures TotalOf(AllWrites(p), p.Stripes(), s * p.inner + c) == p.Part(0, |p.ids|, s, c)
  {
    var f := CoveredParts(p, s, c);
    TotalOfTelescopes(AllWrites(p), p.Stripes(), s * p.inner + c, f);
  }

  // ---------- main results ----------

  lemma RunAtCell(p: Problem, zero: seq<real>, trace: seq<Event>, s: int, c: int)
    requires p.Valid() && |zero| == p.rows * p.inner && forall i | 0 <= i < |zero| :: zero[i] == 0.0
    requires Interleaving(trace, AllWrites(p)) && InBounds(Writes(trace), |zero|)
    requires 0 <= s < p.rows && 0 <= c < p.inner
    ensures 0 <= s * p.inner + c < |zero|
    ensures Run(zero, Writes(trace))[s * p.inner + c]
         == UnsortedSegmentSum(p.Values(), p.ids, p.rows, p.inner)[s * p.inner + c]
  {
    WritesInBounds(p);
    StoresAreExclusive(p);
    CellBound(p.inner, p.rows, s, c);
    EveryRunSums(zero, AllWrites(p), trace, s * p.inner + c);
    GridTotal(p, s, c);
    SegmentSumAt(p.Values(), p.ids, p.rows, p.inner, s, c);
  }

  /** Every interleaving of all stripes over a zeroed output leaves the segment sums there. */
  lemma EveryRunIsTheSegmentSum(p: Problem, zero: seq<real>, trace: seq<Event>)
    requires p.Valid() && |zero| == p.rows * p.inner && forall i | 0 <= i < |zero| :: zero[i] == 0.0
    requires Interleaving(trace, AllWrites(p))
    ensures InBounds(Writes(trace), |zero|)
    ensures Run(zero, Writes(trace))
         == UnsortedSegmentSum(Gather(p.input, p.inner, p.inputRows, p.indices), p.ids, p.rows, p.inner)
  {
    WritesInBounds(p);
    InterleavingInBounds(trace, AllWrites(p), |zero|);
    var out := Run(zero, Writes(trace));
    var spec := UnsortedSegmentSum(Gather(p.input, p.inner, p.inputRows, p.indices), p.ids, p.rows, p.inner);
    forall cell | 0 <= cell < |zero|
      ensures out[cell] == spec[cell]
    {
      CellOf(p.inner, p.rows, cell);
      RunAtCell(p, zero, trace, cell / p.inner, cell % p.inner);
    }
  }

  /** In every run, a plain store to column c of segment s is the only write its cell gets, and
      all of the segment lies inside one tile, away from the tile's first and last ids. */
  lemma PlainStoreIsAlone(p: Problem, trace: seq<Event>, i: nat, s: int, c: int)
    requires p.Valid() && 0 <= c < p.inner && Interleaving(trace, AllWrites(p))
    requires i < |trace| && trace[i].write.Store? && trace[i].write.cell == s * p.inner + c
    ensures forall j | 0 <= j < |trace| && j != i :: trace[j].write.cell != s * p.inner + c
    ensures var g := trace[i].thread;
            && g < p.Stripes() && p.Low(g) < p.High(g) <= |p.ids|
            && s in p.ids[p.Low(g)..p.High(g)]
            && forall k | 0 <= k < |p.ids| && p.ids[k] == s :: p.Low(g) < k < p.High(g) - 1
  {
    StoresAreExclusive(p);
    ExclusiveRunsHaveLoneStores(trace, AllWrites(p));
    assert Writes(trace)[i] == trace[i].write;
    forall j | 0 <= j < |trace| && j != i
      ensures trace[j].write.cell != s * p.inner + c
    {
      assert Writes(trace)[j] == trace[j].write;
    }
    ProjAt(trace, i);
    var g := trace[i].thread;
    var pos := |Proj(trace[..i], g)|;
    StripeBounds(p, g);
    StripeShape(p, p.Low(g), p.High(g), g % p.inner);
    assert trace[i].write == StripeProgram(p, g)[pos];
    var segs := StripeSegs(p, p.Low(g), p.High(g));
    CellInjective(p.inner, s, c, segs[pos], g % p.inner);
    assert s in segs;
  }

  /** A segment with entries on both sides of a tile boundary is only ever added to. */
  lemma CrossingSegmentsAreAtomic(p: Problem, trace: seq<Event>, i: nat, s: int, c: int, t: nat)
    requires p.Valid() && 0 <= c < p.inner && Interleaving(trace, AllWrites(p))
    requires 0 < t * p.tile < |p.ids| && p.ids[t * p.tile - 1] == p.ids[t * p.tile] == s
    requires i < |trace| && trace[i].write.cell == s * p.inner + c
    ensures trace[i].write.AtomicAdd?
  {
    if trace[i].write.Store? {
      PlainStoreIsAlone(p, trace, i, s, c);
      var u := trace[i].thread / p.inner;
      CellSplit(p.tile, u, t * p.tile - u * p.tile);
      CellSplit(p.tile, t, 0);
      assert false;
    }
  }

  // ---------- the operator ----------

  method SetZero(output: array<real>)
    modifies output
    ensures forall i | 0 <= i < output.Length :: output[i] == 0.0
  {
    for i := 0 to output.Length
      invariant forall j | 0 <= j < i :: output[j] == 0.0
    {
      output[i] := 0.0;
    }
  }

  /** The loops of all stripes. */
  method RunStripes(p: Problem) returns (progs: seq<seq<Write>>)
    requires p.Valid()
    ensures progs == AllWrites(p)
  {
    progs := [];
    for g := 0 to p.Stripes()
      invariant |progs| == g
      invariant forall h | 0 <= h < g :: progs[h] == StripeProgram(p, h)
    {
      var ws := RunStripe(p, g);
      progs := progs + [ws];
    }
  }

  /** Zero the output, then let all stripes run in any order. */
  method LaunchKernel(p: Problem, output: array<real>)
    requires p.Valid() && output.Length == p.rows * p.inner
    modifies output
    ensures output[..]
         == UnsortedSegmentSum(Gather(p.input, p.inner, p.inputRows, p.indices), p.ids, p.rows, p.inner)
  {
    if output.Length == 0 {
      return;
    }
    SetZero(output);
    ghost var zero := output[..];
    if |p.ids| * p.inner == 0 {
      assert p.Stripes() == 0;
      EveryRunIsTheSegmentSum(p, zero, []);
      return;
    }
    var progs := RunStripes(p);
    WritesInBounds(p);
    ghost var trace := Execute(progs, output);
    EveryRunIsTheSegmentSum(p, zero, trace);
  }

  datatype Status =
    | Ok
    | IndicesNotVector
    | SegmentIdsNotVector
    | LengthMismatch
    | InputIsScalar
    | NoOutputRows

  /** The number of output rows: given, or read off the last segment id. */
  function OutputRows(ids: seq<int>, numSegments: Option<int>): int {
    match numSegments
    case Some(n) => n
    case None => RowCount(ids)
  }

  /** No argument is at fault. */
  predicate Accepted(input: Tensor<real>, indices: Tensor<int>, ids: Tensor<int>, numSegments: Option<int>) {
    && |indices.shape| == |ids.shape| == 1 && |indices.flat| == |ids.flat| && |input.shape| > 0
    && OutputRows(ids.flat, numSegments) > 0
  }

  /** The elements of one row: the product of all dimensions but the first. */
  method ElementSize(shape: seq<nat>) returns (elementSize: nat)
    requires shape != []
    ensures elementSize == Product(shape[1..])
  {
    elementSize := 1;
    var i := 1;
    while i < |shape|
      invariant 1 <= i <= |shape|
      invariant elementSize == Product(shape[1..i])
    {
      elementSize := elementSize * shape[i];
      assert shape[1..i + 1] == shape[1..i] + [shape[i]];
      ProductConcat(shape[1..i], [shape[i]]);
      i := i + 1;
    }
    assert shape[1..i] == shape[1..];
  }

  const TILE: nat := 8

  /** What the operator leaves to its caller: an id to read the row count from, and, if no fault is found,
      sorted ids in range and indices in range. */
  ghost predicate Suits(input: Tensor<real>, indices: Tensor<int>, ids: Tensor<int>, numSegments: Option<int>) {
    && input.Valid() && indices.Valid() && ids.Valid()
    && (numSegments.None? ==> ids.flat != [])
    && (Accepted(input, indices, ids, numSegments) ==>
          && InRange(indices.flat, input.shape[0])
          && InRange(ids.flat, OutputRows(ids.flat, numSegments))
          && Sorted(ids.flat))
  }

  /** The whole operator. Sorted, in-range ids and in-range indices are the caller's duty; every
      other fault is reported. */
  method SparseSegmentSum(input: Tensor<real>, indices: Tensor<int>, ids: Tensor<int>, numSegments: Option<int>)
    returns (status: Status, shape: seq<nat>, output: array<real>)
    requires Suits(input, indices, ids, numSegments)
    ensures var rows := match numSegments case Some(n) => n case None => ids.flat[|ids.flat| - 1] + 1;
            && status == (if |indices.shape| != 1 then IndicesNotVector
                          else if |ids.shape| != 1 then SegmentIdsNotVector
                          else if |indices.flat| != |ids.flat| then LengthMismatch
                          else if |input.shape| == 0 then InputIsScalar
                          else if rows <= 0 then NoOutputRows
                          else Ok)
            && (status == Ok ==>
                  && |shape| == |input.shape| && shape[0] == rows
                  && forall i | 1 <= i < |shape| :: shape[i] == input.shape[i])
    ensures status == Ok ==>
              && output.Length == Product(shape)
              && |input.flat| == input.shape[0] * Product(input.shape[1..])
              && output[..] == UnsortedSegmentSum(
                   Gather(input.flat, Product(input.shape[1..]), input.shape[0], indices.flat),
                   ids.flat, shape[0], Product(input.shape[1..]))
  {
    shape := [];
    output := new real[0];
    if |indices.shape| != 1 { return IndicesNotVector, shape, output; }
    if |ids.shape| != 1 { return SegmentIdsNotVector, shape, output; }
    if |indices.flat| != |ids.flat| { return LengthMismatch, shape, output; }
    if |input.shape| == 0 { return InputIsScalar, shape, output; }
    var elementSize := ElementSize(input.shape);
    var rows := match numSegments case Some(n) => n case None => ids.flat[|ids.flat| - 1] + 1;
    if rows <= 0 { return NoOutputRows, shape, output; }
    shape := input.shape[0 := rows];
    output := new real[rows * elementSize];
    LaunchKernel(Problem(input.flat, input.shape[0], elementSize, indices.flat, ids.flat, rows, TILE), output);
    assert shape[1..] == input.shape[1..];
    status := Ok;
  }
}
