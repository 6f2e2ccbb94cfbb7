/** Dynamic partition on the GPU: stable sort, run-length count through bounded iterators, moving the
    counts to their ids, and gathering consecutive windows of the sorted positions. */
module GpuPartition {
  import opened Tensors
  import opened StableSort
  import opened Partition

  // ---------- runs of a sorted sequence ----------

  function CountBelow(keys: seq<int>, p: int): (c: nat)
    ensures c <= |keys|
  {
    if keys == [] then 0 else
      var n := |keys| - 1;
      CountBelow(keys[..n], p) + if keys[n] < p then 1 else 0
  }

  lemma {:induction false} BelowSplits(keys: seq<int>, p: int)
    requires Sorted(keys)
    ensures forall i | 0 <= i < |keys| :: keys[i] < p <==> i < CountBelow(keys, p)
  {
    if keys != [] {
      var n := |keys| - 1;
      BelowSplits(keys[..n], p);
      forall i | 0 <= i < n
        ensures keys[i] < p <==> i < CountBelow(keys[..n], p)
      {
        assert keys[i] == keys[..n][i];
      }
      if keys[n] < p && n > 0 {
        assert keys[n - 1] < p;
      }
    }
  }

  lemma {:induction false} BelowMonotone(keys: seq<int>, p: int, q: int)
    requires p <= q
    ensures CountBelow(keys, p) <= CountBelow(keys, q)
  {
    if keys != [] {
      BelowMonotone(keys[..|keys| - 1], p, q);
    }
  }

  function RunKeys(keys: seq<int>): seq<int> {
    if keys == [] then [] else
      var n := |keys| - 1;
      if n == 0 || keys[n - 1] != keys[n] then RunKeys(keys[..n]) + [keys[n]] else RunKeys(keys[..n])
  }

  function RunLengths(keys: seq<int>): (lens: seq<nat>)
    ensures |lens| == |RunKeys(keys)| && (keys != [] ==> lens != [])
  {
    if keys == [] then [] else
      var n := |keys| - 1;
      var lens := RunLengths(keys[..n]);
      if n == 0 || keys[n - 1] != keys[n] then lens + [1] else lens[|lens| - 1 := lens[|lens| - 1] + 1]
  }

  lemma {:induction false} RunKeysSpec(keys: seq<int>)
    requires Sorted(keys)
    ensures Rising(RunKeys(keys))
    ensures forall x :: x in RunKeys(keys) <==> x in keys
    ensures keys != [] ==> RunKeys(keys) != [] && RunKeys(keys)[|RunKeys(keys)| - 1] == keys[|keys| - 1]
  {
    if keys != [] {
      var n := |keys| - 1;
      RunKeysSpec(keys[..n]);
      assert keys == keys[..n] + [keys[n]];
      if n == 0 || keys[n - 1] != keys[n] {
        forall x | x in RunKeys(keys[..n])
          ensures x < keys[n]
        {
          assert x in keys[..n];
          var i :| 0 <= i < n && keys[i] == x;
          assert keys[i] <= keys[n - 1];
        }
        RisingSnoc(RunKeys(keys[..n]), keys[n]);
      }
    }
  }

  lemma {:induction false} AllBelow(keys: seq<int>, p: int)
    requires forall i | 0 <= i < |keys| :: keys[i] < p
    ensures CountBelow(keys, p) == |keys|
  {
    if keys != [] {
      AllBelow(keys[..|keys| - 1], p);
    }
  }

  /** The length of a run is the number of elements equal to its key. */
  lemma {:induction false} RunLengthIsCount(keys: seq<int>, r: nat)
    requires Sorted(keys) && r < |RunKeys(keys)|
    ensures RunLengths(keys)[r] == CountBelow(keys, RunKeys(keys)[r] + 1) - CountBelow(keys, RunKeys(keys)[r])
  {
    var n := |keys| - 1;
    var init := keys[..n];
    RunKeysSpec(keys);
    RunKeysSpec(init);
    var k := RunKeys(keys)[r];
    if r == |RunKeys(keys)| - 1 {
      if n == 0 || keys[n - 1] != keys[n] {
        assert n > 0 ==> keys[n - 1] <= k;
        AllBelow(init, k);
        AllBelow(init, k + 1);
      } else {
        assert init[n - 1] == keys[n];
        RunLengthIsCount(init, r);
      }
    } else {
      RunLengthIsCount(init, r);
    }
  }

  // ---------- what the pipeline computes ----------

  function KeysOf(ids: seq<int>, order: seq<int>): (keys: seq<int>)
    requires InRange(order, |ids|)
    ensures |keys| == |order|
  {
    seq(|order|, i requires 0 <= i < |order| => ids[order[i]])
  }

  /** The run keys that survive the bounded output iterators. */
  function Kept(keys: seq<int>, num: nat): seq<int> {
    var runs := RunKeys(keys);
    if |runs| <= num then runs else runs[..num]
  }

  function GpuCount(keys: seq<int>, num: nat, p: int): nat {
    BelowMonotone(keys, p, p + 1);
    if p in Kept(keys, num) then CountBelow(keys, p + 1) - CountBelow(keys, p) else 0
  }

  /** The value of the moving base pointer when part p is gathered. */
  function Base(keys: seq<int>, num: nat, p: nat): nat {
    if p == 0 then 0 else Base(keys, num, p - 1) + GpuCount(keys, num, p - 1)
  }

  lemma {:induction false} BaseBound(keys: seq<int>, num: nat, p: nat)
    ensures Base(keys, num, p) <= CountBelow(keys, p) - CountBelow(keys, 0)
  {
    if p != 0 {
      BaseBound(keys, num, p - 1);
      BelowMonotone(keys, p - 1, p);
    }
  }

  /** The sorted positions gathered into part p. Always inside the sorted positions. */
  function Window(ids: seq<int>, order: seq<int>, num: nat, p: nat): (win: seq<int>)
    requires |order| == |ids| && InRange(order, |ids|)
    ensures InRange(win, |ids|) && |win| == GpuCount(KeysOf(ids, order), num, p)
  {
    var keys := KeysOf(ids, order);
    var base := Base(keys, num, p);
    BaseBound(keys, num, p + 1);
    order[base..base + GpuCount(keys, num, p)]
  }

  // ---------- windows against parts ----------

  lemma SortedKeys(ids: seq<int>, order: seq<int>)
    requires IsStableSort(ids, order)
    ensures Sorted(KeysOf(ids, order))
  {
  }

  /** Where a stable sort keeps the positions with id p. */
  lemma SliceOf(ids: seq<int>, order: seq<int>, p: int)
    requires IsStableSort(ids, order)
    ensures var keys := KeysOf(ids, order);
            && CountBelow(keys, p) <= CountBelow(keys, p + 1) <= |order|
            && forall i | 0 <= i < |order| ::
                 ids[order[i]] == p <==> CountBelow(keys, p) <= i < CountBelow(keys, p + 1)
  {
    var keys := KeysOf(ids, order);
    SortedKeys(ids, order);
    BelowSplits(keys, p);
    BelowSplits(keys, p + 1);
    BelowMonotone(keys, p, p + 1);
    forall i | 0 <= i < |order|
      ensures ids[order[i]] == p <==> CountBelow(keys, p) <= i < CountBelow(keys, p + 1)
    {
      assert keys[i] == ids[order[i]];
    }
  }

  lemma SliceIsPositions(ids: seq<int>, order: seq<int>, p: int, lo: nat, hi: nat)
    requires IsStableSort(ids, order) && lo <= hi <= |order|
    requires forall i | 0 <= i < |order| :: ids[order[i]] == p <==> lo <= i < hi
    ensures order[lo..hi] == Positions(ids, p)
  {
    PositionsSpec(ids, p);
    var slice := order[lo..hi];
    forall x
      ensures x in slice <==> x in Positions(ids, p)
    {
      if x in Positions(ids, p) {
        assert x in order;
        var i :| 0 <= i < |order| && order[i] == x;
        assert slice[i - lo] == x;
      }
    }
    RisingUnique(slice, Positions(ids, p));
  }

  /** Between the counts below p and below p + 1 a stable sort lists exactly the positions of p. */
  lemma StableSortSlice(ids: seq<int>, order: seq<int>, p: int)
    requires IsStableSort(ids, order)
    ensures var keys := KeysOf(ids, order);
            CountBelow(keys, p) <= CountBelow(keys, p + 1) <= |order|
            && order[CountBelow(keys, p)..CountBelow(keys, p + 1)] == Positions(ids, p)
  {
    SliceOf(ids, order, p);
    var keys := KeysOf(ids, order);
    SliceIsPositions(ids, order, p, CountBelow(keys, p), CountBelow(keys, p + 1));
  }

  lemma {:induction false} RisingFromZero(s: seq<int>, i: nat)
    requires Rising(s) && i < |s| && 0 <= s[0]
    ensures i <= s[i]
  {
    if i > 0 {
      RisingFromZero(s, i - 1);
    }
  }

  /** With no negative id, no in-range run is cut off by the bounded iterators. */
  lemma AllInRangeKept(keys: seq<int>, num: nat, p: nat)
    requires Sorted(keys) && p < num && forall i | 0 <= i < |keys| :: 0 <= keys[i]
    ensures GpuCount(keys, num, p) == CountBelow(keys, p + 1) - CountBelow(keys, p)
  {
    RunKeysSpec(keys);
    BelowSplits(keys, p);
    BelowSplits(keys, p + 1);
    var runs, lo := RunKeys(keys), CountBelow(keys, p);
    if lo < CountBelow(keys, p + 1) {
      assert keys[lo] == p;
      assert p in runs;
      var i :| 0 <= i < |runs| && runs[i] == p;
      assert runs[0] in keys;
      RisingFromZero(runs, i);
      assert Kept(keys, num)[i] == p;
    } else {
      BelowMonotone(keys, p, p + 1);
    }
  }

  lemma {:induction false} NoneBelow(keys: seq<int>, p: int)
    requires forall i | 0 <= i < |keys| :: p <= keys[i]
    ensures CountBelow(keys, p) == 0
  {
    if keys != [] {
      NoneBelow(keys[..|keys| - 1], p);
    }
  }

  lemma {:induction false} BaseExact(keys: seq<int>, num: nat, p: nat)
    requires Sorted(keys) && p <= num && forall i | 0 <= i < |keys| :: 0 <= keys[i]
    ensures Base(keys, num, p) == CountBelow(keys, p)
  {
    if p == 0 {
      NoneBelow(keys, 0);
    } else {
      BaseExact(keys, num, p - 1);
      AllInRangeKept(keys, num, p - 1);
    }
  }

  /** For non-negative ids, too large ones included, every window is the CPU part. */
  lemma NonNegativeWindow(ids: seq<int>, order: seq<int>, num: nat, p: nat)
    requires IsStableSort(ids, order) && p < num && forall i | 0 <= i < |ids| :: 0 <= ids[i]
    ensures Window(ids, order, num, p) == Positions(ids, p)
  {
    var keys := KeysOf(ids, order);
    SortedKeys(ids, order);
    BaseExact(keys, num, p);
    AllInRangeKept(keys, num, p);
    StableSortSlice(ids, order, p);
  }

  ghost predicate WindowsAreParts(ids: seq<int>, order: seq<int>, num: nat)
    requires IsStableSort(ids, order)
  {
    forall p: nat | p < num :: Window(ids, order, num, p) == Positions(ids, p)
  }

  lemma NothingInRangeWindow(ids: seq<int>, order: seq<int>, num: nat, p: nat)
    requires IsStableSort(ids, order) && p < num && forall i | 0 <= i < |ids| :: !(0 <= ids[i] < num)
    ensures Window(ids, order, num, p) == Positions(ids, p) == []
  {
    if Positions(ids, p) != [] {
      assert Positions(ids, p)[0] in Positions(ids, p);
    }
    var keys := KeysOf(ids, order);
    SortedKeys(ids, order);
    RunKeysSpec(keys);
    PositionsSpec(ids, p);
    assert p !in keys;
    assert forall x | x in Kept(keys, num) :: x in RunKeys(keys);
  }

  /** A window at base 0 starts with the first sorted position, which has a negative id. */
  lemma NegativeFirst(ids: seq<int>, order: seq<int>, num: nat, p: nat)
    requires IsStableSort(ids, order) && p < num && |order| > 0 && ids[order[0]] < 0
    requires Base(KeysOf(ids, order), num, p) == 0 && Window(ids, order, num, p) == Positions(ids, p)
    ensures Positions(ids, p) == []
  {
    var win := Window(ids, order, num, p);
    if win != [] {
      assert win[0] in win;
      assert win[0] == order[0];
    }
    PositionsSpec(ids, p);
  }

  lemma {:induction false} NegativeBlocks(ids: seq<int>, order: seq<int>, num: nat, p: nat)
    requires IsStableSort(ids, order) && WindowsAreParts(ids, order, num) && p <= num
    requires |order| > 0 && ids[order[0]] < 0
    ensures Base(KeysOf(ids, order), num, p) == 0
    ensures forall q: nat | q < p :: Positions(ids, q) == []
  {
    if p > 0 {
      NegativeBlocks(ids, order, num, p - 1);
      assert Window(ids, order, num, p - 1) == Positions(ids, p - 1);
      NegativeFirst(ids, order, num, p - 1);
    }
  }

  /** Exactly when the GPU windows are the CPU parts, for any ids: no id is negative, or none is in range. */
  lemma WindowsAreExact(ids: seq<int>, order: seq<int>, num: nat)
    requires IsStableSort(ids, order)
    ensures WindowsAreParts(ids, order, num) <==>
              (forall i | 0 <= i < |ids| :: 0 <= ids[i]) || (forall i | 0 <= i < |ids| :: !(0 <= ids[i] < num))
  {
    if forall i | 0 <= i < |ids| :: 0 <= ids[i] {
      forall p: nat | p < num
        ensures Window(ids, order, num, p) == Positions(ids, p)
      {
        NonNegativeWindow(ids, order, num, p);
      }
    } else if forall i | 0 <= i < |ids| :: !(0 <= ids[i] < num) {
      forall p: nat | p < num
        ensures Window(ids, order, num, p) == Positions(ids, p)
      {
        NothingInRangeWindow(ids, order, num, p);
      }
    } else {
      var a :| 0 <= a < |ids| && ids[a] < 0;
      var b :| 0 <= b < |ids| && 0 <= ids[b] < num;
      assert a in order;
      var i :| 0 <= i < |order| && order[i] == a;
      assert i > 0 ==> ids[order[0]] <= ids[order[i]];
      PositionsSpec(ids, ids[b]);
      assert b in Positions(ids, ids[b]);
      if WindowsAreParts(ids, order, num) {
        NegativeBlocks(ids, order, num, num);
        assert false;
      }
    }
  }

  /** One negative id before one in range: the window of part 0 is not its part. */
  lemma NegativeIdShiftsWindows(order: seq<int>)
    requires IsStableSort([-1, 0], order)
    ensures !WindowsAreParts([-1, 0], order, 1)
  {
    var ids := [-1, 0];
    WindowsAreExact(ids, order, 1);
    assert ids[0] < 0 && 0 <= ids[1] < 1;
  }

  /** The counts of all parts together never exceed the input. */
  lemma CountsFit(ids: seq<int>, order: seq<int>, num: nat)
    requires |order| == |ids| && InRange(order, |ids|)
    ensures Base(KeysOf(ids, order), num, num) <= |ids|
  {
    BaseBound(KeysOf(ids, order), num, num);
  }

  // ---------- every window, for any ids ----------

  /** The distinct ids below p, negative ones too. */
  ghost function DistinctBelow(ids: seq<int>, p: int): set<int> {
    set x | x in ids && x < p
  }

  lemma {:induction false} RisingRank(s: seq<int>, r: nat)
    requires Rising(s) && r < |s|
    ensures |DistinctBelow(s, s[r])| == r
  {
    if r == 0 {
      assert DistinctBelow(s, s[r]) == {};
    } else {
      RisingRank(s, r - 1);
      NextBelow(s, r);
    }
  }

  lemma NextBelow(s: seq<int>, r: nat)
    requires Rising(s) && 0 < r < |s|
    ensures DistinctBelow(s, s[r]) == DistinctBelow(s, s[r - 1]) + {s[r - 1]}
  {
    forall x
      ensures x in DistinctBelow(s, s[r]) <==> x in DistinctBelow(s, s[r - 1]) || x == s[r - 1]
    {
      if x in s {
        var i :| 0 <= i < |s| && s[i] == x;
        assert i < r <==> x < s[r];
        assert i < r - 1 <==> x < s[r - 1];
      }
    }
  }

  lemma KeysAreIds(ids: seq<int>, order: seq<int>, x: int)
    requires IsStableSort(ids, order)
    ensures x in KeysOf(ids, order) <==> x in ids
  {
    var keys := KeysOf(ids, order);
    if x in ids {
      var i :| 0 <= i < |ids| && ids[i] == x;
      assert i in order;
      var j :| 0 <= j < |order| && order[j] == i;
      assert keys[j] == x;
    }
  }

  lemma KeptExactly(ids: seq<int>, order: seq<int>, num: nat, p: int)
    requires IsStableSort(ids, order) && p in ids
    ensures p in Kept(KeysOf(ids, order), num) <==> |DistinctBelow(ids, p)| < num
  {
    var runs := RunKeys(KeysOf(ids, order));
    SortedKeys(ids, order);
    RunKeysSpec(KeysOf(ids, order));
    forall x
      ensures x in runs <==> x in ids
    {
      KeysAreIds(ids, order, x);
    }
    var r :| 0 <= r < |runs| && runs[r] == p;
    RisingRank(runs, r);
    assert DistinctBelow(runs, p) == DistinctBelow(ids, p);
    var kept := Kept(KeysOf(ids, order), num);
    if r < num {
      assert kept[r] == p;
    }
    if p in kept {
      var k :| 0 <= k < |kept| && kept[k] == p;
      assert runs[k] == p;
    }
  }

  /** Which counts survive the bounded iterators, for any ids: p gets its count exactly when fewer than num
      distinct ids lie below it, and zero otherwise. */
  lemma CountSurvivesExactly(ids: seq<int>, order: seq<int>, num: nat, p: nat)
    requires IsStableSort(ids, order)
    ensures GpuCount(KeysOf(ids, order), num, p)
         == if |DistinctBelow(ids, p)| < num then |Positions(ids, p)| else 0
  {
    var keys := KeysOf(ids, order);
    StableSortSlice(ids, order, p);
    PositionsSpec(ids, p);
    if p in ids {
      KeptExactly(ids, order, num, p);
    } else {
      KeysAreIds(ids, order, p);
      SortedKeys(ids, order);
      RunKeysSpec(keys);
      assert forall x | x in Kept(keys, num) :: x in RunKeys(keys);
      NowhereHeld(ids, p);
    }
  }

  lemma {:induction false} NowhereHeld(ids: seq<int>, p: int)
    requires p !in ids
    ensures Positions(ids, p) == []
  {
    if ids != [] {
      NowhereHeld(ids[..|ids| - 1], p);
    }
  }

  lemma WindowSizeExactly(ids: seq<int>, order: seq<int>, num: nat, p: nat)
    requires IsStableSort(ids, order)
    ensures |Window(ids, order, num, p)| == if |DistinctBelow(ids, p)| < num then |Positions(ids, p)| else 0
  {
    CountSurvivesExactly(ids, order, num, p);
  }

  /** The windows of the first p parts, one behind the other. */
  ghost function Windows(ids: seq<int>, order: seq<int>, num: nat, p: nat): seq<int>
    requires |order| == |ids| && InRange(order, |ids|)
  {
    if p == 0 then [] else Windows(ids, order, num, p - 1) + Window(ids, order, num, p - 1)
  }

  /** Together the windows are the front of the sorted positions: each begins where the one before it ends. */
  lemma {:induction false} WindowsAreConsecutive(ids: seq<int>, order: seq<int>, num: nat, p: nat)
    requires IsStableSort(ids, order)
    ensures |Windows(ids, order, num, p)| == Base(KeysOf(ids, order), num, p) <= |order|
    ensures Windows(ids, order, num, p) == order[..|Windows(ids, order, num, p)|]
  {
    BaseBound(KeysOf(ids, order), num, p);
    if p > 0 {
      WindowsAreConsecutive(ids, order, num, p - 1);
      var base, n := Base(KeysOf(ids, order), num, p - 1), GpuCount(KeysOf(ids, order), num, p - 1);
      FrontGrows(order, base, n, Window(ids, order, num, p - 1));
    }
  }

  lemma FrontGrows(order: seq<int>, base: nat, n: nat, window: seq<int>)
    requires base + n <= |order| && window == order[base..base + n]
    ensures order[..base] + window == order[..base + n]
  {
  }

  // ---------- dropping the rows out of range ----------

  /** The positions with an id in 0..num, in order. */
  function InRangePositions(ids: seq<int>, num: nat): (pos: seq<int>)
    ensures InRange(pos, |ids|)
  {
    if ids == [] then [] else
      var n := |ids| - 1;
      if 0 <= ids[n] < num then InRangePositions(ids[..n], num) + [n] else InRangePositions(ids[..n], num)
  }

  lemma {:induction false} InRangePositionsMember(ids: seq<int>, num: nat, i: int)
    ensures i in InRangePositions(ids, num) <==> 0 <= i < |ids| && 0 <= ids[i] < num
  {
    if ids != [] {
      var n := |ids| - 1;
      InRangePositionsMember(ids[..n], num, i);
      assert 0 <= i < n ==> ids[..n][i] == ids[i];
    }
  }

  lemma {:induction false} InRangePositionsRise(ids: seq<int>, num: nat)
    ensures Rising(InRangePositions(ids, num))
  {
    if ids != [] {
      var n := |ids| - 1;
      InRangePositionsRise(ids[..n], num);
      RisingSnoc(InRangePositions(ids[..n], num), n);
    }
  }

  lemma InRangePositionsSpec(ids: seq<int>, num: nat)
    ensures Rising(InRangePositions(ids, num))
    ensures forall i :: i in InRangePositions(ids, num) <==> 0 <= i < |ids| && 0 <= ids[i] < num
  {
    InRangePositionsRise(ids, num);
    forall i
      ensures i in InRangePositions(ids, num) <==> 0 <= i < |ids| && 0 <= ids[i] < num
    {
      InRangePositionsMember(ids, num, i);
    }
  }

  function Compose(rows: seq<int>, pos: seq<int>): (c: seq<int>)
    requires InRange(pos, |rows|)
    ensures |c| == |pos|
  {
    seq(|pos|, k requires 0 <= k < |pos| => rows[pos[k]])
  }

  lemma ComposeInRange(rows: seq<int>, pos: seq<int>, n: nat)
    requires InRange(rows, n) && InRange(pos, |rows|)
    ensures InRange(Compose(rows, pos), n)
  {
  }

  lemma GatherComposeAt<T>(x: seq<T>, w: nat, n: nat, rows: seq<int>, pos: seq<int>, k: int, c: int)
    requires |x| == n * w && InRange(rows, n) && InRange(pos, |rows|)
    requires 0 <= k < |pos| && 0 <= c < w
    ensures InRange(Compose(rows, pos), n) && 0 <= k * w + c < |pos| * w
    ensures Gather(Gather(x, w, n, rows), w, |rows|, pos)[k * w + c] == Gather(x, w, n, Compose(rows, pos))[k * w + c]
  {
    ComposeInRange(rows, pos, n);
    var once := Gather(x, w, n, rows);
    GatherAt(once, w, |rows|, pos, k, c);
    GatherAt(x, w, n, rows, pos[k], c);
    GatherAt(x, w, n, Compose(rows, pos), k, c);
    assert Compose(rows, pos)[k] == rows[pos[k]];
  }

  lemma GatherCompose<T>(x: seq<T>, w: nat, n: nat, rows: seq<int>, pos: seq<int>)
    requires |x| == n * w && InRange(rows, n) && InRange(pos, |rows|)
    ensures InRange(Compose(rows, pos), n)
    ensures Gather(Gather(x, w, n, rows), w, |rows|, pos) == Gather(x, w, n, Compose(rows, pos))
  {
    var a, b := Gather(Gather(x, w, n, rows), w, |rows|, pos), Gather(x, w, n, Compose(rows, pos));
    assert |a| == |b| == |pos| * w;
    forall i | 0 <= i < |pos| * w
      ensures a[i] == b[i]
    {
      CellOf(w, |pos|, i);
      GatherComposeAt(x, w, n, rows, pos, i / w, i % w);
    }
  }

  lemma PositionsOfKept(ids: seq<int>, num: nat, p: nat)
    requires p < num
    ensures var rows := InRangePositions(ids, num);
            Compose(rows, Positions(KeysOf(ids, rows), p)) == Positions(ids, p)
  {
    var rows := InRangePositions(ids, num);
    var ids' := KeysOf(ids, rows);
    var pos := Positions(ids', p);
    InRangePositionsSpec(ids, num);
    PositionsSpec(ids', p);
    PositionsSpec(ids, p);
    var c := Compose(rows, pos);
    forall x
      ensures x in c <==> x in Positions(ids, p)
    {
      if x in c {
        var k :| 0 <= k < |pos| && rows[pos[k]] == x;
        assert pos[k] in pos && rows[pos[k]] in rows;
      }
      if x in Positions(ids, p) {
        assert x in rows;
        var j :| 0 <= j < |rows| && rows[j] == x;
        assert j in pos;
        var k :| 0 <= k < |pos| && pos[k] == j;
        assert c[k] == x;
      }
    }
    RisingUnique(c, Positions(ids, p));
  }

  /** Partitioning after removing the rows with an id out of range changes no part. */
  lemma RemovingRowsKeepsParts<T>(data: seq<T>, w: nat, ids: seq<int>, num: nat, p: nat)
    requires |data| == |ids| * w && p < num
    ensures var rows := InRangePositions(ids, num);
            Part(Gather(data, w, |ids|, rows), w, KeysOf(ids, rows), p) == Part(data, w, ids, p)
  {
    var rows := InRangePositions(ids, num);
    PositionsOfKept(ids, num, p);
    GatherCompose(data, w, |ids|, rows, Positions(KeysOf(ids, rows), p));
  }

  // ---------- the pipeline ----------

  /** Assignment through a bounded output iterator. */
  method BoundedStore(a: array<int>, limit: nat, n: int, v: int)
    requires limit <= a.Length
    modifies a
    ensures a[..] == if 0 <= n < limit then old(a[..])[n := v] else old(a[..])
  {
    if n < limit && 0 <= n {
      a[n] := v;
    }
  }

  /** One more key: a new run of length one, or one more in the last run. */
  ghost predicate Extends(newRun: bool, key: int, ks: seq<int>, ls: seq<nat>, ks': seq<int>, ls': seq<nat>) {
    && |ks| == |ls| && |ks'| == |ls'|
    && if newRun then ks' == ks + [key] && ls' == ls + [1]
       else ks' == ks && ls != [] && ls' == ls[|ls| - 1 := ls[|ls| - 1] + 1]
  }

  lemma RunsStep(keys: seq<int>, i: nat)
    requires i < |keys|
    ensures Extends(i == 0 || keys[i - 1] != keys[i], keys[i],
                    RunKeys(keys[..i]), RunLengths(keys[..i]), RunKeys(keys[..i + 1]), RunLengths(keys[..i + 1]))
  {
    assert keys[..i + 1][..i] == keys[..i];
  }

  /** The two arrays hold the runs' keys and lengths, as far as the limit lets them. */
  ghost predicate Encoded(uniqueOut: seq<int>, aggregatesOut: seq<int>, limit: nat, ks: seq<int>, ls: seq<nat>)
    requires limit <= |uniqueOut| && limit <= |aggregatesOut| && |ks| == |ls|
  {
    forall r | 0 <= r < |ks| && r < limit :: uniqueOut[r] == ks[r] && aggregatesOut[r] == ls[r]
  }

  /** One key: it starts a new run, or lengthens the last one. */
  method EncodeKey(newRun: bool, key: int, uniqueOut: array<int>, aggregatesOut: array<int>, limit: nat,
                   runs: nat, before: nat, ghost ks: seq<int>, ghost ls: seq<nat>, ghost ks': seq<int>,
                   ghost ls': seq<nat>)
    returns (numRuns: nat, len: nat)
    requires limit <= uniqueOut.Length && limit <= aggregatesOut.Length && uniqueOut != aggregatesOut
    requires Extends(newRun, key, ks, ls, ks', ls') && runs == |ks| && (ls != [] ==> before == ls[runs - 1])
    requires Encoded(uniqueOut[..], aggregatesOut[..], limit, ks, ls)
    modifies uniqueOut, aggregatesOut
    ensures numRuns == |ks'| > 0 && len == ls'[numRuns - 1]
    ensures Encoded(uniqueOut[..], aggregatesOut[..], limit, ks', ls')
    ensures uniqueOut[limit..] == old(uniqueOut[limit..]) && aggregatesOut[limit..] == old(aggregatesOut[limit..])
  {
    numRuns, len := runs, before;
    if newRun {
      numRuns, len := numRuns + 1, 0;
      BoundedStore(uniqueOut, limit, numRuns - 1, key);
    }
    len := len + 1;
    BoundedStore(aggregatesOut, limit, numRuns - 1, len);
  }

  /** Run-length encode keys into two bounded arrays; the number of runs is exact even when they are cut. */
  method ReduceByKey(keys: seq<int>, uniqueOut: array<int>, aggregatesOut: array<int>, limit: nat)
    returns (numRuns: nat)
    requires limit <= uniqueOut.Length && limit <= aggregatesOut.Length && uniqueOut != aggregatesOut
    modifies uniqueOut, aggregatesOut
    ensures numRuns == |RunKeys(keys)|
    ensures forall r | 0 <= r < numRuns && r < limit ::
              uniqueOut[r] == RunKeys(keys)[r] && aggregatesOut[r] == RunLengths(keys)[r]
    ensures uniqueOut[limit..] == old(uniqueOut[limit..]) && aggregatesOut[limit..] == old(aggregatesOut[limit..])
  {
    numRuns := 0;
    var len := 0;
    var i := 0;
    while i < |keys|
      invariant 0 <= i <= |keys| && numRuns == |RunKeys(keys[..i])|
      invariant i > 0 ==> numRuns > 0 && len == RunLengths(keys[..i])[numRuns - 1]
      invariant Encoded(uniqueOut[..], aggregatesOut[..], limit, RunKeys(keys[..i]), RunLengths(keys[..i]))
      invariant uniqueOut[limit..] == old(uniqueOut[limit..]) && aggregatesOut[limit..] == old(aggregatesOut[limit..])
    {
      RunsStep(keys, i);
      numRuns, len :=
        EncodeKey(i == 0 || keys[i - 1] != keys[i], keys[i], uniqueOut, aggregatesOut, limit, numRuns, len,
                  RunKeys(keys[..i]), RunLengths(keys[..i]), RunKeys(keys[..i + 1]), RunLengths(keys[..i + 1]));
      i := i + 1;
    }
    assert keys[..i] == keys;
  }

  /** Threads 0..N, in any order, each move one value to the place its key names, if that place exists. */
  method MoveValues(keys: array<int>, values: array<int>, numRuns: nat, outSize: nat, out: array<int>)
    requires outSize == out.Length && outSize <= keys.Length && outSize <= values.Length
    requires out != keys && out != values
    requires forall i, j | 0 <= i < j < numRuns && j < outSize :: keys[i] != keys[j]
    modifies out
    ensures forall i | 0 <= i < numRuns && i < outSize && 0 <= keys[i] < outSize :: out[keys[i]] == values[i]
    ensures forall p | 0 <= p < outSize && (forall i | 0 <= i < numRuns && i < outSize :: keys[i] != p) ::
              out[p] == old(out[p])
  {
    var n := if numRuns <= outSize then numRuns else outSize;
    var todo := UpTo(n);
    while todo != {}
      invariant forall i | i in todo :: 0 <= i < n
      invariant forall i | 0 <= i < n && i !in todo && 0 <= keys[i] < outSize :: out[keys[i]] == values[i]
      invariant forall p | 0 <= p < outSize && (forall i | 0 <= i < n :: keys[i] != p) :: out[p] == old(out[p])
      decreases todo
    {
      var i :| i in todo;
      if 0 <= keys[i] < outSize {
        out[keys[i]] := values[i];
      }
      todo := todo - {i};
    }
  }

  /** counts is what moving the surviving runs to their ids leaves in a zeroed array. */
  ghost predicate Moved(keys: seq<int>, num: nat, unique: seq<int>, lens: seq<int>, counts: seq<int>) {
    && num <= |unique| && num <= |lens| && |counts| == num
    && (forall r | 0 <= r < |RunKeys(keys)| && r < num ::
          unique[r] == RunKeys(keys)[r] && lens[r] == RunLengths(keys)[r])
    && (forall r | 0 <= r < |RunKeys(keys)| && r < num && 0 <= unique[r] < num :: counts[unique[r]] == lens[r])
    && (forall p | 0 <= p < num && (forall r | 0 <= r < |RunKeys(keys)| && r < num :: unique[r] != p) :: counts[p] == 0)
  }

  lemma MovedKept(keys: seq<int>, num: nat, unique: seq<int>, lens: seq<int>, counts: seq<int>, r: nat)
    requires Sorted(keys) && Moved(keys, num, unique, lens, counts)
    requires r < |RunKeys(keys)| && r < num && 0 <= RunKeys(keys)[r] < num
    ensures var p := RunKeys(keys)[r]; counts[p] == CountBelow(keys, p + 1) - CountBelow(keys, p)
  {
    RunLengthIsCount(keys, r);
    assert unique[r] == RunKeys(keys)[r];
  }

  /** The moved counts: the count of every id whose run survived, zero for the others. */
  lemma MovedCounts(keys: seq<int>, num: nat, unique: seq<int>, lens: seq<int>, counts: seq<int>, p: nat)
    requires Sorted(keys) && Moved(keys, num, unique, lens, counts) && p < num
    ensures counts[p] == GpuCount(keys, num, p)
  {
    var runs, kept := RunKeys(keys), Kept(keys, num);
    if p in kept {
      var r: nat :| r < |kept| && kept[r] == p;
      MovedKept(keys, num, unique, lens, counts, r);
    } else {
      forall r | 0 <= r < |runs| && r < num
        ensures unique[r] != p
      {
        assert kept[r] == runs[r];
      }
    }
  }

  /** Sort the positions and count the ids. */
  method CountAndSortParts(ids: seq<int>, num: nat) returns (counts: array<int>, order: seq<int>)
    requires AllInt32(ids)
    ensures IsStableSort(ids, order)
    ensures counts.Length == num && fresh(counts)
    ensures forall p: nat | p < num :: counts[p] == GpuCount(KeysOf(ids, order), num, p)
  {
    var keys;
    keys, order := SortPairs(ids);
    assert keys == KeysOf(ids, order);
    SortedKeys(ids, order);
    counts := CountSortedKeys(keys, |ids|, num);
  }

  /** Count the ids of a sorted sequence; `size` is the input size that sizes the reused index buffer. */
  method CountSortedKeys(keys: seq<int>, size: nat, num: nat) returns (counts: array<int>)
    requires Sorted(keys)
    ensures counts.Length == num && fresh(counts)
    ensures forall p: nat | p < num :: counts[p] == GpuCount(keys, num, p)
  {
    counts := new int[num](_ => 0);
    var m := if num <= size then size else num;
    var uniqueOut := new int[m](i => i);
    var aggregatesOut := new int[num](_ => 0);
    var numRuns := ReduceByKey(keys, uniqueOut, aggregatesOut, num);
    RunKeysSpec(keys);
    MoveValues(uniqueOut, aggregatesOut, numRuns, num, counts);
    forall p: nat | p < num
      ensures counts[p] == GpuCount(keys, num, p)
    {
      MovedCounts(keys, num, uniqueOut[..], aggregatesOut[..], counts[..], p);
    }
  }

  /** Output cell i takes element i % w of the slice that entry i / w of the window names. */
  method GatherKernel<T>(data: seq<T>, w: nat, n: nat, window: seq<int>, out: array<T>)
    requires |data| == n * w && InRange(window, n) && out.Length == |window| * w
    modifies out
    ensures out[..] == Gather(data, w, n, window)
  {
    for i := 0 to out.Length
      invariant out[..i] == Gather(data, w, n, window)[..i]
    {
      CellOf(w, |window|, i);
      GatherAt(data, w, n, window, i / w, i % w);
      out[i] := data[window[i / w] * w + i % w];
    }
  }

  function Offset(dims: seq<nat>, p: nat): nat
    requires p <= |dims|
  {
    if p == 0 then 0 else Offset(dims, p - 1) + dims[p - 1]
  }

  lemma {:induction false} OffsetMonotone(dims: seq<nat>, p: nat, q: nat)
    requires p <= q <= |dims|
    ensures Offset(dims, p) <= Offset(dims, q)
  {
    if p < q {
      OffsetMonotone(dims, p, q - 1);
    }
  }

  /** The slices named by part p's share of the sorted positions. */
  function Share<T>(data: seq<T>, w: nat, n: nat, order: seq<int>, dims: seq<nat>, p: nat): (part: seq<T>)
    requires |data| == n * w && InRange(order, n) && p < |dims| && Offset(dims, |dims|) <= |order|
    ensures |part| == dims[p] * w
  {
    OffsetMonotone(dims, p + 1, |dims|);
    Gather(data, w, n, order[Offset(dims, p)..Offset(dims, p) + dims[p]])
  }

  /** The first p outputs hold what is wanted of them. */
  ghost predicate Filled<T>(outs: seq<array<T>>, want: seq<seq<T>>, p: nat)
    requires p <= |outs| == |want|
    reads set q | 0 <= q < |outs| :: outs[q]
  {
    forall q | 0 <= q < p :: outs[q][..] == want[q]
  }

  /** One slice into its own output; the outputs before it stay as they are. */
  method GatherPart<T>(data: seq<T>, w: nat, n: nat, order: seq<int>, dims: seq<nat>, p: nat, base: nat,
                       outs: seq<array<T>>, ghost want: seq<seq<T>>)
    requires |data| == n * w && InRange(order, n) && p < |dims| == |outs| == |want| && Offset(dims, |dims|) <= |order|
    requires base == Offset(dims, p) && outs[p].Length == |want[p]| && Distinct(outs)
    requires want[p] == Share(data, w, n, order, dims, p) && Filled(outs, want, p)
    modifies outs[p]
    ensures Filled(outs, want, p + 1)
    ensures base + dims[p] == Offset(dims, p + 1)
  {
    OffsetMonotone(dims, p + 1, |dims|);
    if outs[p].Length > 0 {
      GatherKernel(data, w, n, order[base..base + dims[p]], outs[p]);
    }
  }

  /** Gather slice after slice of the sorted positions; the base pointer moves on by each part's count. */
  method GatherSlices<T>(data: seq<T>, w: nat, n: nat, order: seq<int>, dims: seq<nat>, outs: seq<array<T>>,
                         ghost want: seq<seq<T>>)
    requires |data| == n * w && InRange(order, n) && Offset(dims, |dims|) <= |order|
    requires |outs| == |dims| == |want| && Distinct(outs)
    requires forall p | 0 <= p < |dims| :: want[p] == Share(data, w, n, order, dims, p) && outs[p].Length == |want[p]|
    modifies set p | 0 <= p < |outs| :: outs[p]
    ensures Filled(outs, want, |outs|)
  {
    var base: nat := 0;
    var p: nat := 0;
    while p < |dims|
      invariant p <= |dims| && base == Offset(dims, p) && Filled(outs, want, p)
    {
      GatherPart(data, w, n, order, dims, p, base, outs, want);
      base := base + dims[p];
      p := p + 1;
    }
  }

  /** With the pipeline's counts, the offsets are the moving base. */
  lemma {:induction false} OffsetIsBase(keys: seq<int>, num: nat, dims: seq<nat>, p: nat)
    requires |dims| == num && p <= num && forall q: nat | q < num :: dims[q] == GpuCount(keys, num, q)
    ensures Offset(dims, p) == Base(keys, num, p)
  {
    if p != 0 {
      OffsetIsBase(keys, num, dims, p - 1);
    }
  }

  /** The counts brought to the host, with the sorted positions; together they never exceed the input. */
  method PartitionCounts(ids: seq<int>, num: nat) returns (dims: seq<nat>, order: seq<int>)
    requires AllInt32(ids)
    ensures IsStableSort(ids, order)
    ensures |dims| == num && forall p: nat | p < num :: dims[p] == GpuCount(KeysOf(ids, order), num, p)
    ensures Offset(dims, num) <= |ids|
  {
    var counts;
    counts, order := CountAndSortParts(ids, num);
    dims := [];
    for p := 0 to num
      invariant |dims| == p
      invariant forall q: nat | q < p :: dims[q] == GpuCount(KeysOf(ids, order), num, q)
    {
      assert counts[p] == GpuCount(KeysOf(ids, order), num, p);
      dims := dims + [counts[p]];
    }
    OffsetIsBase(KeysOf(ids, order), num, dims, num);
    BaseBound(KeysOf(ids, order), num, num);
  }

  /** The part p of the GPU output, as slices of the input. */
  ghost function GpuPart<T>(data: seq<T>, w: nat, ids: seq<int>, order: seq<int>, num: nat, p: nat): seq<T>
    requires |data| == |ids| * w && IsStableSort(ids, order)
  {
    Gather(data, w, |ids|, Window(ids, order, num, p))
  }

  /** Element c of slice k of GPU part p is that of the slice its window names at k. */
  lemma GpuPartAt<T>(data: seq<T>, w: nat, ids: seq<int>, order: seq<int>, num: nat, p: nat, k: nat, c: nat)
    requires |data| == |ids| * w && IsStableSort(ids, order) && k < |Window(ids, order, num, p)| && c < w
    ensures var i, part := Window(ids, order, num, p)[k], GpuPart(data, w, ids, order, num, p);
            0 <= i * w + c < |data| && 0 <= k * w + c < |part| && part[k * w + c] == data[i * w + c]
  {
    GatherAt(data, w, |ids|, Window(ids, order, num, p), k, c);
  }

  /** For non-negative ids the GPU parts are the CPU parts of the input without its out-of-range rows,
      which are also the CPU parts as they stand when all ids are in range. */
  lemma GpuAgreesWithCpu<T>(data: seq<T>, w: nat, ids: seq<int>, order: seq<int>, num: nat, p: nat)
    requires |data| == |ids| * w && IsStableSort(ids, order) && p < num
    requires forall i | 0 <= i < |ids| :: 0 <= ids[i]
    ensures var rows := InRangePositions(ids, num);
            && GpuPart(data, w, ids, order, num, p) == Part(Gather(data, w, |ids|, rows), w, KeysOf(ids, rows), p)
            && GpuPart(data, w, ids, order, num, p) == Part(data, w, ids, p)
  {
    NonNegativeWindow(ids, order, num, p);
    RemovingRowsKeepsParts(data, w, ids, num, p);
  }

  function Iota(n: nat): (s: seq<int>)
    ensures |s| == n && forall i | 0 <= i < n :: s[i] == i
  {
    seq(n, i => i)
  }

  lemma {:induction false} GatherIota(n: nat, idx: seq<int>)
    requires InRange(idx, n)
    ensures Gather(Iota(n), 1, n, idx) == idx
  {
    forall k | 0 <= k < |idx|
      ensures Gather(Iota(n), 1, n, idx)[k] == idx[k]
    {
      GatherAt(Iota(n), 1, n, idx, k, 0);
    }
  }

  /** The partition of the row numbers themselves, which the gradient takes: GPU and CPU give the same
      parts exactly when no id is negative or no id is in range. */
  lemma RowNumbersPartitionAlikeExactly(ids: seq<int>, order: seq<int>, num: nat)
    requires IsStableSort(ids, order)
    ensures (forall p: nat | p < num :: GpuPart(Iota(|ids|), 1, ids, order, num, p) == Part(Iota(|ids|), 1, ids, p))
       <==> (forall i | 0 <= i < |ids| :: 0 <= ids[i]) || (forall i | 0 <= i < |ids| :: !(0 <= ids[i] < num))
  {
    WindowsAreExact(ids, order, num);
    forall p: nat | p < num
      ensures GpuPart(Iota(|ids|), 1, ids, order, num, p) == Window(ids, order, num, p)
      ensures Part(Iota(|ids|), 1, ids, p) == Positions(ids, p)
    {
      GatherIota(|ids|, Window(ids, order, num, p));
      GatherIota(|ids|, Positions(ids, p));
    }
  }

  lemma ShareIsGpuPart<T>(data: seq<T>, w: nat, ids: seq<int>, order: seq<int>, dims: seq<nat>, p: nat, out: seq<T>)
    requires |data| == |ids| * w && IsStableSort(ids, order) && p < |dims|
    requires forall q: nat | q < |dims| :: dims[q] == GpuCount(KeysOf(ids, order), |dims|, q)
    requires Offset(dims, |dims|) <= |order| && out == Share(data, w, |ids|, order, dims, p)
    ensures out == GpuPart(data, w, ids, order, |dims|, p) && dims[p] == |Window(ids, order, |dims|, p)|
  {
    OffsetIsBase(KeysOf(ids, order), |dims|, dims, p);
  }

  /** Everything after the checks, for a non-empty input. */
  method PartitionRows<T(0)>(data: seq<T>, w: nat, ids: seq<int>, num: nat)
    returns (dims: seq<nat>, outs: seq<array<T>>, ghost order: seq<int>)
    requires |data| == |ids| * w && AllInt32(ids)
    ensures IsStableSort(ids, order) && |dims| == |outs| == num
    ensures forall p: nat | p < num ::
              dims[p] == |Window(ids, order, num, p)| && outs[p][..] == GpuPart(data, w, ids, order, num, p)
  {
    var sorted;
    dims, sorted := PartitionCounts(ids, num);
    order := sorted;
    outs := AllocateOutputs(dims, w);
    ghost var want := seq(num, p requires 0 <= p < num => Share(data, w, |ids|, sorted, dims, p));
    GatherSlices(data, w, |ids|, sorted, dims, outs, want);
    forall p: nat | p < num
      ensures dims[p] == |Window(ids, order, num, p)| && outs[p][..] == GpuPart(data, w, ids, order, num, p)
    {
      ShareIsGpuPart(data, w, ids, order, dims, p, want[p]);
      assert outs[p][..] == want[p];
    }
  }

  /** The same for any input: an empty one gets empty parts without a launch. */
  method PartitionFlat<T(0)>(data: seq<T>, w: nat, ids: seq<int>, num: nat)
    returns (dims: seq<nat>, outs: seq<array<T>>, ghost order: seq<int>)
    requires |data| == |ids| * w && (|ids| > 0 ==> |data| / |ids| == w) && AllInt32(ids)
    ensures IsStableSort(ids, order) && |dims| == |outs| == num
    ensures forall p: nat | p < num ::
              dims[p] == |Window(ids, order, num, p)| && outs[p][..] == GpuPart(data, w, ids, order, num, p)
  {
    if |ids| == 0 {
      dims := seq(num, _ => 0);
      outs := AllocateOutputs(dims, w);
      order := [];
    } else {
      dims, outs, order := PartitionRows(data, |data| / |ids|, ids, num);
    }
  }

  /** One part, as the operator returns it. */
  ghost predicate GpuOutput<T>(out: seq<T>, shape: seq<nat>, data: Tensor<T>, partitions: Tensor<int>,
                               order: seq<int>, num: nat, p: nat)
    requires StartsWith(data.shape, partitions.shape) && IsStableSort(partitions.flat, order)
    requires |data.flat| == |partitions.flat| * SliceSize(data.shape, partitions.shape)
  {
    && shape == PartShape(|Window(partitions.flat, order, num, p)|, data.shape, partitions.shape)
    && |out| == Product(shape)
    && out == GpuPart(data.flat, SliceSize(data.shape, partitions.shape), partitions.flat, order, num, p)
  }

  /** The parts and their shapes, once the arguments are checked. */
  method PartitionChecked<T(0)>(data: Tensor<T>, partitions: Tensor<int>, num: nat)
    returns (shapes: seq<seq<nat>>, outs: seq<array<T>>, ghost order: seq<int>)
    requires data.Valid() && partitions.Valid() && AllInt32(partitions.flat)
    requires StartsWith(data.shape, partitions.shape)
    ensures IsStableSort(partitions.flat, order) && |shapes| == |outs| == num
    ensures |data.flat| == |partitions.flat| * SliceSize(data.shape, partitions.shape)
    ensures forall p: nat | p < num :: GpuOutput(outs[p][..], shapes[p], data, partitions, order, num, p)
  {
    SliceSizeDivides(data, partitions);
    var w := SliceSize(data.shape, partitions.shape);
    var dims;
    dims, outs, order := PartitionFlat(data.flat, w, partitions.flat, num);
    shapes := ShapesOf(dims, data.shape, partitions.shape);
  }

  /** The GPU operator. The sorted positions it used are returned to state its result. */
  method PartitionGpu<T(0)>(data: Tensor<T>, partitions: Tensor<int>, num: nat)
    returns (status: Status, shapes: seq<seq<nat>>, outs: seq<array<T>>, ghost order: seq<int>)
    requires data.Valid() && partitions.Valid() && AllInt32(partitions.flat)
    ensures status == if num < 1 then NoPartitions
                      else if !(|partitions.shape| <= |data.shape|
                                && forall i | 0 <= i < |partitions.shape| :: data.shape[i] == partitions.shape[i])
                      then DataDoesNotStartWithPartitions
                      else Ok
    ensures status == Ok ==>
              && IsStableSort(partitions.flat, order)
              && |data.flat| == |partitions.flat| * SliceSize(data.shape, partitions.shape)
              && |shapes| == |outs| == num
              && forall p: nat | p < num ::
                   && |shapes[p]| == 1 + |data.shape| - |partitions.shape|
                   && shapes[p][0] == |Window(partitions.flat, order, num, p)|
                   && (forall i | 1 <= i < |shapes[p]| :: shapes[p][i] == data.shape[|partitions.shape| + i - 1])
                   && outs[p].Length == Product(shapes[p])
                   && outs[p][..] == GpuPart(data.flat, SliceSize(data.shape, partitions.shape),
                                             partitions.flat, order, num, p)
  {
    shapes, outs, order := [], [], [];
    if num < 1 {
      return NoPartitions, shapes, outs, order;
    }
    if !StartsWith(data.shape, partitions.shape) {
      return DataDoesNotStartWithPartitions, shapes, outs, order;
    }
    status := Ok;
    shapes, outs, order := PartitionChecked(data, partitions, num);
  }
}
