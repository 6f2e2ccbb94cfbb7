/** Dynamic partition: the two CPU loops (count, then scatter) against a specification by positions. */
module Partition {
  import opened Tensors

  /** The positions that hold id p, in order. */
  function Positions(ids: seq<int>, p: int): (pos: seq<int>)
    ensures InRange(pos, |ids|)
  {
    if ids == [] then [] else
      var n := |ids| - 1;
      if ids[n] == p then Positions(ids[..n], p) + [n] else Positions(ids[..n], p)
  }

  lemma {:induction false} PositionsSpec(ids: seq<int>, p: int)
    ensures Rising(Positions(ids, p))
    ensures forall i :: i in Positions(ids, p) <==> 0 <= i < |ids| && ids[i] == p
  {
    if ids != [] {
      var n := |ids| - 1;
      PositionsSpec(ids[..n], p);
      RisingSnoc(Positions(ids[..n], p), n);
    }
  }

  lemma {:induction false} PositionsPrefix(ids: seq<int>, k: nat, p: int)
    requires k <= |ids|
    ensures Positions(ids[..k], p) <= Positions(ids, p)
  {
    if k == |ids| {
      assert ids[..k] == ids;
    } else {
      PositionsPrefix(ids[..|ids| - 1], k, p);
      assert ids[..|ids| - 1][..k] == ids[..k];
    }
  }

  lemma PositionsStep(ids: seq<int>, i: nat, p: int)
    requires i < |ids|
    ensures Positions(ids[..i + 1], p) == if ids[i] == p then Positions(ids[..i], p) + [i] else Positions(ids[..i], p)
    ensures |Positions(ids[..i + 1], p)| <= |Positions(ids, p)|
  {
    assert ids[..i + 1][..i] == ids[..i];
    PositionsPrefix(ids, i + 1, p);
  }

  lemma GatherSnoc<T>(x: seq<T>, w: nat, rows: nat, idx: seq<int>, i: nat)
    requires |x| == rows * w && InRange(idx, rows) && i < rows
    ensures Gather(x, w, rows, idx + [i]) == Gather(x, w, rows, idx) + Row(x, w, rows, i)
  {
    assert (idx + [i])[..|idx|] == idx;
  }

  datatype Status =
    | Ok
    | NoPartitions
    | DataDoesNotStartWithPartitions
    | OutOfRange(position: nat)

  predicate FirstOutOfRange(ids: seq<int>, num: nat, i: nat) {
    i < |ids| && !(0 <= ids[i] < num) && forall k | 0 <= k < i :: 0 <= ids[k] < num
  }

  /** Elements of one slice: the extra dimensions of data behind those of partitions. */
  function SliceSize(data: seq<nat>, partitions: seq<nat>): nat
    requires StartsWith(data, partitions)
  {
    Product(data[|partitions|..])
  }

  lemma DivideBack(n: nat, w: nat)
    requires 0 < n
    ensures n * w / n == w
  {
    assert w * n + 0 == n * w;
    CellSplit(n, w, 0);
  }

  lemma SliceSizeDivides<T>(data: Tensor<T>, partitions: Tensor<int>)
    requires data.Valid() && partitions.Valid() && StartsWith(data.shape, partitions.shape)
    ensures |data.flat| == |partitions.flat| * SliceSize(data.shape, partitions.shape)
    ensures |partitions.flat| > 0 ==> |data.flat| / |partitions.flat| == SliceSize(data.shape, partitions.shape)
  {
    var p := |partitions.shape|;
    assert data.shape == partitions.shape + data.shape[p..];
    ProductConcat(partitions.shape, data.shape[p..]);
    if |partitions.flat| > 0 {
      DivideBack(|partitions.flat|, SliceSize(data.shape, partitions.shape));
    }
  }

  /** Part p of the specification: the slices at the positions that hold p. */
  function Part<T>(data: seq<T>, w: nat, ids: seq<int>, p: int): (part: seq<T>)
    requires |data| == |ids| * w
    ensures |part| == |Positions(ids, p)| * w
  {
    Gather(data, w, |ids|, Positions(ids, p))
  }

  /** Element c of slice k of part p is that of the slice at the k-th position holding p. */
  lemma PartAt<T>(data: seq<T>, w: nat, ids: seq<int>, p: int, k: nat, c: nat)
    requires |data| == |ids| * w && k < |Positions(ids, p)| && c < w
    ensures var i := Positions(ids, p)[k];
            && 0 <= i * w + c < |data| && 0 <= k * w + c < |Part(data, w, ids, p)|
            && Part(data, w, ids, p)[k * w + c] == data[i * w + c]
  {
    GatherAt(data, w, |ids|, Positions(ids, p), k, c);
  }

  /** The dimensions of a part: its count, then those of a slice. */
  function PartShape(count: nat, data: seq<nat>, partitions: seq<nat>): (shape: seq<nat>)
    requires StartsWith(data, partitions)
    ensures |shape| == 1 + |data| - |partitions| && shape[0] == count
    ensures forall i | 1 <= i < |shape| :: shape[i] == data[|partitions| + i - 1]
    ensures Product(shape) == count * SliceSize(data, partitions)
  {
    ProductOf(count, [count], data[|partitions|..]);
    [count] + data[|partitions|..]
  }

  method ShapesOf(counts: seq<nat>, data: seq<nat>, partitions: seq<nat>) returns (shapes: seq<seq<nat>>)
    requires StartsWith(data, partitions)
    ensures |shapes| == |counts|
    ensures forall p | 0 <= p < |counts| :: shapes[p] == PartShape(counts[p], data, partitions)
  {
    shapes := [];
    for p := 0 to |counts|
      invariant |shapes| == p
      invariant forall q | 0 <= q < p :: shapes[q] == PartShape(counts[q], data, partitions)
    {
      shapes := shapes + [PartShape(counts[p], data, partitions)];
    }
  }

  /** Count the occurrences of every id; stop at the first id out of range. */
  method CountIds(ids: seq<int>, num: nat) returns (status: Status, counts: seq<nat>)
    ensures status == Ok || (status.OutOfRange? && FirstOutOfRange(ids, num, status.position))
    ensures status == Ok ==> InRange(ids, num) && |counts| == num
                             && forall p | 0 <= p < num :: counts[p] == |Positions(ids, p)|
  {
    counts := seq(num, _ => 0);
    var i := 0;
    while i < |ids|
      invariant 0 <= i <= |ids| && |counts| == num
      invariant forall k | 0 <= k < i :: 0 <= ids[k] < num
      invariant forall p | 0 <= p < num :: counts[p] == |Positions(ids[..i], p)|
    {
      var p := ids[i];
      if !(0 <= p < num) {
        return OutOfRange(i), counts;
      }
      forall q | 0 <= q < num
        ensures |Positions(ids[..i + 1], q)| == counts[q] + if q == p then 1 else 0
      {
        PositionsStep(ids, i, q);
      }
      counts := counts[p := counts[p] + 1];
      i := i + 1;
    }
    assert ids[..i] == ids;
    status := Ok;
  }

  ghost predicate Distinct<T>(outs: seq<array<T>>) {
    forall p, q | 0 <= p < q < |outs| :: outs[p] != outs[q]
  }

  method AllocateOutputs<T(0)>(counts: seq<nat>, w: nat) returns (outs: seq<array<T>>)
    ensures |outs| == |counts| && Distinct(outs)
    ensures forall p | 0 <= p < |outs| :: fresh(outs[p]) && outs[p].Length == counts[p] * w
  {
    outs := [];
    for p := 0 to |counts|
      invariant |outs| == p && Distinct(outs)
      invariant forall q | 0 <= q < p :: fresh(outs[q]) && outs[q].Length == counts[q] * w
    {
      var out := new T[counts[p] * w];
      outs := outs + [out];
    }
  }

  /** outs[p] holds, up to its write position, the slices of id p among the first i. */
  ghost predicate Scattered<T>(data: seq<T>, w: nat, ids: seq<int>, i: nat, at: nat, out: seq<T>, p: int)
    requires |data| == |ids| * w && i <= |ids|
  {
    && at == |Positions(ids[..i], p)|
    && InRange(Positions(ids[..i], p), |ids|)
    && at * w <= |out|
    && out[..at * w] == Gather(data, w, |ids|, Positions(ids[..i], p))
  }

  /** Writing slice i at its write position extends the scattered prefix. */
  lemma ScatterStep<T>(data: seq<T>, w: nat, ids: seq<int>, i: nat, at: nat, out: seq<T>, out': seq<T>)
    requires |data| == |ids| * w && i < |ids|
    requires Scattered(data, w, ids, i, at, out, ids[i])
    requires |out| == |Positions(ids, ids[i])| * w
    requires i * w + w <= |data| && at * w + w <= |out|
    requires out' == out[..at * w] + data[i * w..i * w + w] + out[at * w + w..]
    ensures Scattered(data, w, ids, i + 1, at + 1, out', ids[i])
  {
    PositionsStep(ids, i, ids[i]);
    GatherSnoc(data, w, |ids|, Positions(ids[..i], ids[i]), i);
    assert (at + 1) * w == at * w + w;
  }

  lemma RoomForSlice(ids: seq<int>, i: nat, w: nat)
    requires i < |ids|
    ensures var p := ids[i]; var at := |Positions(ids[..i], p)|;
            at < |Positions(ids, p)| && at * w + w <= |Positions(ids, p)| * w && i * w + w <= |ids| * w
  {
    PositionsStep(ids, i, ids[i]);
    RowBound(w, |Positions(ids, ids[i])|, |Positions(ids[..i], ids[i])|);
    RowBound(w, |ids|, i);
  }

  lemma ScatterSkip<T>(data: seq<T>, w: nat, ids: seq<int>, i: nat, at: nat, out: seq<T>, q: int)
    requires |data| == |ids| * w && i < |ids| && q != ids[i]
    requires Scattered(data, w, ids, i, at, out, q)
    ensures Scattered(data, w, ids, i + 1, at, out, q)
  {
    PositionsStep(ids, i, q);
  }

  /** Copy slice i behind the slices already scattered to its output. */
  method AppendSlice<T>(data: seq<T>, w: nat, ids: seq<int>, i: nat, at: nat, out: array<T>)
    requires |data| == |ids| * w && i < |ids| && out.Length == |Positions(ids, ids[i])| * w
    requires Scattered(data, w, ids, i, at, out[..], ids[i])
    modifies out
    ensures Scattered(data, w, ids, i + 1, at + 1, out[..], ids[i])
  {
    RoomForSlice(ids, i, w);
    ghost var before := out[..];
    CopySlice(out, at * w, data, i * w, w);
    ScatterStep(data, w, ids, i, at, before, out[..]);
  }

  /** Append slice i to its output; the others stay as they are. */
  method ScatterNext<T>(data: seq<T>, w: nat, ids: seq<int>, num: nat, i: nat, at: seq<nat>, outs: seq<array<T>>)
    requires |data| == |ids| * w && i < |ids| && 0 <= ids[i] < num == |at| == |outs| && Distinct(outs)
    requires outs[ids[i]].Length == |Positions(ids, ids[i])| * w
    requires forall p | 0 <= p < num :: Scattered(data, w, ids, i, at[p], outs[p][..], p)
    modifies outs[ids[i]]
    ensures forall p | 0 <= p < num ::
              Scattered(data, w, ids, i + 1, if p == ids[i] then at[p] + 1 else at[p], outs[p][..], p)
  {
    AppendSlice(data, w, ids, i, at[ids[i]], outs[ids[i]]);
    forall p | 0 <= p < num && p != ids[i]
      ensures Scattered(data, w, ids, i + 1, at[p], outs[p][..], p)
    {
      assert outs[p] != outs[ids[i]];
      ScatterSkip(data, w, ids, i, at[p], outs[p][..], p);
    }
  }

  /** Walk the input and append each slice to its output; the bounds are checked as the code does. */
  method ScatterSlices<T>(data: seq<T>, w: nat, ids: seq<int>, num: nat, outs: seq<array<T>>) returns (status: Status)
    requires |data| == |ids| * w && InRange(ids, num)
    requires |outs| == num && Distinct(outs)
    requires forall p | 0 <= p < num :: outs[p].Length == |Positions(ids, p)| * w
    modifies set p | 0 <= p < |outs| :: outs[p]
    ensures status == Ok
    ensures forall p | 0 <= p < num :: outs[p][..] == Part(data, w, ids, p)
  {
    var outputIndex: seq<nat> := seq(num, _ => 0);
    var i: nat := 0;
    while i < |ids|
      invariant i <= |ids| && |outputIndex| == num
      invariant forall p | 0 <= p < num :: Scattered(data, w, ids, i, outputIndex[p], outs[p][..], p)
    {
      var p := ids[i];
      if !(0 <= p < num) {
        return OutOfRange(i);
      }
      var at := outputIndex[p];
      RoomForSlice(ids, i, w);
      if outs[p].Length < at * w + w {
        return OutOfRange(i);
      }
      ScatterNext(data, w, ids, num, i, outputIndex, outs);
      outputIndex := outputIndex[p := at + 1];
      i := i + 1;
    }
    forall p | 0 <= p < num
      ensures outs[p][..] == Part(data, w, ids, p)
    {
      assert ids[..i] == ids;
      assert Scattered(data, w, ids, i, outputIndex[p], outs[p][..], p);
    }
    status := Ok;
  }

  /** The CPU operator. */
  method PartitionCpu<T(0)>(data: Tensor<T>, partitions: Tensor<int>, num: nat)
    returns (status: Status, shapes: seq<seq<nat>>, outs: seq<array<T>>)
    requires data.Valid() && partitions.Valid()
    ensures status == DataDoesNotStartWithPartitions <==>
              !(|partitions.shape| <= |data.shape|
                && forall i | 0 <= i < |partitions.shape| :: data.shape[i] == partitions.shape[i])
    ensures status != DataDoesNotStartWithPartitions ==>
              && (status == Ok <==> forall i | 0 <= i < |partitions.flat| :: 0 <= partitions.flat[i] < num)
              && (status != Ok ==> status.OutOfRange? && FirstOutOfRange(partitions.flat, num, status.position))
    ensures status == Ok ==>
              && |data.flat| == |partitions.flat| * SliceSize(data.shape, partitions.shape)
              && |shapes| == |outs| == num
              && forall p | 0 <= p < num ::
                   && |shapes[p]| == 1 + |data.shape| - |partitions.shape|
                   && shapes[p][0] == |Positions(partitions.flat, p)|
                   && (forall i | 1 <= i < |shapes[p]| :: shapes[p][i] == data.shape[|partitions.shape| + i - 1])
                   && outs[p].Length == Product(shapes[p])
                   && outs[p][..] == Part(data.flat, SliceSize(data.shape, partitions.shape), partitions.flat, p)
  {
    shapes, outs := [], [];
    if !StartsWith(data.shape, partitions.shape) {
      return DataDoesNotStartWithPartitions, shapes, outs;
    }
    SliceSizeDivides(data, partitions);
    var counts;
    status, counts := CountIds(partitions.flat, num);
    if status != Ok {
      return;
    }
    shapes := ShapesOf(counts, data.shape, partitions.shape);
    outs := AllocateOutputs(counts, SliceSize(data.shape, partitions.shape));
    if num == 0 || |data.flat| == 0 {
      NoElements(data, partitions, num, outs);
      return;
    }
    var w := |data.flat| / |partitions.flat|;
    status := ScatterSlices(data.flat, w, partitions.flat, num, outs);
  }

  lemma NoSlices(ids: seq<int>, w: nat, p: int)
    requires |ids| * w == 0
    ensures |Positions(ids, p)| * w == 0
  {
    if w > 0 {
      assert |ids| * w >= |ids|;
    }
  }

  lemma NoElements<T>(data: Tensor<T>, partitions: Tensor<int>, num: nat, outs: seq<array<T>>)
    requires data.Valid() && partitions.Valid() && StartsWith(data.shape, partitions.shape)
    requires |data.flat| == |partitions.flat| * SliceSize(data.shape, partitions.shape)
    requires num == 0 || |data.flat| == 0
    requires |outs| == num
    requires forall p | 0 <= p < num ::
               outs[p].Length == |Positions(partitions.flat, p)| * SliceSize(data.shape, partitions.shape)
    ensures forall p | 0 <= p < num ::
              outs[p][..] == Part(data.flat, SliceSize(data.shape, partitions.shape), partitions.flat, p)
  {
    var w := SliceSize(data.shape, partitions.shape);
    forall p | 0 <= p < num
      ensures outs[p][..] == Part(data.flat, w, partitions.flat, p)
    {
      NoSlices(partitions.flat, w, p);
    }
  }
}
