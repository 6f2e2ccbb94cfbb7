/** The four stitch operators over tensors: serial and thread-pool CPU, table-driven GPU, fast GPU. */
module StitchOps {
  import opened Tensors
  import opened Interleave
  import opened Stitch
  import opened StitchRaces

  datatype Input = Input(indices: Tensor<int>, data: Tensor<real>) {
    predicate Valid() {
      indices.Valid() && data.Valid()
    }
  }

  datatype Status =
    | Ok
    | DataDoesNotStartWithIndices(input: nat)
    | ExtraShapeDiffers(input: nat)
    | IndexOutOfRange

  predicate Prefixed(x: Input) {
    StartsWith(x.data.shape, x.indices.shape)
  }

  /** The dimensions of data behind those of indices. */
  function Extra(x: Input): (extra: seq<nat>)
    requires Prefixed(x)
    ensures x.data.shape == x.indices.shape + extra
  {
    x.data.shape[|x.indices.shape|..]
  }

  predicate ShapesAgree(xs: seq<Input>) {
    && (forall a | 0 <= a < |xs| :: Prefixed(xs[a]))
    && (forall a | 0 <= a < |xs| :: Extra(xs[a]) == Extra(xs[0]))
  }

  function Flatten(xs: seq<Input>): (rows: seq<Rows>)
    ensures |rows| == |xs|
  {
    seq(|xs|, a requires 0 <= a < |xs| => Rows(xs[a].indices.flat, xs[a].data.flat))
  }

  function SliceSize(xs: seq<Input>): nat
    requires xs != [] && Prefixed(xs[0])
  {
    Product(Extra(xs[0]))
  }

  /** The shape of a result with so many rows: the dimensions behind the first are those of a slice. */
  function ResultShape(rows: nat, xs: seq<Input>): (shape: seq<nat>)
    requires xs != [] && Prefixed(xs[0])
    ensures var d, i := xs[0].data.shape, xs[0].indices.shape;
            && |i| <= |d| && |shape| == 1 + |d| - |i| && shape[0] == rows
            && forall k | 1 <= k < |shape| :: shape[k] == d[|i| + k - 1]
    ensures Product(shape) == rows * SliceSize(xs)
  {
    ProductOf(rows, [rows], Extra(xs[0]));
    [rows] + Extra(xs[0])
  }

  lemma FlattenFits(xs: seq<Input>)
    requires xs != [] && (forall a | 0 <= a < |xs| :: xs[a].Valid()) && ShapesAgree(xs)
    ensures Fits(Flatten(xs), SliceSize(xs))
  {
    forall a | 0 <= a < |xs|
      ensures |xs[a].data.flat| == |xs[a].indices.flat| * SliceSize(xs)
    {
      var x := xs[a];
      assert Prefixed(x) && Extra(x) == Extra(xs[0]);
      assert x.data.shape == x.indices.shape + Extra(x);
      ProductConcat(x.indices.shape, Extra(x));
    }
  }

  // ---------- argument checks ----------

  /** Whether the dimensions of data behind those of the indices are the same for two inputs. */
  method SameExtraShape(data0: seq<nat>, indices0: seq<nat>, data1: seq<nat>, indices1: seq<nat>) returns (same: bool)
    requires |indices0| <= |data0| && |indices1| <= |data1|
    ensures same <==> data0[|indices0|..] == data1[|indices1|..]
  {
    var extra0, extra1 := |data0| - |indices0|, |data1| - |indices1|;
    if extra0 != extra1 {
      return false;
    }
    var e0, e1 := data0[|indices0|..], data1[|indices1|..];
    for i := 0 to extra0
      invariant e0[..i] == e1[..i]
    {
      if data0[|indices0| + i] != data1[|indices1| + i] {
        assert e0[i] != e1[i];
        return false;
      }
    }
    return true;
  }

  /** The first input whose shapes are wrong, and how. */
  ghost predicate FirstFault(xs: seq<Input>, status: Status) {
    match status
    case Ok => ShapesAgree(xs)
    case DataDoesNotStartWithIndices(a) => a < |xs| && !Prefixed(xs[a]) && ShapesAgree(xs[..a])
    case ExtraShapeDiffers(a) =>
      0 < a < |xs| && ShapesAgree(xs[..a]) && Prefixed(xs[a]) && Prefixed(xs[0]) && Extra(xs[a]) != Extra(xs[0])
    case IndexOutOfRange => false
  }

  method CheckShapes(xs: seq<Input>) returns (status: Status)
    ensures FirstFault(xs, status)
  {
    var a: nat := 0;
    while a < |xs|
      invariant a <= |xs| && ShapesAgree(xs[..a])
    {
      if !StartsWith(xs[a].data.shape, xs[a].indices.shape) {
        return DataDoesNotStartWithIndices(a);
      }
      assert a > 0 ==> xs[..a][0] == xs[0] && Prefixed(xs[..a][0]);
      if a != 0 {
        var same := SameExtraShape(xs[0].data.shape, xs[0].indices.shape, xs[a].data.shape, xs[a].indices.shape);
        if !same {
          return ExtraShapeDiffers(a);
        }
      }
      assert xs[..a + 1] == xs[..a] + [xs[a]];
      a := a + 1;
    }
    assert xs[..a] == xs;
    status := Ok;
  }

  /** The data of the two inputs have the same dimensions behind those of their indices. */
  ghost predicate SameBehind(x: Input, y: Input) {
    var d, i, d', i' := x.data.shape, x.indices.shape, y.data.shape, y.indices.shape;
    |i| <= |d| && |i'| <= |d'| && |d| - |i| == |d'| - |i'|
    && forall m | |i| <= m < |d| :: d[m] == d'[m - |i| + |i'|]
  }

  lemma ExtraExactly(x: Input, y: Input)
    requires Prefixed(x) && Prefixed(y)
    ensures Extra(x) == Extra(y) <==> SameBehind(x, y)
  {
    var e, e' := Extra(x), Extra(y);
    assert forall m | |x.indices.shape| <= m < |x.data.shape| :: x.data.shape[m] == e[m - |x.indices.shape|];
    assert forall k | 0 <= k < |e'| :: e'[k] == y.data.shape[|y.indices.shape| + k];
    if SameBehind(x, y) {
      forall k | 0 <= k < |e|
        ensures e[k] == e'[k]
      {
        assert x.data.shape[|x.indices.shape| + k] == e[k];
      }
    }
  }

  /** What each result of the checks says of the dimensions: of the inputs before the first faulty one, or of all
      of them, data starts with the dimensions of the indices and has those of the first input behind. */
  lemma FaultsExactly(xs: seq<Input>, status: Status)
    requires FirstFault(xs, status)
    ensures var bad := match status
                       case Ok => |xs|
                       case DataDoesNotStartWithIndices(a) => a
                       case ExtraShapeDiffers(a) => a
                       case IndexOutOfRange => 0;
            && bad <= |xs|
            && (forall a | 0 <= a < bad :: xs[a].indices.shape <= xs[a].data.shape && SameBehind(xs[a], xs[0]))
            && (status.DataDoesNotStartWithIndices? ==> bad < |xs| && !(xs[bad].indices.shape <= xs[bad].data.shape))
            && (status.ExtraShapeDiffers? ==> 0 < bad < |xs| && xs[bad].indices.shape <= xs[bad].data.shape
                                              && !SameBehind(xs[bad], xs[0]))
  {
    var bad := match status
               case Ok => |xs|
               case DataDoesNotStartWithIndices(a) => a
               case ExtraShapeDiffers(a) => a
               case IndexOutOfRange => 0;
    forall a | 0 <= a < bad
      ensures xs[a].indices.shape <= xs[a].data.shape && SameBehind(xs[a], xs[0])
    {
      assert xs[..bad][a] == xs[a] && xs[..bad][0] == xs[0] && (status == Ok ==> xs[..bad] == xs);
      assert Prefixed(xs[..bad][a]) && Prefixed(xs[..bad][0]) && Extra(xs[..bad][a]) == Extra(xs[..bad][0]);
      ExtraExactly(xs[a], xs[0]);
    }
    if status.ExtraShapeDiffers? {
      ExtraExactly(xs[bad], xs[0]);
    }
  }

  lemma {:induction false} MaxIndexConcat(a: seq<int>, b: seq<int>)
    ensures MaxIndex(a + b) == if MaxIndex(a) < MaxIndex(b) then MaxIndex(b) else MaxIndex(a)
  {
    if b == [] {
      assert a + b == a;
    } else {
      MaxIndexConcat(a, b[..|b| - 1]);
      assert (a + b)[..|a + b| - 1] == a + b[..|b| - 1];
    }
  }

  /** The larger of a maximum so far and one input's indices. */
  method MaxOf(ids: seq<int>, before: int) returns (max: int)
    requires -1 <= before
    ensures max == if before < MaxIndex(ids) then MaxIndex(ids) else before
  {
    max := before;
    var i := 0;
    while i < |ids|
      invariant 0 <= i <= |ids|
      invariant max == if before < MaxIndex(ids[..i]) then MaxIndex(ids[..i]) else before
    {
      assert ids[..i + 1][..i] == ids[..i];
      if max < ids[i] {
        max := ids[i];
      }
      i := i + 1;
    }
    assert ids[..i] == ids;
  }

  /** Largest index over all inputs, starting from -1. */
  method FindMaxIndex(xs: seq<Rows>) returns (max: int)
    ensures max == MaxIndex(FlatIds(xs))
  {
    max := -1;
    var a := 0;
    while a < |xs|
      invariant 0 <= a <= |xs| && max == MaxIndex(FlatIds(xs[..a]))
    {
      max := MaxOf(xs[a].ids, max);
      MaxIndexConcat(FlatIds(xs[..a]), xs[a].ids);
      assert xs[..a + 1][..a] == xs[..a];
      a := a + 1;
    }
    assert xs[..a] == xs;
  }

  // ---------- serial ----------

  /** Copy one row to the output row its index names. */
  method CopyRow(merged: array<real>, w: nat, rows: nat, index: int, source: seq<real>, from: nat,
                 ghost init: seq<real>, ghost ids: seq<int>, ghost data: seq<real>, ghost clean: bool)
    requires merged.Length == |init| == rows * w && |data| == |ids| * w && 0 <= index < rows && from + w <= |source|
    requires clean ==> merged[..] == Stitched(init, w, rows, ids, data)
    modifies merged
    ensures |data + source[from..from + w]| == |ids + [index]| * w
    ensures clean ==> merged[..] == Stitched(init, w, rows, ids + [index], data + source[from..from + w])
  {
    RowBound(w, rows, index);
    StitchedSnoc(init, w, rows, ids, data, index, source[from..from + w]);
    CopySlice(merged, index * w, source, from, w);
  }

  /** One more row of an input behind the rows before it. */
  lemma NextInputRow(x: Rows, w: nat, i: nat, ids: seq<int>, data: seq<real>)
    requires |x.data| == |x.ids| * w && i < |x.ids|
    ensures 0 <= i * w <= i * w + w == (i + 1) * w <= |x.data|
    ensures ids + x.ids[..i + 1] == ids + x.ids[..i] + [x.ids[i]]
    ensures data + x.data[..(i + 1) * w] == data + x.data[..i * w] + x.data[i * w..i * w + w]
  {
    RowBound(w, |x.ids|, i);
    Distribute(i, 1, w);
  }

  /** Copy one input's rows, stopping at the first index out of range. */
  method CopyInput(x: Rows, w: nat, rows: nat, merged: array<real>,
                   ghost init: seq<real>, ghost ids: seq<int>, ghost data: seq<real>, ghost clean: bool)
    returns (bad: bool)
    requires |x.data| == |x.ids| * w && merged.Length == |init| == rows * w && |data| == |ids| * w
    requires clean ==> merged[..] == Stitched(init, w, rows, ids, data)
    modifies merged
    ensures !bad <==> InRange(x.ids, rows)
    ensures |data + x.data| == |ids + x.ids| * w
    ensures clean && !bad ==> merged[..] == Stitched(init, w, rows, ids + x.ids, data + x.data)
  {
    Distribute(|ids|, |x.ids|, w);
    var i: nat := 0;
    assert ids + x.ids[..0] == ids && data + x.data[..0 * w] == data;
    while i < |x.ids|
      invariant i <= |x.ids| && i * w <= |x.data| && InRange(x.ids[..i], rows)
      invariant |data + x.data[..i * w]| == |ids + x.ids[..i]| * w
      invariant clean ==> merged[..] == Stitched(init, w, rows, ids + x.ids[..i], data + x.data[..i * w])
    {
      var index := x.ids[i];
      if !(0 <= index < rows) {
        return true;
      }
      NextInputRow(x, w, i, ids, data);
      CopyRow(merged, w, rows, index, x.data, i * w, init, ids + x.ids[..i], data + x.data[..i * w], clean);
      i := i + 1;
    }
    assert x.ids[..i] == x.ids && x.data[..i * w] == x.data;
    return false;
  }

  lemma InRangeSnoc(xs: seq<Rows>, a: nat, rows: nat)
    requires a < |xs|
    ensures IdsInRange(xs[..a + 1], rows) <==> IdsInRange(xs[..a], rows) && InRange(xs[a].ids, rows)
  {
    assert xs[..a + 1] == xs[..a] + [xs[a]];
    if IdsInRange(xs[..a + 1], rows) {
      assert forall b | 0 <= b < a :: xs[..a][b] == xs[..a + 1][b];
      assert InRange(xs[..a + 1][a].ids, rows);
    }
  }

  /** One input after the other. An index out of range ends its input and fails the call. */
  method StitchSerial(xs: seq<Rows>, w: nat, rows: nat, merged: array<real>) returns (status: Status)
    requires Fits(xs, w) && merged.Length == rows * w
    modifies merged
    ensures status == if IdsInRange(xs, rows) then Ok else IndexOutOfRange
    ensures |FlatData(xs)| == |FlatIds(xs)| * w
    ensures status == Ok ==> merged[..] == Stitched(old(merged[..]), w, rows, FlatIds(xs), FlatData(xs))
  {
    FlatSize(xs, w);
    ghost var init := merged[..];
    StitchedNothing(init, w, rows);
    status := Ok;
    var a := 0;
    while a < |xs|
      invariant 0 <= a <= |xs| && |FlatData(xs[..a])| == |FlatIds(xs[..a])| * w
      invariant status == if IdsInRange(xs[..a], rows) then Ok else IndexOutOfRange
      invariant status == Ok ==> merged[..] == Stitched(init, w, rows, FlatIds(xs[..a]), FlatData(xs[..a]))
    {
      var bad := CopyInput(xs[a], w, rows, merged, init, FlatIds(xs[..a]), FlatData(xs[..a]), status == Ok);
      InRangeSnoc(xs, a, rows);
      assert xs[..a + 1][..a] == xs[..a];
      if bad {
        status := IndexOutOfRange;
      }
      a := a + 1;
    }
    assert xs[..a] == xs;
  }

  // ---------- thread pool ----------

  /** How many leading indices are in range. */
  method GoodPrefix(ids: seq<int>, rows: nat) returns (k: nat)
    ensures k <= |ids| && InRange(ids[..k], rows)
    ensures k == |ids| <==> InRange(ids, rows)
  {
    k := 0;
    while k < |ids| && 0 <= ids[k] < rows
      invariant k <= |ids| && InRange(ids[..k], rows)
    {
      k := k + 1;
    }
    assert ids[..|ids|] == ids;
  }

  /** The writes of one input's thread, which stops at the first index out of range. */
  method ProgramOf(x: Rows, w: nat, rows: nat) returns (prog: seq<Write>, bad: bool)
    requires |x.data| == |x.ids| * w
    ensures InBounds(prog, rows * w)
    ensures !bad <==> InRange(x.ids, rows)
    ensures !bad ==> prog == CopyWrites(x.ids, x.data, w)
  {
    var k := GoodPrefix(x.ids, rows);
    Distribute(k, |x.ids| - k, w);
    prog := CopyWrites(x.ids[..k], x.data[..k * w], w);
    RunCopy(seq(rows * w, _ => 0.0), w, rows, x.ids[..k], x.data[..k * w]);
    bad := k < |x.ids|;
    assert !bad ==> x.ids[..k] == x.ids && x.data[..k * w] == x.data;
  }

  /** One thread for every input. */
  method ThreadsOf(xs: seq<Rows>, w: nat, rows: nat) returns (progs: seq<seq<Write>>, status: Status)
    requires Fits(xs, w)
    ensures AllInBounds(progs, rows * w)
    ensures status == if IdsInRange(xs, rows) then Ok else IndexOutOfRange
    ensures status == Ok ==> progs == Programs(xs, w)
  {
    progs, status := [], Ok;
    var a := 0;
    while a < |xs|
      invariant 0 <= a <= |xs| && |progs| == a
      invariant AllInBounds(progs, rows * w)
      invariant status == if IdsInRange(xs[..a], rows) then Ok else IndexOutOfRange
      invariant status == Ok ==> progs == Programs(xs, w)[..a]
    {
      var prog, bad := ProgramOf(xs[a], w, rows);
      InRangeSnoc(xs, a, rows);
      progs := progs + [prog];
      if bad {
        status := IndexOutOfRange;
      }
      a := a + 1;
    }
    assert xs[..a] == xs;
  }

  /** Element c of row r: from the last slice of some input that names the row, else as it was. */
  ghost predicate CellFromNamer(init: seq<real>, now: seq<real>, xs: seq<Rows>, w: nat, r: int, c: int) {
    && 0 <= r * w + c < |init| == |now|
    && if Named(xs, r) then FromANamer(xs, w, r, c, now[r * w + c]) else now[r * w + c] == init[r * w + c]
  }

  ghost predicate CellsFromNamers(init: seq<real>, now: seq<real>, xs: seq<Rows>, w: nat, rows: nat) {
    forall r, c | 0 <= r < rows && 0 <= c < w :: CellFromNamer(init, now, xs, w, r, c)
  }

  lemma RunsHoldNamers(xs: seq<Rows>, w: nat, rows: nat, init: seq<real>, trace: seq<Event>)
    requires Fits(xs, w) && IdsInRange(xs, rows) && |init| == rows * w && Interleaving(trace, Programs(xs, w))
    ensures InBounds(Writes(trace), |init|) && CellsFromNamers(init, Run(init, Writes(trace)), xs, w, rows)
  {
    ProgramsInBounds(xs, w, rows);
    InterleavingInBounds(trace, Programs(xs, w), |init|);
    var now := Run(init, Writes(trace));
    forall r, c | 0 <= r < rows && 0 <= c < w
      ensures CellFromNamer(init, now, xs, w, r, c)
    {
      CellBound(w, rows, r, c);
      if Named(xs, r) {
        EveryRunHoldsANamer(xs, w, rows, init, trace, r, c);
      } else {
        UnwrittenRowCell(xs, w, rows, init, trace, r, c);
      }
    }
  }

  /** Every input is a thread; they write element by element, in any interleaving. */
  method StitchParallel(xs: seq<Rows>, w: nat, rows: nat, merged: array<real>) returns (status: Status)
    requires Fits(xs, w) && merged.Length == rows * w
    modifies merged
    ensures status == if IdsInRange(xs, rows) then Ok else IndexOutOfRange
    ensures |FlatData(xs)| == |FlatIds(xs)| * w
    ensures status == Ok && NoSharedRow(xs) ==>
              merged[..] == Stitched(old(merged[..]), w, rows, FlatIds(xs), FlatData(xs))
    ensures status == Ok ==> CellsFromNamers(old(merged[..]), merged[..], xs, w, rows)
  {
    FlatSize(xs, w);
    var progs;
    progs, status := ThreadsOf(xs, w, rows);
    ghost var init := merged[..];
    ghost var trace := Execute(progs, merged);
    if status == Ok {
      RunsHoldNamers(xs, w, rows, init, trace);
      if NoSharedRow(xs) {
        DisjointInputsStitchSerially(xs, w, rows, init, trace);
      }
    }
  }

  /** Newly allocated memory: nothing clears it, so it holds whatever `memory` says. */
  ghost function Allocated(memory: int -> real, n: nat): (m: seq<real>)
    ensures |m| == n
  {
    seq(n, i requires 0 <= i < n => memory(i))
  }

  /** What stitching the inputs over newly allocated memory gives. */
  ghost predicate Assembled(merged: seq<real>, memory: int -> real, xs: seq<Rows>, w: nat, rows: nat) {
    && |FlatData(xs)| == |FlatIds(xs)| * w
    && merged == Stitched(Allocated(memory, rows * w), w, rows, FlatIds(xs), FlatData(xs))
  }

  method Allocate(n: nat, memory: int -> real) returns (a: array<real>)
    ensures fresh(a) && a[..] == Allocated(memory, n)
  {
    a := new real[n](i => memory(i));
  }

  /** Fill the output, by the thread pool only if there is more than one thread. */
  method FillOutput(xs: seq<Rows>, w: nat, rows: nat, parallel: bool, threads: nat, merged: array<real>)
    returns (status: Status)
    requires Fits(xs, w) && merged.Length == rows * w
    modifies merged
    ensures status == if rows == 0 || IdsInRange(xs, rows) then Ok else IndexOutOfRange
    ensures |FlatData(xs)| == |FlatIds(xs)| * w
    ensures status == Ok && (!(parallel && threads > 1) || NoSharedRow(xs)) ==>
              merged[..] == Stitched(old(merged[..]), w, rows, FlatIds(xs), FlatData(xs))
    ensures status == Ok && parallel && threads > 1 ==> CellsFromNamers(old(merged[..]), merged[..], xs, w, rows)
  {
    FlatSize(xs, w);
    status := Ok;
    if rows > 0 {
      if parallel && threads > 1 {
        status := StitchParallel(xs, w, rows, merged);
      } else {
        status := StitchSerial(xs, w, rows, merged);
      }
    }
  }

  /** What the CPU operators give: the serial result, but under the thread pool only if no row is shared; there
      every element comes from some namer of its row. */
  ghost predicate CpuResult(merged: seq<real>, memory: int -> real, xs: seq<Rows>, w: nat, rows: nat, pooled: bool) {
    && (!pooled || NoSharedRow(xs) ==> Assembled(merged, memory, xs, w, rows))
    && (pooled ==> CellsFromNamers(Allocated(memory, rows * w), merged, xs, w, rows))
  }

  method AllocateAndFill(xs: seq<Rows>, w: nat, rows: nat, parallel: bool, threads: nat, memory: int -> real)
    returns (status: Status, merged: array<real>)
    requires Fits(xs, w)
    ensures status == if rows == 0 || IdsInRange(xs, rows) then Ok else IndexOutOfRange
    ensures merged.Length == rows * w
    ensures status == Ok ==> CpuResult(merged[..], memory, xs, w, rows, parallel && threads > 1)
  {
    merged := Allocate(rows * w, memory);
    status := FillOutput(xs, w, rows, parallel, threads, merged);
  }

  /** The result of a CPU operator, once the shapes are checked. */
  method StitchInputs(inputs: seq<Input>, rows: nat, parallel: bool, threads: nat, memory: int -> real)
    returns (status: Status, shape: seq<nat>, merged: array<real>)
    requires inputs != [] && (forall a | 0 <= a < |inputs| :: inputs[a].Valid()) && ShapesAgree(inputs)
    ensures status == if rows == 0 || IdsInRange(Flatten(inputs), rows) then Ok else IndexOutOfRange
    ensures shape == ResultShape(rows, inputs) && merged.Length == Product(shape)
    ensures status == Ok ==>
              CpuResult(merged[..], memory, Flatten(inputs), SliceSize(inputs), rows, parallel && threads > 1)
  {
    FlattenFits(inputs);
    shape := ResultShape(rows, inputs);
    status, merged := AllocateAndFill(Flatten(inputs), SliceSize(inputs), rows, parallel, threads, memory);
  }

  /** Both CPU operators, over an output that is not cleared first. */
  method StitchCpu(inputs: seq<Input>, parallel: bool, threads: nat, memory: int -> real)
    returns (status: Status, shape: seq<nat>, merged: array<real>)
    requires inputs != [] && forall a | 0 <= a < |inputs| :: inputs[a].Valid()
    ensures !ShapesAgree(inputs) ==> status != Ok && FirstFault(inputs, status)
    ensures ShapesAgree(inputs) ==>
              var xs := Flatten(inputs); var rows := MaxIndex(FlatIds(xs)) + 1;
              status == if rows == 0 || IdsInRange(xs, rows) then Ok else IndexOutOfRange
    ensures status == Ok ==>
              var xs, w := Flatten(inputs), SliceSize(inputs); var rows := MaxIndex(FlatIds(xs)) + 1;
              && ShapesAgree(inputs)
              && |inputs[0].indices.shape| <= |inputs[0].data.shape|
              && |shape| == 1 + |inputs[0].data.shape| - |inputs[0].indices.shape| && shape[0] == rows
              && (forall k | 1 <= k < |shape| ::
                    shape[k] == inputs[0].data.shape[|inputs[0].indices.shape| + k - 1])
              && merged.Length == Product(shape)
              && CpuResult(merged[..], memory, xs, w, rows, parallel && threads > 1)
  {
    shape, merged := [], new real[0];
    var xs := Flatten(inputs);
    var max := FindMaxIndex(xs);
    var rows := max + 1;
    status := CheckShapes(inputs);
    if status != Ok {
      return;
    }
    status, shape, merged := StitchInputs(inputs, rows, parallel, threads, memory);
  }

  /** Input a is the last to name row r, at its position k and at no later one. */
  ghost predicate NamedLast(inputs: seq<Input>, a: nat, k: nat, r: nat) {
    && a < |inputs| && k < |inputs[a].indices.flat| && inputs[a].indices.flat[k] == r
    && (forall j | k < j < |inputs[a].indices.flat| :: inputs[a].indices.flat[j] != r)
    && (forall b | a < b < |inputs| :: r !in inputs[b].indices.flat)
  }

  lemma LastNamer(inputs: seq<Input>, a: nat, k: nat, r: nat)
    requires NamedLast(inputs, a, k, r)
    ensures Names(Flatten(inputs), a, r) && LastAt(Flatten(inputs)[a].ids, r) == k
    ensures forall b | a < b :: !Names(Flatten(inputs), b, r)
  {
  }

  /** Element by element: an output row holds the slice at the last position that names it. */
  lemma NamedRowIs(inputs: seq<Input>, merged: seq<real>, memory: int -> real, rows: nat, a: nat, k: nat, r: nat,
                   c: nat)
    requires inputs != [] && (forall a | 0 <= a < |inputs| :: inputs[a].Valid()) && ShapesAgree(inputs)
    requires Assembled(merged, memory, Flatten(inputs), SliceSize(inputs), rows)
    requires NamedLast(inputs, a, k, r) && r < rows && c < SliceSize(inputs)
    ensures var w := SliceSize(inputs);
            && 0 <= r * w + c < |merged| && 0 <= k * w + c < |inputs[a].data.flat|
            && merged[r * w + c] == inputs[a].data.flat[k * w + c]
  {
    var w := SliceSize(inputs);
    FlattenFits(inputs);
    LastNamer(inputs, a, k, r);
    SerialRow(Flatten(inputs), w, rows, Allocated(memory, rows * w), a, r, c);
  }

  /** An output row that no input names holds what the memory held. */
  lemma UnnamedRowIs(inputs: seq<Input>, merged: seq<real>, memory: int -> real, rows: nat, r: nat, c: nat)
    requires inputs != [] && (forall a | 0 <= a < |inputs| :: inputs[a].Valid()) && ShapesAgree(inputs)
    requires Assembled(merged, memory, Flatten(inputs), SliceSize(inputs), rows)
    requires (forall a | 0 <= a < |inputs| :: r !in inputs[a].indices.flat) && r < rows && c < SliceSize(inputs)
    ensures var w := SliceSize(inputs); 0 <= r * w + c < |merged| && merged[r * w + c] == memory(r * w + c)
  {
    var w, xs := SliceSize(inputs), Flatten(inputs);
    assert forall a :: !Names(xs, a, r);
    FlatAbsent(xs, r);
    StitchedAt(Allocated(memory, rows * w), w, rows, FlatIds(xs), FlatData(xs), r, c);
  }

  /** The number of rows of the ordinary forms: every index is below it and, if it is not zero, one is just below.
      So an index is out of range exactly when it is negative. */
  lemma RowsExactly(inputs: seq<Input>)
    ensures var rows := MaxIndex(FlatIds(Flatten(inputs))) + 1;
            && 0 <= rows
            && (forall a, k | 0 <= a < |inputs| && 0 <= k < |inputs[a].indices.flat| ::
                  inputs[a].indices.flat[k] < rows)
            && (rows > 0 ==> exists a :: 0 <= a < |inputs| && rows - 1 in inputs[a].indices.flat)
            && (IdsInRange(Flatten(inputs), rows) <==> NonNegative(inputs))
  {
    var xs := Flatten(inputs);
    assert forall a | 0 <= a < |inputs| :: xs[a].ids == inputs[a].indices.flat;
    var ids := FlatIds(xs);
    forall a, k | 0 <= a < |inputs| && 0 <= k < |inputs[a].indices.flat|
      ensures inputs[a].indices.flat[k] <= MaxIndex(ids)
    {
      FlatMember(xs, a, k);
    }
    if MaxIndex(ids) >= 0 {
      NamerOf(xs, MaxIndex(ids));
      var a :| Names(xs, a, MaxIndex(ids));
      assert xs[a].ids == inputs[a].indices.flat;
    }
  }

  lemma {:induction false} NamerOf(xs: seq<Rows>, r: int)
    requires r in FlatIds(xs)
    ensures exists a :: Names(xs, a, r)
  {
    var n := |xs| - 1;
    if r in xs[n].ids {
      assert Names(xs, n, r);
    } else {
      NamerOf(xs[..n], r);
      var a :| Names(xs[..n], a, r);
      assert Names(xs, a, r);
    }
  }

  // ---------- table-driven GPU ----------

  /** A device pointer into the data of one input. */
  datatype Ptr = Ptr(input: nat, offset: nat)

  /** ptrs[k] points to row k of the flattened data. */
  ghost predicate PointsAt(xs: seq<Rows>, w: nat, p: Ptr, k: nat, data: seq<real>) {
    && p.input < |xs|
    && p.offset + w <= |xs[p.input].data|
    && k * w + w <= |data|
    && data[k * w..k * w + w] == xs[p.input].data[p.offset..p.offset + w]
  }

  lemma PointsAtGrows(xs: seq<Rows>, w: nat, p: Ptr, k: nat, data: seq<real>, more: seq<real>)
    requires PointsAt(xs, w, p, k, data)
    ensures PointsAt(xs, w, p, k, data + more)
  {
    assert (data + more)[k * w..k * w + w] == data[k * w..k * w + w];
  }

  /** The scan on the host: for every output row the last position that names it, or -1; for every
      position a pointer to its row. */
  method BuildTable(xs: seq<Rows>, w: nat, rows: nat) returns (table: array<int>, ptrs: seq<Ptr>)
    requires Fits(xs, w) && IdsInRange(xs, rows)
    ensures table.Length == rows && forall r | 0 <= r < rows :: table[r] == LastAt(FlatIds(xs), r)
    ensures |ptrs| == |FlatIds(xs)| && forall k: nat | k < |ptrs| :: PointsAt(xs, w, ptrs[k], k, FlatData(xs))
  {
    table := new int[rows](_ => -1);
    ptrs := [];
    var baseSize := 0;
    var a := 0;
    while a < |xs|
      invariant 0 <= a <= |xs| && baseSize == |ptrs| == |FlatIds(xs[..a])|
      invariant forall r | 0 <= r < rows :: table[r] == LastAt(FlatIds(xs[..a]), r)
      invariant forall k: nat | k < |ptrs| :: PointsAt(xs, w, ptrs[k], k, FlatData(xs[..a]))
    {
      ptrs := ScanInput(xs, w, rows, a, baseSize, table, ptrs);
      baseSize := baseSize + |xs[a].ids|;
      assert xs[..a + 1][..a] == xs[..a];
      a := a + 1;
    }
    assert xs[..a] == xs;
  }

  /** A pointer to row j of input a is one to row n + j of the flattened data, if a's data starts at row n. */
  lemma PointsAtNew(xs: seq<Rows>, w: nat, a: nat, j: nat, n: nat, data: seq<real>)
    requires a < |xs| && |xs[a].data| == |xs[a].ids| * w && j < |xs[a].ids| && |data| == n * w
    ensures PointsAt(xs, w, Ptr(a, j * w), n + j, data + xs[a].data)
  {
    RowBound(w, |xs[a].ids|, j);
    Distribute(n, j, w);
    var whole := data + xs[a].data;
    assert whole[n * w + j * w..n * w + j * w + w] == xs[a].data[j * w..j * w + w];
  }

  /** Scan one input's indices. */
  method ScanIndices(ids: seq<int>, rows: nat, baseSize: nat, table: array<int>, ghost flat: seq<int>)
    requires InRange(ids, rows) && table.Length == rows && baseSize == |flat|
    requires forall r | 0 <= r < rows :: table[r] == LastAt(flat, r)
    modifies table
    ensures forall r | 0 <= r < rows :: table[r] == LastAt(flat + ids, r)
  {
    var j := 0;
    assert flat + ids[..0] == flat;
    while j < |ids|
      invariant 0 <= j <= |ids|
      invariant forall r | 0 <= r < rows :: table[r] == LastAt(flat + ids[..j], r)
    {
      forall r | 0 <= r < rows
        ensures LastAt(flat + ids[..j + 1], r) == if r == ids[j] then baseSize + j else table[r]
      {
        assert flat + ids[..j + 1] == (flat + ids[..j]) + [ids[j]];
        LastAtSnoc(flat + ids[..j], ids[j], r);
      }
      table[ids[j]] := baseSize + j;
      j := j + 1;
    }
    assert ids[..j] == ids;
  }

  /** Pointers to one input's rows behind those to the inputs before it. */
  method ScanRows(xs: seq<Rows>, w: nat, a: nat, before: seq<Ptr>, ghost data: seq<real>) returns (ptrs: seq<Ptr>)
    requires a < |xs| && |xs[a].data| == |xs[a].ids| * w && |data| == |before| * w
    requires forall k: nat | k < |before| :: PointsAt(xs, w, before[k], k, data)
    ensures |ptrs| == |before| + |xs[a].ids|
    ensures forall k: nat | k < |ptrs| :: PointsAt(xs, w, ptrs[k], k, data + xs[a].data)
  {
    ptrs := before;
    forall k: nat | k < |ptrs|
      ensures PointsAt(xs, w, ptrs[k], k, data + xs[a].data)
    {
      PointsAtGrows(xs, w, ptrs[k], k, data, xs[a].data);
    }
    for j := 0 to |xs[a].ids|
      invariant |ptrs| == |before| + j
      invariant forall k: nat | k < |ptrs| :: PointsAt(xs, w, ptrs[k], k, data + xs[a].data)
    {
      PointsAtNew(xs, w, a, j, |before|, data);
      ptrs := ptrs + [Ptr(a, j * w)];
    }
  }

  /** One input of the scan: its table entries and its pointers. */
  method ScanInput(xs: seq<Rows>, w: nat, rows: nat, a: nat, baseSize: nat, table: array<int>, before: seq<Ptr>)
    returns (ptrs: seq<Ptr>)
    requires Fits(xs, w) && IdsInRange(xs, rows) && a < |xs| && table.Length == rows
    requires baseSize == |before| == |FlatIds(xs[..a])|
    requires forall r | 0 <= r < rows :: table[r] == LastAt(FlatIds(xs[..a]), r)
    requires forall k: nat | k < |before| :: PointsAt(xs, w, before[k], k, FlatData(xs[..a]))
    modifies table
    ensures |ptrs| == |before| + |xs[a].ids|
    ensures forall r | 0 <= r < rows :: table[r] == LastAt(FlatIds(xs[..a]) + xs[a].ids, r)
    ensures forall k: nat | k < |ptrs| :: PointsAt(xs, w, ptrs[k], k, FlatData(xs[..a]) + xs[a].data)
  {
    FlatSize(xs[..a], w);
    ScanIndices(xs[a].ids, rows, baseSize, table, FlatIds(xs[..a]));
    ptrs := ScanRows(xs, w, a, before, FlatData(xs[..a]));
  }

  /** The thread of one output element: nothing if its row is missing, else one store. */
  method ThreadOf(xs: seq<Rows>, w: nat, rows: nat, table: array<int>, ptrs: seq<Ptr>, cell: nat)
    returns (prog: seq<Write>)
    requires Fits(xs, w) && |FlatData(xs)| == |FlatIds(xs)| * w && cell < rows * w
    requires table.Length == rows && forall r | 0 <= r < rows :: table[r] == LastAt(FlatIds(xs), r)
    requires |ptrs| == |FlatIds(xs)| && forall k: nat | k < |ptrs| :: PointsAt(xs, w, ptrs[k], k, FlatData(xs))
    ensures prog == CellProgram(xs, w, rows, cell)
  {
    CellOf(w, rows, cell);
    var sliceId, sliceOffset := cell / w, cell % w;
    var inputIndex := table[sliceId];
    prog := [];
    if inputIndex != -1 {
      var p := ptrs[inputIndex];
      assert PointsAt(xs, w, p, inputIndex, FlatData(xs));
      CellBound(w, |FlatIds(xs)|, inputIndex, sliceOffset);
      ghost var k := inputIndex;
      assert FlatData(xs)[k * w..k * w + w][sliceOffset] == xs[p.input].data[p.offset..p.offset + w][sliceOffset];
      prog := [Store(cell, xs[p.input].data[p.offset + sliceOffset])];
    }
  }

  ghost function CellProgram(xs: seq<Rows>, w: nat, rows: nat, cell: int): seq<Write>
    requires |FlatData(xs)| == |FlatIds(xs)| * w && 0 <= cell < rows * w
  {
    CellOf(w, rows, cell);
    var k := LastAt(FlatIds(xs), cell / w);
    if k < 0 then [] else
      CellBound(w, |FlatIds(xs)|, k, cell % w);
      [Store(cell, FlatData(xs)[k * w + cell % w])]
  }

  ghost function CellPrograms(xs: seq<Rows>, w: nat, rows: nat): (progs: seq<seq<Write>>)
    requires |FlatData(xs)| == |FlatIds(xs)| * w
    ensures |progs| == rows * w
  {
    seq(rows * w, cell requires 0 <= cell < rows * w => CellProgram(xs, w, rows, cell))
  }

  lemma TableCell(xs: seq<Rows>, w: nat, rows: nat, init: seq<real>, trace: seq<Event>, cell: nat)
    requires |FlatData(xs)| == |FlatIds(xs)| * w && |init| == rows * w && cell < rows * w
    requires AllInBounds(CellPrograms(xs, w, rows), |init|)
    requires Interleaving(trace, CellPrograms(xs, w, rows)) && InBounds(Writes(trace), |init|)
    ensures Run(init, Writes(trace))[cell] == StitchCell(init, w, rows, FlatIds(xs), FlatData(xs), cell)
  {
    var progs := CellPrograms(xs, w, rows);
    assert Owns(progs, cell, cell);
    OwnedCellIsScheduleIndependent(init, progs, trace, cell, cell);
    var prog := progs[cell];
    if prog != [] {
      assert prog[..0] == [];
      assert Run(init, prog[..0]) == init;
    }
  }

  /** One thread an output element, reading the table: the serial result in every run, even when
      indices repeat; rows no index names are left as they were. */
  lemma TableStitchIsSerial(xs: seq<Rows>, w: nat, rows: nat, init: seq<real>, trace: seq<Event>)
    requires Fits(xs, w) && |init| == rows * w
    requires |FlatData(xs)| == |FlatIds(xs)| * w && Interleaving(trace, CellPrograms(xs, w, rows))
    ensures InBounds(Writes(trace), |init|)
    ensures Run(init, Writes(trace)) == Stitched(init, w, rows, FlatIds(xs), FlatData(xs))
  {
    assert AllInBounds(CellPrograms(xs, w, rows), |init|);
    InterleavingInBounds(trace, CellPrograms(xs, w, rows), |init|);
    var a, b := Run(init, Writes(trace)), Stitched(init, w, rows, FlatIds(xs), FlatData(xs));
    forall cell: nat | cell < rows * w
      ensures a[cell] == b[cell]
    {
      TableCell(xs, w, rows, init, trace, cell);
    }
  }

  /** Fill the output by table. */
  method FillByTable(xs: seq<Rows>, w: nat, rows: nat, merged: array<real>)
    requires Fits(xs, w) && IdsInRange(xs, rows) && merged.Length == rows * w
    modifies merged
    ensures |FlatData(xs)| == |FlatIds(xs)| * w
    ensures merged[..] == Stitched(old(merged[..]), w, rows, FlatIds(xs), FlatData(xs))
  {
    FlatSize(xs, w);
    if rows > 0 {
      ghost var init := merged[..];
      var progs := CellThreads(xs, w, rows);
      assert AllInBounds(CellPrograms(xs, w, rows), rows * w);
      ghost var trace := Execute(progs, merged);
      TableStitchIsSerial(xs, w, rows, init, trace);
    }
  }

  method StitchByTable(xs: seq<Rows>, w: nat, rows: nat, memory: int -> real) returns (merged: array<real>)
    requires Fits(xs, w) && IdsInRange(xs, rows)
    ensures merged.Length == rows * w && Assembled(merged[..], memory, xs, w, rows)
  {
    merged := Allocate(rows * w, memory);
    FillByTable(xs, w, rows, merged);
  }

  /** Build the table and, from it, the thread of every output element. */
  method CellThreads(xs: seq<Rows>, w: nat, rows: nat) returns (progs: seq<seq<Write>>)
    requires Fits(xs, w) && IdsInRange(xs, rows)
    ensures |FlatData(xs)| == |FlatIds(xs)| * w && progs == CellPrograms(xs, w, rows)
  {
    FlatSize(xs, w);
    var table, ptrs := BuildTable(xs, w, rows);
    progs := [];
    for cell := 0 to rows * w
      invariant progs == CellPrograms(xs, w, rows)[..cell]
      invariant forall r | 0 <= r < rows :: table[r] == LastAt(FlatIds(xs), r)
    {
      var prog := ThreadOf(xs, w, rows, table, ptrs, cell);
      progs := progs + [prog];
    }
  }

  ghost predicate NonNegative(inputs: seq<Input>) {
    forall a, k | 0 <= a < |inputs| && 0 <= k < |inputs[a].indices.flat| :: 0 <= inputs[a].indices.flat[k]
  }

  lemma FlattenBelowMax(inputs: seq<Input>)
    requires NonNegative(inputs)
    ensures IdsInRange(Flatten(inputs), MaxIndex(FlatIds(Flatten(inputs))) + 1)
  {
    BelowMax(Flatten(inputs));
  }

  /** The result of the GPU operator, once the shapes are checked. */
  method StitchInputsByTable(inputs: seq<Input>, rows: nat, memory: int -> real)
    returns (shape: seq<nat>, merged: array<real>)
    requires inputs != [] && (forall a | 0 <= a < |inputs| :: inputs[a].Valid()) && ShapesAgree(inputs)
    requires IdsInRange(Flatten(inputs), rows)
    ensures shape == ResultShape(rows, inputs) && merged.Length == Product(shape)
    ensures Assembled(merged[..], memory, Flatten(inputs), SliceSize(inputs), rows)
  {
    FlattenFits(inputs);
    shape := ResultShape(rows, inputs);
    merged := StitchByTable(Flatten(inputs), SliceSize(inputs), rows, memory);
  }

  /** The GPU operator. Indices must not be negative: the table is written without a check. */
  method StitchGpu(inputs: seq<Input>, memory: int -> real)
    returns (status: Status, shape: seq<nat>, merged: array<real>)
    requires inputs != [] && forall a | 0 <= a < |inputs| :: inputs[a].Valid()
    requires ShapesAgree(inputs) ==> NonNegative(inputs)
    ensures FirstFault(inputs, status)
    ensures status == Ok ==>
              var xs, w := Flatten(inputs), SliceSize(inputs); var rows := MaxIndex(FlatIds(xs)) + 1;
              && |inputs[0].indices.shape| <= |inputs[0].data.shape|
              && |shape| == 1 + |inputs[0].data.shape| - |inputs[0].indices.shape| && shape[0] == rows
              && (forall k | 1 <= k < |shape| ::
                    shape[k] == inputs[0].data.shape[|inputs[0].indices.shape| + k - 1])
              && merged.Length == Product(shape)
              && Assembled(merged[..], memory, xs, w, rows)
  {
    shape, merged := [], new real[0];
    var xs := Flatten(inputs);
    var max := FindMaxIndex(xs);
    var rows := max + 1;
    status := CheckShapes(inputs);
    if status != Ok {
      return;
    }
    FlattenBelowMax(inputs);
    shape, merged := StitchInputsByTable(inputs, rows, memory);
  }

  lemma BelowMax(xs: seq<Rows>)
    requires forall a, k | 0 <= a < |xs| && 0 <= k < |xs[a].ids| :: 0 <= xs[a].ids[k]
    ensures IdsInRange(xs, MaxIndex(FlatIds(xs)) + 1)
  {
    forall a, k | 0 <= a < |xs| && 0 <= k < |xs[a].ids|
      ensures 0 <= xs[a].ids[k] < MaxIndex(FlatIds(xs)) + 1
    {
      FlatMember(xs, a, k);
    }
  }

  // ---------- fast GPU ----------

  /** Every row of every input as an input of its own. */
  function Split(ids: seq<int>, data: seq<real>, w: nat): (ys: seq<Rows>)
    requires |data| == |ids| * w
    ensures |ys| == |ids|
  {
    seq(|ids|, k requires 0 <= k < |ids| => Rows([ids[k]], Row(data, w, |ids|, k)))
  }

  lemma NextRow(data: seq<real>, w: nat, rows: nat, n: nat)
    requires |data| == rows * w && 0 < n <= rows
    ensures 0 <= (n - 1) * w <= n * w <= |data|
    ensures data[..(n - 1) * w] + Row(data, w, rows, n - 1) == data[..n * w]
  {
    Distribute(n - 1, 1, w);
    RowBound(w, rows, n - 1);
  }

  lemma {:induction false} SplitPrefix(ids: seq<int>, data: seq<real>, w: nat, n: nat)
    requires |data| == |ids| * w && n <= |ids|
    ensures 0 <= n * w <= |data|
    ensures FlatIds(Split(ids, data, w)[..n]) == ids[..n]
    ensures FlatData(Split(ids, data, w)[..n]) == data[..n * w]
  {
    if n > 0 {
      SplitPrefix(ids, data, w, n - 1);
      NextRow(data, w, |ids|, n);
      var ys := Split(ids, data, w);
      assert ys[..n][..n - 1] == ys[..n - 1];
      assert ys[..n][n - 1] == ys[n - 1] == Rows([ids[n - 1]], Row(data, w, |ids|, n - 1));
    }
  }

  lemma SplitIsWhole(ids: seq<int>, data: seq<real>, w: nat)
    requires |data| == |ids| * w
    ensures FlatIds(Split(ids, data, w)) == ids && FlatData(Split(ids, data, w)) == data
    ensures Fits(Split(ids, data, w), w)
  {
    var ys := Split(ids, data, w);
    SplitPrefix(ids, data, w, |ids|);
    AllOf(ys);
    AllOf(ids);
    AllOf(data);
    SplitFits(ids, data, w);
  }

  lemma AllOf<T>(s: seq<T>)
    ensures s[..|s|] == s
  {
  }

  lemma SplitFits(ids: seq<int>, data: seq<real>, w: nat)
    requires |data| == |ids| * w
    ensures Fits(Split(ids, data, w), w)
  {
    forall a | 0 <= a < |ids|
      ensures |Split(ids, data, w)[a].data| == |Split(ids, data, w)[a].ids| * w
    {
      assert Split(ids, data, w)[a] == Rows([ids[a]], Row(data, w, |ids|, a));
    }
  }

  /** Distinct indices: every order of the threads, one a row, gives the serial result. */
  lemma FastStitchIsSerial(ids: seq<int>, data: seq<real>, w: nat, rows: nat, init: seq<real>, trace: seq<Event>)
    requires |data| == |ids| * w && InRange(ids, rows) && DistinctIds(ids) && |init| == rows * w
    requires Fits(Split(ids, data, w), w) && Interleaving(trace, Programs(Split(ids, data, w), w))
    ensures InBounds(Writes(trace), |init|)
    ensures Run(init, Writes(trace)) == Stitched(init, w, rows, ids, data)
  {
    var ys := Split(ids, data, w);
    SplitIsWhole(ids, data, w);
    FlatInRange(ys, rows);
    forall a, b, r | Names(ys, a, r) && Names(ys, b, r)
      ensures a == b
    {
      assert ids[a] == r == ids[b];
    }
    DisjointInputsStitchSerially(ys, w, rows, init, trace);
  }

  /** The threads of one segment, one for each of its rows. */
  method SegmentThreads(x: Rows, w: nat) returns (progs: seq<seq<Write>>)
    requires |x.data| == |x.ids| * w
    ensures |progs| == |x.ids|
    ensures forall i | 0 <= i < |progs| :: progs[i] == RowWrites(x.ids[i], Row(x.data, w, |x.ids|, i), w)
  {
    progs := [];
    for i := 0 to |x.ids|
      invariant |progs| == i
      invariant forall k | 0 <= k < i :: progs[k] == RowWrites(x.ids[k], Row(x.data, w, |x.ids|, k), w)
    {
      RowBound(w, |x.ids|, i);
      var prog: seq<Write> := [];
      for offset := 0 to w
        invariant prog == RowWrites(x.ids[i], Row(x.data, w, |x.ids|, i), w)[..offset]
      {
        prog := prog + [Store(x.ids[i] * w + offset, x.data[i * w + offset])];
      }
      progs := progs + [prog];
    }
  }

  lemma SingleProgram(r: int, row: seq<real>, w: nat)
    requires |row| == w
    ensures CopyWrites([r], row, w) == RowWrites(r, row, w)
  {
    assert row[..0 * w] == [] && row[0 * w..] == row;
    assert [r][..0] == [];
  }

  lemma SplitConcat(ids: seq<int>, data: seq<real>, ids': seq<int>, data': seq<real>, w: nat, k: nat)
    requires |data| == |ids| * w && |data'| == |ids'| * w && k < |ids| + |ids'|
    ensures |data + data'| == |ids + ids'| * w
    ensures Split(ids + ids', data + data', w)[k]
         == if k < |ids| then Split(ids, data, w)[k] else Split(ids', data', w)[k - |ids|]
  {
    Distribute(|ids|, |ids'|, w);
    var n := |ids| + |ids'|;
    RowBound(w, n, k);
    if k < |ids| {
      RowBound(w, |ids|, k);
    } else {
      RowBound(w, |ids'|, k - |ids|);
      Distribute(|ids|, k - |ids|, w);
    }
  }

  /** One thread a row, which copies it. */
  ghost predicate OneARow(ids: seq<int>, data: seq<real>, w: nat, progs: seq<seq<Write>>)
    requires |data| == |ids| * w
  {
    && |progs| == |ids|
    && forall k: nat | k < |ids| :: progs[k] == RowWrites(ids[k], Row(data, w, |ids|, k), w)
  }

  lemma MoreThreads(ids: seq<int>, data: seq<real>, x: Rows, w: nat, progs: seq<seq<Write>>, more: seq<seq<Write>>)
    requires |data| == |ids| * w && |x.data| == |x.ids| * w && OneARow(ids, data, w, progs)
             && OneARow(x.ids, x.data, w, more)
    ensures |data + x.data| == |ids + x.ids| * w && OneARow(ids + x.ids, data + x.data, w, progs + more)
  {
    Distribute(|ids|, |x.ids|, w);
    forall k: nat | k < |ids + x.ids|
      ensures (progs + more)[k] == RowWrites((ids + x.ids)[k], Row(data + x.data, w, |ids + x.ids|, k), w)
    {
      SplitConcat(ids, data, x.ids, x.data, w, k);
    }
  }

  /** All threads of the two-dimensional grid. */
  method GridThreads(xs: seq<Rows>, w: nat) returns (progs: seq<seq<Write>>)
    requires Fits(xs, w)
    ensures |FlatData(xs)| == |FlatIds(xs)| * w && Fits(Split(FlatIds(xs), FlatData(xs), w), w)
    ensures progs == Programs(Split(FlatIds(xs), FlatData(xs), w), w)
  {
    FlatSize(xs, w);
    progs := [];
    var a := 0;
    while a < |xs|
      invariant 0 <= a <= |xs| && |FlatData(xs[..a])| == |FlatIds(xs[..a])| * w && |progs| == |FlatIds(xs[..a])|
      invariant OneARow(FlatIds(xs[..a]), FlatData(xs[..a]), w, progs)
    {
      var more := SegmentThreads(xs[a], w);
      ghost var ids, data := FlatIds(xs[..a]), FlatData(xs[..a]);
      assert xs[..a + 1][..a] == xs[..a];
      MoreThreads(ids, data, xs[a], w, progs, more);
      progs := progs + more;
      a := a + 1;
    }
    assert xs[..a] == xs;
    ghost var ys := Split(FlatIds(xs), FlatData(xs), w);
    SplitIsWhole(FlatIds(xs), FlatData(xs), w);
    forall k: nat | k < |progs|
      ensures progs[k] == Programs(ys, w)[k]
    {
      SingleProgram(ys[k].ids[0], ys[k].data, w);
    }
  }

  /** What the fast operator gives: the serial result for distinct indices; in any case, every element comes
      from some slice for its row. */
  ghost predicate FastResult(merged: seq<real>, memory: int -> real, xs: seq<Rows>, w: nat, rows: nat) {
    && (DistinctIds(FlatIds(xs)) ==> Assembled(merged, memory, xs, w, rows))
    && |FlatData(xs)| == |FlatIds(xs)| * w
    && CellsFromNamers(Allocated(memory, rows * w), merged, Split(FlatIds(xs), FlatData(xs), w), w, rows)
  }

  /** The fast GPU operator: the output has as many rows as there are indices, and an index must be
      one of them, since it is written without a check. */
  method StitchFast(inputs: seq<Input>, memory: int -> real)
    returns (status: Status, shape: seq<nat>, merged: array<real>)
    requires inputs != [] && forall a | 0 <= a < |inputs| :: inputs[a].Valid()
    requires ShapesAgree(inputs) ==> IdsInRange(Flatten(inputs), |FlatIds(Flatten(inputs))|)
    ensures FirstFault(inputs, status)
    ensures status == Ok ==>
              var xs, w := Flatten(inputs), SliceSize(inputs); var rows := |FlatIds(xs)|;
              && |inputs[0].indices.shape| <= |inputs[0].data.shape|
              && |shape| == 1 + |inputs[0].data.shape| - |inputs[0].indices.shape| && shape[0] == rows
              && (forall k | 1 <= k < |shape| ::
                    shape[k] == inputs[0].data.shape[|inputs[0].indices.shape| + k - 1])
              && merged.Length == Product(shape)
              && FastResult(merged[..], memory, xs, w, rows)
  {
    shape, merged := [], new real[0];
    var xs := Flatten(inputs);
    status := CheckShapes(inputs);
    if status != Ok {
      return;
    }
    FlattenFits(inputs);
    var rows := CountIndices(xs);
    shape := ResultShape(rows, inputs);
    merged := StitchByGrid(xs, SliceSize(inputs), rows, memory);
  }

  method StitchByGrid(xs: seq<Rows>, w: nat, rows: nat, memory: int -> real) returns (merged: array<real>)
    requires Fits(xs, w) && IdsInRange(xs, rows)
    ensures merged.Length == rows * w && FastResult(merged[..], memory, xs, w, rows)
  {
    merged := Allocate(rows * w, memory);
    FillByGrid(xs, w, rows, merged);
  }

  /** The number of indices over all inputs. */
  method CountIndices(xs: seq<Rows>) returns (rows: nat)
    ensures rows == |FlatIds(xs)|
  {
    rows := 0;
    var a := 0;
    while a < |xs|
      invariant 0 <= a <= |xs| && rows == |FlatIds(xs[..a])|
    {
      rows := rows + |xs[a].ids|;
      assert xs[..a + 1][..a] == xs[..a];
      a := a + 1;
    }
    assert xs[..a] == xs;
  }

  /** Let the grid fill the output. */
  method FillByGrid(xs: seq<Rows>, w: nat, rows: nat, merged: array<real>)
    requires Fits(xs, w) && IdsInRange(xs, rows) && merged.Length == rows * w
    modifies merged
    ensures |FlatData(xs)| == |FlatIds(xs)| * w
    ensures DistinctIds(FlatIds(xs)) ==> merged[..] == Stitched(old(merged[..]), w, rows, FlatIds(xs), FlatData(xs))
    ensures CellsFromNamers(old(merged[..]), merged[..], Split(FlatIds(xs), FlatData(xs), w), w, rows)
  {
    FlatSize(xs, w);
    if rows > 0 {
      ghost var init := merged[..];
      var progs := GridThreads(xs, w);
      GridInBounds(xs, w, rows);
      ghost var trace := Execute(progs, merged);
      FlatInRange(xs, rows);
      GridHoldsNamers(FlatIds(xs), FlatData(xs), w, rows, init, trace);
      if DistinctIds(FlatIds(xs)) {
        FastStitchIsSerial(FlatIds(xs), FlatData(xs), w, rows, init, trace);
      }
    }
  }

  lemma GridHoldsNamers(ids: seq<int>, data: seq<real>, w: nat, rows: nat, init: seq<real>, trace: seq<Event>)
    requires |data| == |ids| * w && InRange(ids, rows) && |init| == rows * w
    requires Fits(Split(ids, data, w), w) && Interleaving(trace, Programs(Split(ids, data, w), w))
    ensures InBounds(Writes(trace), |init|)
    ensures CellsFromNamers(init, Run(init, Writes(trace)), Split(ids, data, w), w, rows)
  {
    SplitIsWhole(ids, data, w);
    FlatInRange(Split(ids, data, w), rows);
    RunsHoldNamers(Split(ids, data, w), w, rows, init, trace);
  }

  lemma GridInBounds(xs: seq<Rows>, w: nat, rows: nat)
    requires Fits(xs, w) && IdsInRange(xs, rows) && |FlatData(xs)| == |FlatIds(xs)| * w
    requires Fits(Split(FlatIds(xs), FlatData(xs), w), w)
    ensures AllInBounds(Programs(Split(FlatIds(xs), FlatData(xs), w), w), rows * w)
  {
    var ys := Split(FlatIds(xs), FlatData(xs), w);
    SplitIsWhole(FlatIds(xs), FlatData(xs), w);
    FlatInRange(xs, rows);
    FlatInRange(ys, rows);
    ProgramsInBounds(ys, w, rows);
  }
}
