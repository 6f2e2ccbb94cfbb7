/** A stable sort of positions by 32-bit key: a least-significant-digit radix sort, one bit a pass. */
module StableSort {
  import opened Tensors

  const MIN_INT32 := -0x8000_0000
  const RANGE: nat := 0x1_0000_0000

  predicate AllInt32(ids: seq<int>) {
    forall i | 0 <= i < |ids| :: MIN_INT32 <= ids[i] < MIN_INT32 + RANGE
  }

  /** order lists the positions of ids by rising id, equal ids by rising position. */
  ghost predicate IsStableSort(ids: seq<int>, order: seq<int>) {
    && |order| == |ids|
    && InRange(order, |ids|)
    && (forall i | 0 <= i < |ids| :: i in order)
    && (forall i, j | 0 <= i < j < |order| ::
          ids[order[i]] < ids[order[j]] || (ids[order[i]] == ids[order[j]] && order[i] < order[j]))
  }

  function Pow2(b: nat): nat {
    if b == 0 then 1 else 2 * Pow2(b - 1)
  }

  lemma {:induction false} Pow2Add(a: nat, b: nat)
    ensures Pow2(a + b) == Pow2(a) * Pow2(b)
  {
    if a != 0 {
      Pow2Add(a - 1, b);
    }
  }

  lemma Pow2Of32()
    ensures Pow2(32) == RANGE
  {
    assert Pow2(4) == 16;
    Pow2Add(4, 4);
    Pow2Add(8, 8);
    Pow2Add(16, 16);
  }

  /** Position x comes before position y when only keys modulo m are looked at. */
  predicate Before(ids: seq<int>, m: nat, x: int, y: int)
    requires 0 < m && 0 <= x < |ids| && 0 <= y < |ids|
  {
    var a, b := (ids[x] - MIN_INT32) % m, (ids[y] - MIN_INT32) % m;
    a < b || (a == b && x < y)
  }

  predicate Bit(ids: seq<int>, m: nat, x: int)
    requires 0 < m && 0 <= x < |ids|
  {
    (ids[x] - MIN_INT32) / m % 2 == 1
  }

  ghost predicate Ordered(ids: seq<int>, m: nat, order: seq<int>)
    requires 0 < m && InRange(order, |ids|)
  {
    forall i, j | 0 <= i < j < |order| :: Before(ids, m, order[i], order[j])
  }

  lemma ModDouble(k: int, m: nat)
    requires 0 < m
    ensures k % (2 * m) == k % m + m * (k / m % 2)
  {
    var q, r := k / m, k % m;
    var h, b := q / 2, q % 2;
    assert k == q * m + r && q == 2 * h + b;
    assert q * m == h * (2 * m) + b * m;
    var s := b * m + r;
    assert 0 <= s < 2 * m;
    assert k == h * (2 * m) + s;
    ModUnique(k, 2 * m, h, s);
  }

  lemma ModUnique(k: int, m: nat, q: int, r: int)
    requires 0 < m && k == q * m + r && 0 <= r < m
    ensures k % m == r
  {
    var q', r' := k / m, k % m;
    assert (q - q') * m == r' - r;
    assert q - q' >= 1 ==> (q - q') * m >= m;
    assert q - q' <= -1 ==> (q - q') * m + m <= 0;
  }

  lemma BeforeDoubles(ids: seq<int>, m: nat, x: int, y: int)
    requires 0 < m && 0 <= x < |ids| && 0 <= y < |ids|
    ensures Before(ids, 2 * m, x, y) <==>
              (!Bit(ids, m, x) && Bit(ids, m, y)) || (Bit(ids, m, x) == Bit(ids, m, y) && Before(ids, m, x, y))
  {
    ModDouble(ids[x] - MIN_INT32, m);
    ModDouble(ids[y] - MIN_INT32, m);
  }

  /** The two queues of a pass: positions whose bit is b, in the order they were met. */
  ghost predicate Queue(ids: seq<int>, m: nat, met: seq<int>, q: seq<int>, b: bool)
    requires 0 < m && InRange(met, |ids|)
  {
    && InRange(q, |ids|)
    && Ordered(ids, m, q)
    && (forall x | x in q :: x in met && Bit(ids, m, x) == b)
    && (forall x | x in met && Bit(ids, m, x) == b :: x in q)
  }

  lemma QueueStep(ids: seq<int>, m: nat, order: seq<int>, i: nat, q: seq<int>, b: bool)
    requires 0 < m && InRange(order, |ids|) && Ordered(ids, m, order) && i < |order|
    requires Queue(ids, m, order[..i], q, b)
    ensures Queue(ids, m, order[..i + 1], if Bit(ids, m, order[i]) == b then q + [order[i]] else q, b)
  {
    var x := order[i];
    assert order[..i + 1] == order[..i] + [x];
    if Bit(ids, m, x) == b {
      forall k | 0 <= k < |q|
        ensures Before(ids, m, q[k], x)
      {
        assert q[k] in order[..i];
      }
    }
  }

  /** The zero queue followed by the one queue is ordered by one more bit. */
  lemma QueuesJoin(ids: seq<int>, m: nat, order: seq<int>, zeros: seq<int>, ones: seq<int>)
    requires 0 < m && InRange(order, |ids|)
    requires Queue(ids, m, order, zeros, false) && Queue(ids, m, order, ones, true)
    ensures InRange(zeros + ones, |ids|) && Ordered(ids, 2 * m, zeros + ones)
    ensures forall x | x in order :: x in zeros + ones
  {
    var out := zeros + ones;
    forall i, j | 0 <= i < j < |out|
      ensures Before(ids, 2 * m, out[i], out[j])
    {
      BeforeDoubles(ids, m, out[i], out[j]);
      assert i < |zeros| ==> out[i] in zeros;
      assert i >= |zeros| ==> out[i] in ones;
      assert j < |zeros| ==> out[j] in zeros;
      assert j >= |zeros| ==> out[j] in ones;
    }
  }

  /** One counting pass on the bit worth m. */
  method BitPass(ids: seq<int>, m: nat, order: seq<int>) returns (out: seq<int>)
    requires 0 < m && InRange(order, |ids|) && Ordered(ids, m, order)
    ensures |out| == |order| && InRange(out, |ids|) && Ordered(ids, 2 * m, out)
    ensures forall x | x in order :: x in out
  {
    var zeros, ones := [], [];
    var i := 0;
    while i < |order|
      invariant 0 <= i <= |order| && |zeros| + |ones| == i
      invariant Queue(ids, m, order[..i], zeros, false)
      invariant Queue(ids, m, order[..i], ones, true)
    {
      QueueStep(ids, m, order, i, zeros, false);
      QueueStep(ids, m, order, i, ones, true);
      if Bit(ids, m, order[i]) {
        ones := ones + [order[i]];
      } else {
        zeros := zeros + [order[i]];
      }
      i := i + 1;
    }
    assert order[..i] == order;
    QueuesJoin(ids, m, order, zeros, ones);
    out := zeros + ones;
  }

  /** Sort the pairs (ids[i], i) by key. */
  method SortPairs(ids: seq<int>) returns (keys: seq<int>, order: seq<int>)
    requires AllInt32(ids)
    ensures IsStableSort(ids, order)
    ensures |keys| == |ids| && forall i | 0 <= i < |ids| :: keys[i] == ids[order[i]]
  {
    order := seq(|ids|, i => i);
    forall i | 0 <= i < |ids|
      ensures i in order
    {
      assert order[i] == i;
    }
    var b := 0;
    while b < 32
      invariant 0 <= b <= 32 && 0 < Pow2(b)
      invariant |order| == |ids| && InRange(order, |ids|)
      invariant forall i | 0 <= i < |ids| :: i in order
      invariant Ordered(ids, Pow2(b), order)
    {
      order := BitPass(ids, Pow2(b), order);
      b := b + 1;
    }
    Pow2Of32();
    FullWidth(ids, order);
    keys := seq(|order|, i requires 0 <= i < |order| => ids[order[i]]);
  }

  lemma FullWidth(ids: seq<int>, order: seq<int>)
    requires AllInt32(ids) && InRange(order, |ids|) && Ordered(ids, RANGE, order)
    ensures forall i, j | 0 <= i < j < |order| ::
              ids[order[i]] < ids[order[j]] || (ids[order[i]] == ids[order[j]] && order[i] < order[j])
  {
    forall i, j | 0 <= i < j < |order|
      ensures ids[order[i]] < ids[order[j]] || (ids[order[i]] == ids[order[j]] && order[i] < order[j])
    {
      assert Before(ids, RANGE, order[i], order[j]);
    }
  }
}
