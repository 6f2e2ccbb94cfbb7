/** Loading a table from its two files, pair by pair or chunk by chunk. */
module CheckpointLoad {
  import opened Tensors
  import opened Records
  import opened Checkpoint

  datatype LoadStatus = Loaded | NotFound | CountsDiffer | ReadPastEnd

  class Table {
    var contents: Contents

    constructor ()
      ensures contents == map[]
    {
      contents := map[];
    }

    method InsertOrAssign(key: Bytes, value: Bytes)
      modifies this
      ensures contents == old(contents)[key := value]
    {
      contents := contents[key := value];
    }

    /** Insert the first n records of two buffers, in any order. */
    method Upsert(keys: Bytes, values: Bytes, sk: nat, sv: nat, n: nat)
      requires n * sk <= |keys| && n * sv <= |values|
      modifies this
      ensures AnyOrder(old(contents), contents, Decode(keys, values, sk, sv, n))
    {
      ghost var ps := Decode(keys, values, sk, sv, n);
      var todo := UpTo(n);
      while todo != {}
        invariant forall i | i in todo :: 0 <= i < n
        invariant Upserted(old(contents), contents, ps, todo)
        decreases todo
      {
        var i :| i in todo;
        DecodeAt(keys, values, sk, sv, n, i);
        UpsertStep(old(contents), contents, ps, todo, i);
        contents := contents[Record(keys, sk, i) := Record(values, sv, i)];
        todo := todo - {i};
      }
      UpsertDone(old(contents), contents, ps);
    }
  }

  /** Entry (k, v) is that of a pair already inserted, one not in todo. */
  ghost predicate Inserted(ps: seq<Pair>, todo: set<int>, k: Bytes, v: Bytes) {
    exists i | 0 <= i < |ps| :: i !in todo && ps[i] == Pair(k, v)
  }

  ghost predicate Done(ps: seq<Pair>, todo: set<int>, k: Bytes) {
    exists i | 0 <= i < |ps| :: i !in todo && ps[i].key == k
  }

  /** Keys of the pairs not in todo are in, each with the value of one of them; everything else is as before. */
  ghost predicate Upserted(t: Contents, now: Contents, ps: seq<Pair>, todo: set<int>) {
    && (forall k | Done(ps, todo, k) :: k in now && Inserted(ps, todo, k, now[k]))
    && (forall k | !Done(ps, todo, k) :: (k in now <==> k in t) && (k in t ==> now[k] == t[k]))
  }

  lemma DoneGrows(ps: seq<Pair>, todo: set<int>, i: nat, k: Bytes, v: Bytes)
    requires i in todo && i < |ps|
    ensures Done(ps, todo - {i}, k) <==> Done(ps, todo, k) || k == ps[i].key
    ensures Inserted(ps, todo, k, v) ==> Inserted(ps, todo - {i}, k, v)
    ensures Inserted(ps, todo - {i}, ps[i].key, ps[i].value)
  {
    assert i !in todo - {i} && ps[i] == Pair(ps[i].key, ps[i].value);
    if Done(ps, todo, k) {
      var j :| 0 <= j < |ps| && j !in todo && ps[j].key == k;
      assert j !in todo - {i};
    }
    if Inserted(ps, todo, k, v) {
      var j :| 0 <= j < |ps| && j !in todo && ps[j] == Pair(k, v);
      assert j !in todo - {i};
    }
  }

  lemma UpsertStep(t: Contents, now: Contents, ps: seq<Pair>, todo: set<int>, i: nat)
    requires Upserted(t, now, ps, todo) && i in todo && i < |ps|
    ensures Upserted(t, now[ps[i].key := ps[i].value], ps, todo - {i})
  {
    var next := now[ps[i].key := ps[i].value];
    forall k
      ensures if Done(ps, todo - {i}, k) then k in next && Inserted(ps, todo - {i}, k, next[k])
              else (k in next <==> k in t) && (k in t ==> next[k] == t[k])
    {
      DoneGrows(ps, todo, i, k, if k in now then now[k] else []);
    }
  }

  lemma UpsertDone(t: Contents, now: Contents, ps: seq<Pair>)
    requires Upserted(t, now, ps, {})
    ensures AnyOrder(t, now, ps)
  {
    forall k
      ensures HasKey(ps, k) <==> Done(ps, {}, k)
      ensures k in now ==> (Inserted(ps, {}, k, now[k]) <==> Pair(k, now[k]) in ps)
    {
    }
  }

  // ---------- reading ----------

  /** The next n bytes of a file, or a failure when it is too short. */
  method ReadNBytes(file: Bytes, at: nat, n: nat) returns (ok: bool, data: Bytes)
    requires at <= |file|
    ensures ok <==> at + n <= |file|
    ensures ok ==> data == file[at..at + n]
  {
    if at + n <= |file| {
      return true, file[at..at + n];
    }
    return false, file[at..];
  }

  lemma WholeRecords(file: Bytes, size: nat)
    requires 0 < size
    ensures |file| / size * size <= |file| < |file| / size * size + size
    ensures |file| % size == 0 <==> |file| == |file| / size * size
  {
    assert |file| == |file| / size * size + |file| % size;
  }

  /** The whole records of the two files. */
  ghost function WholeDecode(keys: Bytes, values: Bytes, sk: nat, sv: nat): seq<Pair>
    requires 0 < sk && 0 < sv && |keys| / sk == |values| / sv
  {
    WholeRecords(keys, sk);
    WholeRecords(values, sv);
    Decode(keys, values, sk, sv, |keys| / sk)
  }

  /** Whole record i is the key and the value at that number in the files; a rest shorter than a record is left. */
  lemma WholeRecordAt(keys: Bytes, values: Bytes, sk: nat, sv: nat, i: nat)
    requires 0 < sk && 0 < sv && |keys| / sk == |values| / sv && i < |keys| / sk
    ensures 0 <= i * sk <= i * sk + sk <= |keys| && 0 <= i * sv <= i * sv + sv <= |values|
    ensures var ps := WholeDecode(keys, values, sk, sv);
            |ps| == |keys| / sk && ps[i] == Pair(keys[i * sk..i * sk + sk], values[i * sv..i * sv + sv])
  {
    WholeRecords(keys, sk);
    WholeRecords(values, sv);
    DecodeAt(keys, values, sk, sv, |keys| / sk, i);
  }

  lemma InsertNext(t: Contents, keys: Bytes, values: Bytes, sk: nat, sv: nat, n: nat)
    requires (n + 1) * sk <= |keys| && (n + 1) * sv <= |values|
    requires n * sk + sk <= |keys| && n * sv + sv <= |values| && n * sk <= |keys| && n * sv <= |values|
    ensures Insert(t, Decode(keys, values, sk, sv, n + 1))
         == Insert(t, Decode(keys, values, sk, sv, n))[Record(keys, sk, n) := Record(values, sv, n)]
  {
    var a, b := Decode(keys, values, sk, sv, n + 1), Decode(keys, values, sk, sv, n);
    assert a[..|a| - 1] == b;
  }

  /** Record i of n whole ones, or a failure in the broken one behind them. */
  method LoadPair(keys: Bytes, values: Bytes, sk: nat, sv: nat, ghost i: nat, ghost n: nat,
                  keyOffset: nat, valueOffset: nat, table: Table) returns (status: LoadStatus)
    requires 0 < sk && i <= n && n * sk <= |keys| < n * sk + sk && n * sv <= |values|
    requires keyOffset == i * sk < |keys| && valueOffset == i * sv <= |values|
    modifies table
    ensures status == if i < n then Loaded else ReadPastEnd
    ensures i < n ==> i * sk + sk <= |keys| && i * sv + sv <= |values|
                      && table.contents == old(table.contents)[Record(keys, sk, i) := Record(values, sv, i)]
    ensures i == n ==> table.contents == old(table.contents)
  {
    if i < n {
      RowBound(sk, n, i);
      RowBound(sv, n, i);
    }
    var ok, key := ReadNBytes(keys, keyOffset, sk);
    if !ok {
      LastRecord(i, n, sk, |keys|);
      return ReadPastEnd;
    }
    PastLastRecord(i, n, sk, |keys|);
    var okValue, value := ReadNBytes(values, valueOffset, sv);
    if !okValue {
      return ReadPastEnd;
    }
    table.InsertOrAssign(key, value);
    status := Loaded;
  }

  lemma NextOffsets(i: nat, n: nat, sk: nat, sv: nat, keys: nat, values: nat)
    requires i < n && n * sk <= keys && n * sv <= values
    ensures (i + 1) * sk == i * sk + sk <= keys && (i + 1) * sv == i * sv + sv <= values
  {
    Distribute(i, 1, sk);
    Distribute(i, 1, sv);
    RowBound(sk, n, i);
    RowBound(sv, n, i);
  }

  /** The CPU table's load: one pair at a time. A key file with a broken last record fails there, after
      all whole records are in. */
  method LoadPairs(keys: Bytes, values: Bytes, sk: nat, sv: nat, table: Table) returns (status: LoadStatus)
    requires 0 < sk && 0 < sv
    modifies table
    ensures status == if |keys| / sk != |values| / sv then CountsDiffer
                      else if |keys| % sk != 0 then ReadPastEnd else Loaded
    ensures status == CountsDiffer ==> table.contents == old(table.contents)
    ensures status != CountsDiffer ==> table.contents == Insert(old(table.contents), WholeDecode(keys, values, sk, sv))
  {
    if |keys| / sk != |values| / sv {
      return CountsDiffer;
    }
    WholeRecords(keys, sk);
    WholeRecords(values, sv);
    status := PairLoop(keys, values, sk, sv, |keys| / sk, table);
  }

  method PairLoop(keys: Bytes, values: Bytes, sk: nat, sv: nat, ghost n: nat, table: Table) returns (status: LoadStatus)
    requires 0 < sk && n * sk <= |keys| < n * sk + sk && n * sv <= |values|
    modifies table
    ensures status == if |keys| == n * sk then Loaded else ReadPastEnd
    ensures table.contents == Insert(old(table.contents), Decode(keys, values, sk, sv, n))
  {
    ghost var i: nat := 0;
    var keyOffset, valueOffset := 0, 0;
    assert 0 * sk == 0 && 0 * sv == 0;
    while keyOffset < |keys|
      invariant i <= n && keyOffset == i * sk <= |keys| && valueOffset == i * sv <= |values|
      invariant table.contents == Insert(old(table.contents), Decode(keys, values, sk, sv, i))
      decreases |keys| - keyOffset
    {
      status := LoadPair(keys, values, sk, sv, i, n, keyOffset, valueOffset, table);
      if status != Loaded {
        return;
      }
      NextOffsets(i, n, sk, sv, |keys|, |values|);
      InsertNext(old(table.contents), keys, values, sk, sv, i);
      keyOffset, valueOffset := keyOffset + sk, valueOffset + sv;
      i := i + 1;
    }
    LastRecord(i, n, sk, |keys|);
    status := Loaded;
  }

  /** No room for a record behind the first i, of n whole ones: then i is n. */
  lemma LastRecord(i: nat, n: nat, size: nat, len: nat)
    requires i <= n && n * size <= len < i * size + size
    ensures i == n
  {
    if i < n {
      RowBound(size, n, i);
    }
  }

  lemma PastLastRecord(i: nat, n: nat, size: nat, len: nat)
    requires i <= n && i * size + size <= len < n * size + size
    ensures i < n
  {
  }

  /** A chunk inserted in any order behind the first i records. */
  lemma ChunkWindow(t: Contents, was: Contents, now: Contents, keys: Bytes, values: Bytes, sk: nat, sv: nat,
                    n: nat, i: nat, m: nat, kb: Bytes, vb: Bytes)
    requires n * sk <= |keys| && n * sv <= |values| && i + m <= n
    requires i * sk + m * sk <= |keys| && i * sv + m * sv <= |values|
    requires i * sk <= |keys| && i * sv <= |values| && (i + m) * sk <= |keys| && (i + m) * sv <= |values|
    requires m * sk <= |kb| && kb[..m * sk] == keys[i * sk..i * sk + m * sk]
    requires m * sv <= |vb| && vb[..m * sv] == values[i * sv..i * sv + m * sv]
    requires AnyOrder(t, was, Decode(keys, values, sk, sv, i)) && AnyOrder(was, now, Decode(kb, vb, sk, sv, m))
    ensures AnyOrder(t, now, Decode(keys, values, sk, sv, i + m))
  {
    DecodeWindow(keys, values, sk, sv, n, i, m, kb, vb);
    DecodeTake(keys, values, sk, sv, n, i);
    DecodeTake(keys, values, sk, sv, n, i + m);
    TakeWindow(Decode(keys, values, sk, sv, n), i, m);
    AnyOrderConcat(t, was, now, Decode(keys, values, sk, sv, i), Decode(kb, vb, sk, sv, m));
  }

  lemma TakeWindow<T>(all: seq<T>, i: nat, m: nat)
    requires i + m <= |all|
    ensures all[..i] + all[i..i + m] == all[..i + m]
  {
  }

  lemma DecodeTake(keys: Bytes, values: Bytes, sk: nat, sv: nat, n: nat, i: nat)
    requires n * sk <= |keys| && n * sv <= |values| && i <= n && i * sk <= |keys| && i * sv <= |values|
    ensures Decode(keys, values, sk, sv, i) == Decode(keys, values, sk, sv, n)[..i]
  {
    var a, b := Decode(keys, values, sk, sv, i), Decode(keys, values, sk, sv, n);
    forall j: nat | j < i
      ensures a[j] == b[j]
    {
      DecodeAt(keys, values, sk, sv, i, j);
      DecodeAt(keys, values, sk, sv, n, j);
    }
  }

  /** Records i.. of n fit in what is left; a last chunk takes all of them. */
  lemma ChunkSize(i: nat, n: nat, size: nat, len: nat, bufferSize: nat)
    requires 0 < size && 0 < bufferSize && i <= n && n * size <= len < n * size + size && i * size < len
    ensures var remainder := len - i * size;
            if remainder > bufferSize * size then i + bufferSize <= n && i * size + bufferSize * size <= len
            else remainder / size == n - i
  {
    var remainder := len - i * size;
    Distribute(i, n - i, size);
    if remainder > bufferSize * size {
      Distribute(i, bufferSize, size);
      if n < i + bufferSize {
        RowBound(size, i + bufferSize, n);
      }
    } else {
      var rest := remainder - (n - i) * size;
      CellSplit(size, n - i, rest);
    }
  }

  /** How much the next chunk takes of the `remainder` key bytes left. */
  method PlanChunk(sk: nat, sv: nat, bufferSize: nat, remainder: nat, ghost i: nat, ghost n: nat, ghost keys: nat,
                   ghost values: nat)
    returns (keyReadByte: nat, nkeys: nat, valueReadByte: nat)
    requires 0 < sk && 0 < bufferSize && i <= n && n * sk <= keys < n * sk + sk && n * sv <= values
    requires i * sk < keys && remainder == keys - i * sk
    ensures 0 < keyReadByte <= remainder && i + nkeys <= n
    ensures nkeys * sk <= keyReadByte && valueReadByte == nkeys * sv
    ensures (i + nkeys) * sk == i * sk + nkeys * sk <= keys && (i + nkeys) * sv == i * sv + nkeys * sv <= values
    ensures if keyReadByte < remainder then keyReadByte == nkeys * sk else i + nkeys == n
  {
    ChunkSize(i, n, sk, keys, bufferSize);
    if remainder > bufferSize * sk {
      assert bufferSize * sk >= 1 * sk;
      keyReadByte, nkeys, valueReadByte := bufferSize * sk, bufferSize, bufferSize * sv;
    } else {
      keyReadByte := remainder;
      nkeys := keyReadByte / sk;
      valueReadByte := nkeys * sv;
      Distribute(i, nkeys, sk);
    }
    ChunkFits(i, nkeys, n, sk, keys);
    ChunkFits(i, nkeys, n, sv, values);
  }

  /** Read and insert the records of one chunk. */
  method LoadChunk(keys: Bytes, values: Bytes, sk: nat, sv: nat, ghost i: nat, ghost n: nat, keyOffset: nat,
                   valueOffset: nat, keyReadByte: nat, nkeys: nat, valueReadByte: nat, table: Table, ghost t: Contents)
    requires n * sk <= |keys| && n * sv <= |values| && i + nkeys <= n
    requires keyOffset == i * sk && keyOffset + keyReadByte <= |keys| && nkeys * sk <= keyReadByte
    requires valueOffset == i * sv && valueReadByte == nkeys * sv && valueOffset + valueReadByte <= |values|
    requires (i + nkeys) * sk <= |keys| && (i + nkeys) * sv <= |values|
    requires AnyOrder(t, table.contents, Decode(keys, values, sk, sv, i))
    modifies table
    ensures AnyOrder(t, table.contents, Decode(keys, values, sk, sv, i + nkeys))
  {
    var ok, keyBuffer := ReadNBytes(keys, keyOffset, keyReadByte);
    var okValues, valueBuffer := ReadNBytes(values, valueOffset, valueReadByte);
    KeyChunk(keys, i, nkeys, sk, keyReadByte, keyBuffer);
    table.Upsert(keyBuffer, valueBuffer, sk, sv, nkeys);
    ChunkWindow(t, old(table.contents), table.contents, keys, values, sk, sv, n, i, nkeys, keyBuffer, valueBuffer);
  }

  /** The GPU and Redis tables' load: chunks of the buffer's size, then the remainder. A broken last key
      record is read but not inserted. */
  method LoadChunks(keys: Bytes, values: Bytes, sk: nat, sv: nat, bufferSize: nat, table: Table)
    returns (status: LoadStatus)
    requires 0 < sk && 0 < sv && 0 < bufferSize
    modifies table
    ensures status == if |keys| / sk != |values| / sv then CountsDiffer else Loaded
    ensures status == CountsDiffer ==> table.contents == old(table.contents)
    ensures status == Loaded ==> AnyOrder(old(table.contents), table.contents, WholeDecode(keys, values, sk, sv))
    ensures status == Loaded && DistinctKeys(WholeDecode(keys, values, sk, sv)) ==>
              table.contents == Insert(old(table.contents), WholeDecode(keys, values, sk, sv))
  {
    if |keys| / sk != |values| / sv {
      return CountsDiffer;
    }
    WholeRecords(keys, sk);
    WholeRecords(values, sv);
    ChunkLoop(keys, values, sk, sv, bufferSize, |keys| / sk, table);
    if DistinctKeys(WholeDecode(keys, values, sk, sv)) {
      AnyOrderIsInsert(old(table.contents), table.contents, WholeDecode(keys, values, sk, sv));
    }
    status := Loaded;
  }

  method ChunkLoop(keys: Bytes, values: Bytes, sk: nat, sv: nat, bufferSize: nat, ghost n: nat, table: Table)
    requires 0 < sk && 0 < bufferSize && n * sk <= |keys| < n * sk + sk && n * sv <= |values|
    modifies table
    ensures AnyOrder(old(table.contents), table.contents, Decode(keys, values, sk, sv, n))
  {
    ghost var i: nat := 0;
    var keyOffset, valueOffset := 0, 0;
    var remainder := |keys| - keyOffset;
    assert 0 * sk == 0 && 0 * sv == 0;
    if remainder == 0 {
      LastRecord(0, n, sk, 0);
    }
    while remainder > 0
      invariant i <= n && keyOffset <= |keys| && remainder == |keys| - keyOffset
      invariant if remainder > 0 then keyOffset == i * sk else i == n
      invariant i * sk <= |keys| && valueOffset == i * sv <= |values|
      invariant AnyOrder(old(table.contents), table.contents, Decode(keys, values, sk, sv, i))
      decreases remainder
    {
      var keyReadByte, nkeys, valueReadByte := PlanChunk(sk, sv, bufferSize, remainder, i, n, |keys|, |values|);
      LoadChunk(keys, values, sk, sv, i, n, keyOffset, valueOffset, keyReadByte, nkeys, valueReadByte, table,
                old(table.contents));
      keyOffset := keyOffset + keyReadByte;
      remainder := |keys| - keyOffset;
      valueOffset := valueOffset + valueReadByte;
      i := i + nkeys;
    }
  }

  lemma ChunkFits(i: nat, m: nat, n: nat, size: nat, len: nat)
    requires i + m <= n && n * size <= len
    ensures (i + m) * size == i * size + m * size <= len
  {
    Distribute(i, m, size);
    Distribute(i + m, n - (i + m), size);
  }

  lemma KeyChunk(keys: Bytes, i: nat, m: nat, sk: nat, read: nat, kb: Bytes)
    requires i * sk + read <= |keys| && m * sk <= read && kb == keys[i * sk..i * sk + read]
    ensures m * sk <= |kb| && kb[..m * sk] == keys[i * sk..i * sk + m * sk]
  {
  }
}
