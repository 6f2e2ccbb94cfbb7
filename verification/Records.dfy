/** The two-file format of a saved table: fixed-size keys in one file, fixed-size values in the other. */
module Records {
  import opened Tensors

  newtype Byte = x: int | 0 <= x < 256

  type Bytes = seq<Byte>

  datatype Pair = Pair(key: Bytes, value: Bytes)

  ghost predicate Sized(ps: seq<Pair>, sk: nat, sv: nat) {
    forall i | 0 <= i < |ps| :: |ps[i].key| == sk && |ps[i].value| == sv
  }

  ghost predicate DistinctKeys(ps: seq<Pair>) {
    forall i, j | 0 <= i < j < |ps| :: ps[i].key != ps[j].key
  }

  function Keys(ps: seq<Pair>): Bytes {
    if ps == [] then [] else Keys(ps[..|ps| - 1]) + ps[|ps| - 1].key
  }

  function Values(ps: seq<Pair>): Bytes {
    if ps == [] then [] else Values(ps[..|ps| - 1]) + ps[|ps| - 1].value
  }

  lemma {:induction false} EncodeConcat(a: seq<Pair>, b: seq<Pair>)
    ensures Keys(a + b) == Keys(a) + Keys(b) && Values(a + b) == Values(a) + Values(b)
  {
    if b == [] {
      assert a + b == a;
    } else {
      var n := |b| - 1;
      EncodeConcat(a, b[..n]);
      assert (a + b)[..|a + b| - 1] == a + b[..n];
      assert Keys(a) + (Keys(b[..n]) + b[n].key) == (Keys(a) + Keys(b[..n])) + b[n].key;
      assert Values(a) + (Values(b[..n]) + b[n].value) == (Values(a) + Values(b[..n])) + b[n].value;
    }
  }

  lemma EncodeSnoc(a: seq<Pair>, p: Pair)
    ensures Keys(a + [p]) == Keys(a) + p.key && Values(a + [p]) == Values(a) + p.value
  {
    assert (a + [p])[..|a|] == a;
  }

  lemma {:induction false} EncodeSize(ps: seq<Pair>, sk: nat, sv: nat)
    requires Sized(ps, sk, sv)
    ensures |Keys(ps)| == |ps| * sk && |Values(ps)| == |ps| * sv
  {
    if ps != [] {
      var n := |ps| - 1;
      EncodeSize(ps[..n], sk, sv);
      Distribute(n, 1, sk);
      Distribute(n, 1, sv);
    }
  }

  /** Record i of a file of records of one size. */
  function Record(file: Bytes, size: nat, i: nat): Bytes
    requires i * size + size <= |file|
  {
    file[i * size..i * size + size]
  }

  /** The first n records of the two files. */
  function Decode(keys: Bytes, values: Bytes, sk: nat, sv: nat, n: nat): (ps: seq<Pair>)
    requires n * sk <= |keys| && n * sv <= |values|
    ensures |ps| == n
  {
    if n == 0 then [] else
      Distribute(n - 1, 1, sk);
      Distribute(n - 1, 1, sv);
      Decode(keys, values, sk, sv, n - 1) + [Pair(Record(keys, sk, n - 1), Record(values, sv, n - 1))]
  }

  lemma {:induction false} DecodeAt(keys: Bytes, values: Bytes, sk: nat, sv: nat, n: nat, i: nat)
    requires n * sk <= |keys| && n * sv <= |values| && i < n
    ensures i * sk + sk <= |keys| && i * sv + sv <= |values|
    ensures Decode(keys, values, sk, sv, n)[i] == Pair(Record(keys, sk, i), Record(values, sv, i))
  {
    RowBound(sk, n, i);
    RowBound(sv, n, i);
    Distribute(n - 1, 1, sk);
    Distribute(n - 1, 1, sv);
    if i < n - 1 {
      DecodeAt(keys, values, sk, sv, n - 1, i);
    }
  }

  /** Two files that agree on their first n records decode alike. */
  lemma DecodeSame(keys: Bytes, values: Bytes, keys': Bytes, values': Bytes, sk: nat, sv: nat, n: nat)
    requires n * sk <= |keys| && n * sv <= |values| && n * sk <= |keys'| && n * sv <= |values'|
    requires keys[..n * sk] == keys'[..n * sk] && values[..n * sv] == values'[..n * sv]
    ensures Decode(keys, values, sk, sv, n) == Decode(keys', values', sk, sv, n)
  {
    assert 0 * sk == 0 && 0 * sv == 0;
    DecodeWindow(keys', values', sk, sv, n, 0, n, keys, values);
    assert Decode(keys', values', sk, sv, n)[0..n] == Decode(keys', values', sk, sv, n);
  }

  /** A record appended behind n whole records is record n. */
  lemma LastRecordOf(file: Bytes, record: Bytes, size: nat, n: nat)
    requires |file| == n * size && |record| == size
    ensures Record(file + record, size, n) == record
  {
  }

  /** Decoding undoes encoding. */
  lemma {:induction false} DecodeEncode(ps: seq<Pair>, sk: nat, sv: nat)
    requires Sized(ps, sk, sv)
    ensures |ps| * sk <= |Keys(ps)| && |ps| * sv <= |Values(ps)|
    ensures Decode(Keys(ps), Values(ps), sk, sv, |ps|) == ps
  {
    EncodeSize(ps, sk, sv);
    if ps != [] {
      var n := |ps| - 1;
      var before, p := ps[..n], ps[n];
      EncodeSize(before, sk, sv);
      DecodeEncode(before, sk, sv);
      Distribute(n, 1, sk);
      Distribute(n, 1, sv);
      DecodeSame(Keys(ps), Values(ps), Keys(before), Values(before), sk, sv, n);
      LastRecordOf(Keys(before), p.key, sk, n);
      LastRecordOf(Values(before), p.value, sv, n);
      assert ps == before + [p];
    }
  }

  /** Where each pair is: its key in the key file and its value in the value file, at its number. */
  lemma FilesHoldRecords(ps: seq<Pair>, sk: nat, sv: nat, i: nat)
    requires Sized(ps, sk, sv) && i < |ps|
    ensures 0 <= i * sk <= i * sk + sk <= |Keys(ps)| && Keys(ps)[i * sk..i * sk + sk] == ps[i].key
    ensures 0 <= i * sv <= i * sv + sv <= |Values(ps)| && Values(ps)[i * sv..i * sv + sv] == ps[i].value
    ensures |Keys(ps)| == |ps| * sk && |Values(ps)| == |ps| * sv
  {
    EncodeSize(ps, sk, sv);
    DecodeEncode(ps, sk, sv);
    DecodeAt(Keys(ps), Values(ps), sk, sv, |ps|, i);
  }

  lemma SliceOfWindow(window: Bytes, whole: Bytes, at: nat, len: nat, from: nat, size: nat)
    requires from + size <= len <= |window| && at + len <= |whole| && window[..len] == whole[at..at + len]
    ensures window[from..from + size] == whole[at + from..at + from + size]
  {
    var a, b := window[from..from + size], whole[at + from..at + from + size];
    forall k | 0 <= k < size
      ensures a[k] == b[k]
    {
      assert a[k] == window[..len][from + k];
      assert b[k] == whole[at..at + len][from + k];
    }
  }

  /** A window of m whole records, starting at record i, holds those records. */
  lemma WindowRecord(window: Bytes, whole: Bytes, size: nat, i: nat, m: nat, j: nat)
    requires i * size + m * size <= |whole| && m * size <= |window| && j < m
    requires window[..m * size] == whole[i * size..i * size + m * size]
    ensures j * size + size <= |window| && (i + j) * size + size <= |whole|
    ensures Record(window, size, j) == Record(whole, size, i + j)
  {
    RowBound(size, m, j);
    Distribute(i, j, size);
    SliceOfWindow(window, whole, i * size, m * size, j * size, size);
  }

  lemma DecodeWindowAt(keys: Bytes, values: Bytes, sk: nat, sv: nat, n: nat, i: nat, m: nat,
                       kb: Bytes, vb: Bytes, j: nat)
    requires n * sk <= |keys| && n * sv <= |values| && i + m <= n && j < m
    requires i * sk + m * sk <= |keys| && i * sv + m * sv <= |values|
    requires m * sk <= |kb| && kb[..m * sk] == keys[i * sk..i * sk + m * sk]
    requires m * sv <= |vb| && vb[..m * sv] == values[i * sv..i * sv + m * sv]
    ensures Decode(kb, vb, sk, sv, m)[j] == Decode(keys, values, sk, sv, n)[i + j]
  {
    WindowRecord(kb, keys, sk, i, m, j);
    WindowRecord(vb, values, sv, i, m, j);
    DecodeAt(kb, vb, sk, sv, m, j);
    DecodeAt(keys, values, sk, sv, n, i + j);
  }

  /** A window of whole records decodes to the same records. */
  lemma DecodeWindow(keys: Bytes, values: Bytes, sk: nat, sv: nat, n: nat, i: nat, m: nat, kb: Bytes, vb: Bytes)
    requires n * sk <= |keys| && n * sv <= |values| && i + m <= n
    requires i * sk + m * sk <= |keys| && i * sv + m * sv <= |values|
    requires m * sk <= |kb| && kb[..m * sk] == keys[i * sk..i * sk + m * sk]
    requires m * sv <= |vb| && vb[..m * sv] == values[i * sv..i * sv + m * sv]
    ensures Decode(kb, vb, sk, sv, m) == Decode(keys, values, sk, sv, n)[i..i + m]
  {
    var a, b := Decode(kb, vb, sk, sv, m), Decode(keys, values, sk, sv, n);
    forall j: nat | j < m
      ensures a[j] == b[i + j]
    {
      DecodeWindowAt(keys, values, sk, sv, n, i, m, kb, vb, j);
    }
  }

  // ---------- tables ----------

  type Contents = map<Bytes, Bytes>

  /** Insert the pairs one after the other, a later one over an earlier one. */
  function Insert(t: Contents, ps: seq<Pair>): Contents {
    if ps == [] then t else Insert(t, ps[..|ps| - 1])[ps[|ps| - 1].key := ps[|ps| - 1].value]
  }

  lemma {:induction false} InsertConcat(t: Contents, a: seq<Pair>, b: seq<Pair>)
    ensures Insert(t, a + b) == Insert(Insert(t, a), b)
  {
    if b == [] {
      assert a + b == a;
    } else {
      var n := |b| - 1;
      InsertConcat(t, a, b[..n]);
      assert (a + b)[..|a| + n] == a + b[..n] && (a + b)[|a| + n] == b[n];
    }
  }

  lemma {:induction false} InsertKeys(t: Contents, ps: seq<Pair>)
    ensures forall k :: k in Insert(t, ps) <==> k in t || exists i | 0 <= i < |ps| :: ps[i].key == k
    ensures forall k | k in t && (forall i | 0 <= i < |ps| :: ps[i].key != k) :: Insert(t, ps)[k] == t[k]
  {
    if ps != [] {
      var n := |ps| - 1;
      InsertKeys(t, ps[..n]);
      forall k
        ensures k in Insert(t, ps) <==> k in t || exists i | 0 <= i < |ps| :: ps[i].key == k
      {
        if i :| 0 <= i < n && ps[..n][i].key == k {
          assert ps[i].key == k;
        }
        if i :| 0 <= i < |ps| && ps[i].key == k && i < n {
          assert ps[..n][i].key == k;
        }
      }
    }
  }

  /** The last pair of a key decides; other keys keep what they had. */
  lemma {:induction false} InsertedLast(t: Contents, ps: seq<Pair>, i: nat)
    requires i < |ps| && forall j | i < j < |ps| :: ps[j].key != ps[i].key
    ensures ps[i].key in Insert(t, ps) && Insert(t, ps)[ps[i].key] == ps[i].value
  {
    var n := |ps| - 1;
    if i < n {
      InsertedLast(t, ps[..n], i);
    }
  }

  ghost predicate HasKey(ps: seq<Pair>, k: Bytes) {
    exists i | 0 <= i < |ps| :: ps[i].key == k
  }

  /** Table t with the pairs inserted in some order: a key that occurs has one of its values. */
  ghost predicate AnyOrder(t: Contents, now: Contents, ps: seq<Pair>) {
    && (forall k :: k in now <==> k in t || HasKey(ps, k))
    && (forall k | k in now :: if HasKey(ps, k) then Pair(k, now[k]) in ps else now[k] == t[k])
  }

  /** For distinct keys the order does not matter. */
  lemma AnyOrderIsInsert(t: Contents, now: Contents, ps: seq<Pair>)
    requires DistinctKeys(ps)
    ensures AnyOrder(t, now, ps) <==> now == Insert(t, ps)
  {
    InsertKeys(t, ps);
    InsertIsAnOrder(t, ps);
    if AnyOrder(t, now, ps) {
      forall k | k in now
        ensures now[k] == Insert(t, ps)[k]
      {
        if HasKey(ps, k) {
          var i: nat :| i < |ps| && ps[i] == Pair(k, now[k]);
          InsertedLast(t, ps, i);
        }
      }
    }
  }

  /** Inserting one after the other is one of the orders. */
  lemma {:induction false} InsertIsAnOrder(t: Contents, ps: seq<Pair>)
    ensures AnyOrder(t, Insert(t, ps), ps)
  {
    InsertKeys(t, ps);
    if ps != [] {
      var n := |ps| - 1;
      InsertIsAnOrder(t, ps[..n]);
      InsertKeys(t, ps[..n]);
      forall k | HasKey(ps, k)
        ensures Pair(k, Insert(t, ps)[k]) in ps
      {
        if k == ps[n].key {
          assert ps[n] == Pair(k, ps[n].value);
        } else {
          var i :| 0 <= i < |ps| && ps[i].key == k;
          assert ps[..n][i].key == k;
        }
      }
    }
  }

  lemma AnyOrderConcat(t: Contents, was: Contents, now: Contents, a: seq<Pair>, b: seq<Pair>)
    requires AnyOrder(t, was, a) && AnyOrder(was, now, b)
    ensures AnyOrder(t, now, a + b)
  {
    forall k
      ensures HasKey(a + b, k) <==> HasKey(a, k) || HasKey(b, k)
    {
      HasKeyConcat(a, b, k);
    }
  }

  /** ps lists the contents: every key, perhaps more than once, always with its value. */
  ghost predicate Lists(ps: seq<Pair>, table: Contents) {
    && (forall i | 0 <= i < |ps| :: ps[i].key in table && table[ps[i].key] == ps[i].value)
    && (forall k | k in table :: HasKey(ps, k))
  }

  /** Inserting a listing of a table into t, in any order, gives t overridden by the table. */
  lemma AnyOrderOfListing(t: Contents, now: Contents, ps: seq<Pair>, table: Contents)
    requires Lists(ps, table) && AnyOrder(t, now, ps)
    ensures now == t + table
  {
    forall k | k in now
      ensures k in t + table && now[k] == (t + table)[k]
    {
      if HasKey(ps, k) {
        var i :| 0 <= i < |ps| && ps[i] == Pair(k, now[k]);
      }
    }
  }

  lemma InsertListing(t: Contents, ps: seq<Pair>, table: Contents)
    requires Lists(ps, table)
    ensures Insert(t, ps) == t + table
  {
    InsertIsAnOrder(t, ps);
    AnyOrderOfListing(t, Insert(t, ps), ps, table);
  }

  /** The record counts the loaders compute from the lengths of the two files. */
  lemma EncodedCounts(ps: seq<Pair>, sk: nat, sv: nat)
    requires 0 < sk && 0 < sv && Sized(ps, sk, sv)
    ensures |Keys(ps)| / sk == |Values(ps)| / sv == |ps| && |Keys(ps)| % sk == 0
  {
    EncodeSize(ps, sk, sv);
    CellSplit(sk, |ps|, 0);
    CellSplit(sv, |ps|, 0);
  }

  /** Whatever wrote the records of a listing of a table, reading them back into an empty table, in any
      order, gives the table. */
  lemma SavedTableLoads(ps: seq<Pair>, table: Contents, sk: nat, sv: nat, now: Contents)
    requires 0 < sk && 0 < sv && Sized(ps, sk, sv) && Lists(ps, table)
    ensures |Keys(ps)| / sk == |Values(ps)| / sv == |ps| && |Keys(ps)| % sk == 0
    ensures |ps| * sk <= |Keys(ps)| && |ps| * sv <= |Values(ps)|
    ensures AnyOrder(map[], now, Decode(Keys(ps), Values(ps), sk, sv, |ps|)) <==> now == table
  {
    EncodedCounts(ps, sk, sv);
    DecodeEncode(ps, sk, sv);
    ListingIsExact(ps, table, now);
  }

  lemma ListingIsExact(ps: seq<Pair>, table: Contents, now: Contents)
    requires Lists(ps, table)
    ensures AnyOrder(map[], now, ps) <==> now == table
  {
    var empty: Contents := map[];
    assert empty + table == table;
    if AnyOrder(empty, now, ps) {
      AnyOrderOfListing(empty, now, ps, table);
    }
    InsertListing(empty, ps, table);
    InsertIsAnOrder(empty, ps);
  }

  lemma InsertTwo(a: seq<Pair>, b: seq<Pair>, tableA: Contents, tableB: Contents)
    requires Lists(a, tableA) && Lists(b, tableB)
    ensures Insert(map[], a + b) == tableA + tableB
  {
    var empty: Contents := map[];
    InsertConcat(empty, a, b);
    InsertListing(empty, a, tableA);
    assert empty + tableA == tableA;
    InsertListing(tableA, b, tableB);
  }

  /** The two tables have the same value for every key they share. */
  ghost predicate Agree(a: Contents, b: Contents) {
    forall k | k in a && k in b :: a[k] == b[k]
  }

  lemma HasKeyConcat(a: seq<Pair>, b: seq<Pair>, k: Bytes)
    ensures HasKey(a + b, k) <==> HasKey(a, k) || HasKey(b, k)
  {
    if HasKey(a, k) {
      var i :| 0 <= i < |a| && a[i].key == k;
      assert (a + b)[i].key == k;
    }
    if HasKey(b, k) {
      var i :| 0 <= i < |b| && b[i].key == k;
      assert (a + b)[|a| + i].key == k;
    }
  }

  /** The keys of a listing, and their pairs. */
  lemma ListedKey(ps: seq<Pair>, table: Contents, k: Bytes)
    requires Lists(ps, table)
    ensures HasKey(ps, k) <==> k in table
    ensures k in table ==> Pair(k, table[k]) in ps
  {
    if k in table {
      var i :| 0 <= i < |ps| && ps[i].key == k;
      assert ps[i] == Pair(k, table[k]);
    }
  }

  /** The second listing inserted before the first is one of the orders, too. */
  lemma OtherOrder(a: seq<Pair>, b: seq<Pair>, tableA: Contents, tableB: Contents)
    requires Lists(a, tableA) && Lists(b, tableB)
    ensures AnyOrder(map[], tableB + tableA, a + b)
  {
    forall k
      ensures HasKey(a + b, k) <==> k in tableB + tableA
      ensures k in tableB + tableA ==> Pair(k, (tableB + tableA)[k]) in a + b
    {
      HasKeyConcat(a, b, k);
      ListedKey(a, tableA, k);
      ListedKey(b, tableB, k);
    }
  }

  /** Two listings one behind the other give the first table overridden by the second in every order of
      insertion exactly when the tables agree on the keys they share. */
  lemma AnyOrderOfTwoExactly(a: seq<Pair>, b: seq<Pair>, tableA: Contents, tableB: Contents)
    requires Lists(a, tableA) && Lists(b, tableB)
    ensures (forall now | AnyOrder(map[], now, a + b) :: now == tableA + tableB) <==> Agree(tableA, tableB)
  {
    if Agree(tableA, tableB) {
      BothListed(a, b, tableA, tableB);
      forall now | AnyOrder(map[], now, a + b)
        ensures now == tableA + tableB
      {
        ListingIsExact(a + b, tableA + tableB, now);
      }
    } else {
      var k :| k in tableA && k in tableB && tableA[k] != tableB[k];
      OtherOrder(a, b, tableA, tableB);
      assert (tableB + tableA)[k] != (tableA + tableB)[k];
    }
  }

  lemma BothListed(a: seq<Pair>, b: seq<Pair>, tableA: Contents, tableB: Contents)
    requires Lists(a, tableA) && Lists(b, tableB) && Agree(tableA, tableB)
    ensures Lists(a + b, tableA + tableB)
  {
    forall k | k in tableA + tableB
      ensures HasKey(a + b, k)
    {
      HasKeyConcat(a, b, k);
      ListedKey(a, tableA, k);
      ListedKey(b, tableB, k);
    }
  }
}
