/** What a load after a save gives: after a save from scratch, after an append, and after a Redis save. */
module SaveRestore {
  import opened Records
  import opened Checkpoint
  import opened CheckpointLoad
  import opened ShardDirectory

  /** Loading the shard into an empty table succeeds and gives the table: pair by pair one after the other,
      in chunks whatever the order inside an upsert. */
  ghost predicate Restores(files: map<string, Bytes>, shard: string, chunked: bool, sk: nat, sv: nat, table: Contents)
    requires 0 < sk && 0 < sv
  {
    && FileStatus(files, shard, chunked, sk, sv) == Loaded
    && Insert(map[], ShardRecords(files, shard, sk, sv)) == table
    && (chunked ==> forall now | AnyOrder(map[], now, ShardRecords(files, shard, sk, sv)) :: now == table)
  }

  /** Load one shard into a new table. */
  method Restore(files: map<string, Bytes>, shard: string, chunked: bool, sk: nat, sv: nat, bufferSize: nat)
    returns (status: LoadStatus, table: Table)
    requires 0 < sk && 0 < sv && 0 < bufferSize
    ensures fresh(table) && status == FileStatus(files, shard, chunked, sk, sv)
    ensures forall saved | Restores(files, shard, chunked, sk, sv, saved) :: table.contents == saved
  {
    table := new Table();
    status := LoadFile(files, shard, chunked, sk, sv, bufferSize, table);
  }

  // ---------- GPU and CPU ----------

  /** The shard's files hold just the encoded pairs. */
  ghost predicate Encodes(files: map<string, Bytes>, shard: string, ps: seq<Pair>) {
    && KeyPath(shard, false) in files && files[KeyPath(shard, false)] == Keys(ps)
    && ValuePath(shard, false) in files && files[ValuePath(shard, false)] == Values(ps)
  }

  lemma EncodedRecords(files: map<string, Bytes>, shard: string, chunked: bool, ps: seq<Pair>, sk: nat, sv: nat)
    requires 0 < sk && 0 < sv && Sized(ps, sk, sv) && Encodes(files, shard, ps)
    ensures FileStatus(files, shard, chunked, sk, sv) == Loaded && ShardRecords(files, shard, sk, sv) == ps
  {
    EncodedCounts(ps, sk, sv);
    DecodeEncode(ps, sk, sv);
  }

  /** After a save from scratch that reached its end, by whichever table and buffer size, the files load without
      error, by either loader and any buffer size, to exactly the saved table. */
  lemma SaveThenLoad(before: map<string, Bytes>, after: map<string, Bytes>, filepath: string, tmp: bool,
                     ps: seq<Pair>, table: Contents, sk: nat, sv: nat, chunked: bool)
    requires 0 < sk && 0 < sv && Sized(ps, sk, sv) && Lists(ps, table)
    requires Saved(before, after, filepath, false, tmp, ps)
    ensures Restores(after, filepath, chunked, sk, sv, table)
  {
    assert [] + Keys(ps) == Keys(ps) && [] + Values(ps) == Values(ps);
    EncodedRecords(after, filepath, chunked, ps, sk, sv);
    InsertIsAnOrder(map[], ps);
    forall now | AnyOrder(map[], now, ps)
      ensures now == table
    {
      ListingIsExact(ps, table, now);
    }
  }

  /** After an append to files that hold a saved table: pair by pair the load gives that table overridden by the
      appended one; in chunks it does so exactly when the two agree on the keys they share. */
  lemma AppendThenLoadExactly(before: map<string, Bytes>, after: map<string, Bytes>, filepath: string, tmp: bool,
                              a: seq<Pair>, b: seq<Pair>, tableA: Contents, tableB: Contents,
                              sk: nat, sv: nat, chunked: bool)
    requires 0 < sk && 0 < sv && Sized(a, sk, sv) && Sized(b, sk, sv) && Lists(a, tableA) && Lists(b, tableB)
    requires Base(before, KeyPath(filepath, tmp), true) == Keys(a)
    requires Base(before, ValuePath(filepath, tmp), true) == Values(a)
    requires Saved(before, after, filepath, true, tmp, b)
    ensures FileStatus(after, filepath, chunked, sk, sv) == Loaded
    ensures Restores(after, filepath, chunked, sk, sv, tableA + tableB) <==> !chunked || Agree(tableA, tableB)
  {
    EncodeConcat(a, b);
    EncodedRecords(after, filepath, chunked, a + b, sk, sv);
    InsertTwo(a, b, tableA, tableB);
    AnyOrderOfTwoExactly(a, b, tableA, tableB);
  }

  /** One key saved twice with different values: in chunks the older value may win. */
  lemma AppendedKeyMayKeepItsOldValue()
    ensures AnyOrder(map[], map[[1] := [2]], [Pair([1], [2])] + [Pair([1], [3])])
    ensures !Agree(map[[1] := [2]], map[[1] := [3]])
  {
    var a, b := [Pair([1], [2])], [Pair([1], [3])];
    var tableA: Contents, tableB: Contents := map[[1] := [2]], map[[1] := [3]];
    assert a[0].key == [1] && b[0].key == [1];
    OtherOrder(a, b, tableA, tableB);
    assert tableB + tableA == tableA;
  }

  // ---------- Redis ----------

  /** The shard's real files exist and hold no record. */
  ghost predicate NoRecord(files: map<string, Bytes>, shard: string, chunked: bool, sk: nat, sv: nat) {
    && KeyPath(shard, false) in files && ValuePath(shard, false) in files
    && |files[KeyPath(shard, false)]| < sk && |files[ValuePath(shard, false)]| < sv
    && (!chunked ==> files[KeyPath(shard, false)] == [])
  }

  lemma FewerThanOne(len: nat, size: nat)
    requires 0 < size
    ensures len / size == 0 <==> len < size
    ensures len < size ==> len % size == len
  {
  }

  /** An empty table is restored exactly from files that hold no record. */
  lemma EmptyRestoresExactly(files: map<string, Bytes>, shard: string, chunked: bool, sk: nat, sv: nat)
    requires 0 < sk && 0 < sv
    ensures Restores(files, shard, chunked, sk, sv, map[]) <==> NoRecord(files, shard, chunked, sk, sv)
  {
    if KeyPath(shard, false) in files && ValuePath(shard, false) in files {
      var keys, values := files[KeyPath(shard, false)], files[ValuePath(shard, false)];
      FewerThanOne(|keys|, sk);
      FewerThanOne(|values|, sv);
      EmptyExactly(ShardRecords(files, shard, sk, sv));
    }
  }

  lemma EmptyExactly(ps: seq<Pair>)
    ensures Insert(map[], ps) == map[] <==> ps == []
    ensures ps == [] ==> forall now | AnyOrder(map[], now, ps) :: now == map[]
  {
    if ps != [] {
      assert ps[|ps| - 1].key in Insert(map[], ps);
    }
  }

  /** The save of an empty Redis table returns before the renaming: where temporary files are used, whatever the
      real files held is still there. */
  lemma EmptyRedisSaveRestoresExactly(before: map<string, Bytes>, after: map<string, Bytes>, filepath: string,
                                      tmp: bool, sk: nat, sv: nat, chunked: bool)
    requires 0 < sk && 0 < sv && RedisSaved(before, after, filepath, false, tmp, [], 0, sv)
    ensures Restores(after, filepath, chunked, sk, sv, map[]) <==> !tmp || NoRecord(before, filepath, chunked, sk, sv)
  {
    PathsDiffer(filepath);
    EmptyRestoresExactly(after, filepath, chunked, sk, sv);
  }

  /** Records with a value cut short do not give the table, in no order. */
  lemma CutListingDiffers(ps: seq<Pair>, table: Contents, sk: nat, sv: nat, now: Contents)
    requires LongEnough(ps, sk, sv) && Lists(ps, table) && !Sized(ps, sk, sv)
    requires AnyOrder(map[], now, Cut(ps, sv))
    ensures now != table
  {
    var i: nat :| i < |ps| && sv < |ps[i].value|;
    var k := ps[i].key;
    assert Cut(ps, sv)[i].key == k;
    assert HasKey(Cut(ps, sv), k);
    var j: nat :| j < |ps| && Cut(ps, sv)[j] == Pair(k, now[k]);
    assert |now[k]| == sv;
  }

  /** A successful Redis save from scratch restores the table: always, for values of the expected length, when
      there are any pairs, even if the scan repeats some; for an empty table only as above. */
  lemma RedisSaveRestoresExactly(before: map<string, Bytes>, after: map<string, Bytes>, filepath: string, tmp: bool,
                                 scan: seq<seq<seq<Pair>>>, totalSize: nat, table: Contents,
                                 sk: nat, sv: nat, chunked: bool)
    requires 0 < sk && 0 < sv && ScanOf(scan, sk, sv) && ScanFits(scan, sv) && Lists(Scanned(scan), table)
    requires (totalSize == 0 <==> Scanned(scan) == [])
    requires RedisSaved(before, after, filepath, false, tmp, scan, totalSize, sv)
    ensures Restores(after, filepath, chunked, sk, sv, table)
       <==> if Scanned(scan) == [] then !tmp || NoRecord(before, filepath, chunked, sk, sv)
            else Sized(Scanned(scan), sk, sv)
  {
    var ps := Scanned(scan);
    if ps == [] {
      assert table == map[];
      EmptyRedisSaveRestoresExactly(before, after, filepath, tmp, sk, sv, chunked);
    } else {
      ScanLongEnough(scan, sk, sv);
      ScanSized(scan, sk, sv);
      CutRestoresExactly(before, after, filepath, tmp, ps, table, sk, sv, chunked);
    }
  }

  lemma CutRestoresExactly(before: map<string, Bytes>, after: map<string, Bytes>, filepath: string, tmp: bool,
                           ps: seq<Pair>, table: Contents, sk: nat, sv: nat, chunked: bool)
    requires 0 < sk && 0 < sv && LongEnough(ps, sk, sv) && Lists(ps, table) && Sized(Cut(ps, sv), sk, sv)
    requires Saved(before, after, filepath, false, tmp, Cut(ps, sv))
    ensures Restores(after, filepath, chunked, sk, sv, table) <==> Sized(ps, sk, sv)
  {
    if Sized(ps, sk, sv) {
      CutOfSized(ps, sk, sv);
      SaveThenLoad(before, after, filepath, tmp, ps, table, sk, sv, chunked);
    } else {
      var cut := Cut(ps, sv);
      assert [] + Keys(cut) == Keys(cut) && [] + Values(cut) == Values(cut);
      EncodedRecords(after, filepath, chunked, cut, sk, sv);
      InsertIsAnOrder(map[], cut);
      CutListingDiffers(ps, table, sk, sv, Insert(map[], cut));
    }
  }

  /** Saving an empty Redis table over an earlier save: the earlier table comes back. */
  lemma EmptyRedisSaveKeepsOldTable(after: map<string, Bytes>)
    requires RedisSaved(map["a-keys" := [1], "a-values" := [2]], after, "a", false, true, [[[]]], 0, 1)
    ensures FileStatus(after, "a", true, 1, 1) == FileStatus(after, "a", false, 1, 1) == Loaded
    ensures ShardRecords(after, "a", 1, 1) == [Pair([1], [2])]
    ensures !Restores(after, "a", true, 1, 1, map[])
  {
    PathsDiffer("a");
    assert "a" + "-keys" + "" == "a-keys" && "a" + "-values" + "" == "a-values";
    var ps := [Pair([1], [2])];
    assert Keys(ps) == [] + [1] && Values(ps) == [] + [2];
    EncodedRecords(after, "a", true, ps, 1, 1);
    EncodedRecords(after, "a", false, ps, 1, 1);
    EmptyRestoresExactly(after, "a", true, 1, 1);
  }

  // ---------- a save and a load, one after the other ----------

  lemma ListsExactly(ps: seq<Pair>, table: Contents)
    requires forall p: Pair :: p in ps <==> p.key in table && table[p.key] == p.value
    ensures Lists(ps, table)
  {
    forall i | 0 <= i < |ps|
      ensures ps[i].key in table && table[ps[i].key] == ps[i].value
    {
      assert ps[i] in ps;
    }
    forall k | k in table
      ensures HasKey(ps, k)
    {
      assert Pair(k, table[k]) in ps;
    }
  }

  ghost predicate SizedSlots(slots: seq<Slot>, sk: nat, sv: nat) {
    forall p: Pair | Full(p) in slots :: |p.key| == sk && |p.value| == sv
  }

  lemma SlotsAreListed(slots: seq<Slot>, table: Contents, sk: nat, sv: nat)
    requires SizedSlots(slots, sk, sv)
    requires forall p: Pair :: Full(p) in slots <==> p.key in table && table[p.key] == p.value
    ensures Lists(Occupied(slots), table) && Sized(Occupied(slots), sk, sv)
  {
    forall p: Pair
      ensures p in Occupied(slots) <==> p.key in table && table[p.key] == p.value
    {
      OccupiedExactly(slots, p);
    }
    ListsExactly(Occupied(slots), table);
    forall i | 0 <= i < |Occupied(slots)|
      ensures |Occupied(slots)[i].key| == sk && |Occupied(slots)[i].value| == sv
    {
      OccupiedExactly(slots, Occupied(slots)[i]);
    }
  }

  /** The GPU table saved slot window by slot window and loaded by either loader: the full slots' pairs. */
  method SaveGpuThenRestore(fs: FileSystem, filepath: string, slots: seq<Slot>, ghost table: Contents, sk: nat,
                            sv: nat, saveBuffer: nat, loadBuffer: nat, tmp: bool, chunked: bool)
    returns (status: LoadStatus, loaded: Table)
    requires 0 < sk && 0 < sv && 0 < saveBuffer && 0 < loadBuffer && SizedSlots(slots, sk, sv)
    requires forall p: Pair :: Full(p) in slots <==> p.key in table && table[p.key] == p.value
    modifies fs
    ensures status == Loaded && fresh(loaded) && loaded.contents == table
  {
    ghost var before := fs.files;
    SaveGpuToFileSystem(fs, filepath, slots, saveBuffer, false, tmp);
    SlotsAreListed(slots, table, sk, sv);
    SaveThenLoad(before, fs.files, filepath, tmp, Occupied(slots), table, sk, sv, chunked);
    status, loaded := Restore(fs.files, filepath, chunked, sk, sv, loadBuffer);
  }

  /** The same for the CPU table, of which the dumps deliver a listing. */
  method SaveCpuThenRestore(fs: FileSystem, filepath: string, listing: seq<Pair>, ghost table: Contents, sk: nat,
                            sv: nat, saveBuffer: nat, loadBuffer: nat, tmp: bool, chunked: bool)
    returns (status: LoadStatus, loaded: Table)
    requires 0 < sk && 0 < sv && 0 < saveBuffer && 0 < loadBuffer && Sized(listing, sk, sv)
    requires forall p: Pair :: p in listing <==> p.key in table && table[p.key] == p.value
    modifies fs
    ensures status == Loaded && fresh(loaded) && loaded.contents == table
  {
    ghost var before := fs.files;
    SaveCpuToFileSystem(fs, filepath, listing, saveBuffer, false, tmp);
    ListsExactly(listing, table);
    SaveThenLoad(before, fs.files, filepath, tmp, listing, table, sk, sv, chunked);
    status, loaded := Restore(fs.files, filepath, chunked, sk, sv, loadBuffer);
  }

  /** The replies deliver exactly the entries of the table, each at least once, with values of the expected length. */
  ghost predicate ScanHolds(scan: seq<seq<seq<Pair>>>, table: Contents, sv: nat) {
    && (forall p: Pair :: InScan(scan, p) <==> p.key in table && table[p.key] == p.value)
    && (forall p: Pair | InScan(scan, p) :: |p.value| == sv)
  }

  lemma ScanIsListed(scan: seq<seq<seq<Pair>>>, table: Contents, sk: nat, sv: nat)
    requires ScanOf(scan, sk, sv) && ScanHolds(scan, table, sv)
    ensures ScanFits(scan, sv) && Lists(Scanned(scan), table) && Sized(Scanned(scan), sk, sv)
  {
    forall p: Pair
      ensures p in Scanned(scan) <==> InScan(scan, p)
    {
      ScannedExactly(scan, p);
    }
    ListsExactly(Scanned(scan), table);
    DeliveredFits(scan, table, sv);
    ScanLongEnough(scan, sk, sv);
    forall i | 0 <= i < |Scanned(scan)|
      ensures |Scanned(scan)[i].value| == sv
    {
      assert Scanned(scan)[i] in Scanned(scan);
    }
  }

  lemma DeliveredFits(scan: seq<seq<seq<Pair>>>, table: Contents, sv: nat)
    requires ScanHolds(scan, table, sv)
    ensures ScanFits(scan, sv)
  {
    forall i, j | 0 <= i < |scan| && 0 <= j < |scan[i]|
      ensures Fits(scan[i][j], sv)
    {
      if scan[i][j] != [] {
        assert scan[i][j][0] in scan[i][j];
        assert InBucket(scan[i], scan[i][j][0]);
      }
    }
  }

  /** The same for the Redis table, whatever the replies and their sizes; for an empty table only where the files
      are written in place. */
  method SaveRedisThenRestore(fs: FileSystem, filepath: string, scan: seq<seq<seq<Pair>>>, totalSize: nat,
                              ghost table: Contents, sk: nat, sv: nat, saveBuffer: nat, loadBuffer: nat, tmp: bool,
                              chunked: bool)
    returns (saveStatus: Status, status: LoadStatus, loaded: Table)
    requires 0 < sk && 0 < sv && 0 < saveBuffer && 0 < loadBuffer && ScanOf(scan, sk, sv)
    requires ScanHolds(scan, table, sv) && (totalSize == 0 <==> table == map[]) && (table != map[] || !tmp)
    modifies fs
    ensures saveStatus == Ok && status == Loaded && fresh(loaded) && loaded.contents == table
  {
    ghost var before := fs.files;
    ScanIsListed(scan, table, sk, sv);
    EmptyListing(Scanned(scan), table);
    ghost var bucket, reply;
    saveStatus, bucket, reply := SaveRedisToFileSystem(fs, filepath, scan, totalSize, sk, sv, saveBuffer, false, tmp);
    RedisSaveRestoresExactly(before, fs.files, filepath, tmp, scan, totalSize, table, sk, sv, chunked);
    status, loaded := Restore(fs.files, filepath, chunked, sk, sv, loadBuffer);
  }

  lemma EmptyListing(ps: seq<Pair>, table: Contents)
    requires Lists(ps, table)
    ensures ps == [] <==> table == map[]
  {
    if ps != [] {
      assert ps[0].key in table;
    }
    if table != map[] {
      var k :| k in table;
      assert HasKey(ps, k);
    }
  }
}
