/** Loading every shard of a directory: find the shards from the file names, then load each once. */
module ShardDirectory {
  import opened Records
  import opened Checkpoint
  import opened CheckpointLoad

  // ---------- shard names ----------

  /** The position of the last dash, or -1. */
  function LastDash(name: string): (i: int)
    ensures -1 <= i < |name| && (i >= 0 ==> name[i] == '-')
    ensures forall j | i < j < |name| :: name[j] != '-'
  {
    if name == [] then -1 else
      var n := |name| - 1;
      if name[n] == '-' then n else LastDash(name[..n])
  }

  /** The name cut at its last dash; without a dash, the whole name. */
  function ShardOf(name: string): string {
    var i := LastDash(name);
    if i < 0 then name else name[..i]
  }

  /** Only the last dash counts: what is behind it, and the dash, go; a name without one stays. */
  lemma ShardOfExactly(name: string)
    ensures '-' !in name ==> ShardOf(name) == name
    ensures '-' in name ==>
              var n := |ShardOf(name)|;
              n < |name| && name == ShardOf(name) + ['-'] + name[n + 1..] && '-' !in name[n + 1..]
  {
  }

  lemma LastDashOf(name: string, i: nat)
    requires i < |name| && name[i] == '-' && forall j | i < j < |name| :: name[j] != '-'
    ensures LastDash(name) == i
  {
  }

  lemma ShardOfSuffix(shard: string, suffix: string)
    requires suffix != [] && suffix[0] == '-' && forall j | 0 < j < |suffix| :: suffix[j] != '-'
    ensures ShardOf(shard + suffix) == shard
  {
    LastDashOf(shard + suffix, |shard|);
  }

  /** All file names of a shard, temporary ones too, give back its name, dashes in it or not. */
  lemma ShardOfFiles(shard: string, tmp: bool)
    ensures ShardOf(KeyPath(shard, tmp)) == shard && ShardOf(ValuePath(shard, tmp)) == shard
  {
    var ending := if tmp then ".tmp" else "";
    assert KeyPath(shard, tmp) == shard + ("-keys" + ending);
    assert ValuePath(shard, tmp) == shard + ("-values" + ending);
    ShardOfSuffix(shard, "-keys" + ending);
    ShardOfSuffix(shard, "-values" + ending);
  }

  predicate StringLess(a: string, b: string) {
    b != [] && (a == [] || a[0] < b[0] || (a[0] == b[0] && StringLess(a[1..], b[1..])))
  }

  lemma {:induction false} LessIsTotal(a: string, b: string)
    ensures StringLess(a, b) || a == b || StringLess(b, a)
  {
    if a != [] && b != [] && a[0] == b[0] {
      LessIsTotal(a[1..], b[1..]);
      assert a == [a[0]] + a[1..] && b == [b[0]] + b[1..];
    }
  }

  lemma {:induction false} LessIsTransitive(a: string, b: string, c: string)
    requires StringLess(a, b) && StringLess(b, c)
    ensures StringLess(a, c)
  {
    if a != [] && a[0] == b[0] == c[0] {
      LessIsTransitive(a[1..], b[1..], c[1..]);
    }
  }

  lemma {:induction false} LessIsIrreflexive(a: string)
    ensures !StringLess(a, a)
  {
    if a != [] {
      LessIsIrreflexive(a[1..]);
    }
  }

  /** The order of names: at the first place where they differ, or by length if there is none. */
  lemma {:induction false} LessExactly(a: string, b: string, i: nat)
    requires i <= |a| && i <= |b| && a[..i] == b[..i]
    requires i == |a| || i == |b| || a[i] != b[i]
    ensures StringLess(a, b) <==> i < |b| && (i == |a| || a[i] < b[i])
  {
    if i > 0 {
      assert a[0] == a[..i][0] && b[0] == b[..i][0];
      assert a[1..][..i - 1] == a[..i][1..] && b[1..][..i - 1] == b[..i][1..];
      LessExactly(a[1..], b[1..], i - 1);
    }
  }

  predicate AtMost(a: string, b: string) {
    a == b || StringLess(a, b)
  }

  ghost predicate SortedNames(s: seq<string>) {
    forall i, j | 0 <= i < j < |s| :: AtMost(s[i], s[j])
  }

  ghost predicate StrictlySorted(s: seq<string>) {
    forall i, j | 0 <= i < j < |s| :: StringLess(s[i], s[j])
  }

  /** Put a name where it belongs among sorted ones. */
  method InsertName(s: seq<string>, x: string) returns (t: seq<string>)
    requires SortedNames(s)
    ensures SortedNames(t) && multiset(t) == multiset(s) + multiset{x}
  {
    var i := |s|;
    while i > 0 && StringLess(x, s[i - 1])
      invariant 0 <= i <= |s|
      invariant forall j | i <= j < |s| :: AtMost(x, s[j])
    {
      i := i - 1;
    }
    t := s[..i] + [x] + s[i..];
    if i > 0 {
      LessIsTotal(x, s[i - 1]);
      BelowInserted(s, x, i);
    }
    InsertedSorts(s, x, i);
    assert s == s[..i] + s[i..];
  }

  lemma BelowInserted(s: seq<string>, x: string, i: nat)
    requires SortedNames(s) && 0 < i <= |s| && AtMost(s[i - 1], x)
    ensures forall j | 0 <= j < i :: AtMost(s[j], x)
  {
    forall j | 0 <= j < i
      ensures AtMost(s[j], x)
    {
      if j < i - 1 && s[j] != s[i - 1] && s[i - 1] != x {
        LessIsTransitive(s[j], s[i - 1], x);
      }
    }
  }

  lemma InsertedSorts(s: seq<string>, x: string, i: nat)
    requires SortedNames(s) && i <= |s|
    requires (forall j | 0 <= j < i :: AtMost(s[j], x)) && forall j | i <= j < |s| :: AtMost(x, s[j])
    ensures SortedNames(s[..i] + [x] + s[i..])
  {
    var t := s[..i] + [x] + s[i..];
    forall a, b | 0 <= a < b < |t|
      ensures AtMost(t[a], t[b])
    {
      assert a < i ==> t[a] == s[a];
      assert a > i ==> t[a] == s[a - 1];
      assert b < i ==> t[b] == s[b];
      assert b > i ==> t[b] == s[b - 1];
    }
  }

  method SortNames(names: seq<string>) returns (s: seq<string>)
    ensures SortedNames(s) && multiset(s) == multiset(names)
  {
    s := [];
    for i := 0 to |names|
      invariant SortedNames(s) && multiset(s) == multiset(names[..i])
    {
      s := InsertName(s, names[i]);
      assert names[..i + 1] == names[..i] + [names[i]];
    }
    assert names[..|names|] == names;
  }

  /** Drop every name equal to the one before it. */
  method DropRepeats(s: seq<string>) returns (t: seq<string>)
    requires SortedNames(s)
    ensures StrictlySorted(t) && forall x :: x in t <==> x in s
  {
    t := [];
    for i := 0 to |s|
      invariant StrictlySorted(t) && forall x :: x in t <==> x in s[..i]
      invariant t == [] <==> i == 0
      invariant i > 0 ==> t[|t| - 1] == s[i - 1]
    {
      assert s[..i + 1] == s[..i] + [s[i]];
      if i == 0 || s[i] != s[i - 1] {
        forall j | 0 <= j < |t|
          ensures StringLess(t[j], s[i])
        {
          assert AtMost(s[i - 1], s[i]);
          if j < |t| - 1 {
            LessIsTransitive(t[j], s[i - 1], s[i]);
          }
        }
        t := t + [s[i]];
      }
    }
    assert s[..|s|] == s;
  }

  /** The shards behind a list of file names: each once, in order. */
  method ShardsOf(names: seq<string>) returns (shards: seq<string>)
    ensures StrictlySorted(shards)
    ensures forall x :: x in shards <==> ShardIn(names, x)
  {
    var cut := [];
    for i := 0 to |names|
      invariant |cut| == i && forall j | 0 <= j < i :: cut[j] == ShardOf(names[j])
    {
      cut := cut + [ShardOf(names[i])];
    }
    var sorted := SortNames(cut);
    shards := DropRepeats(sorted);
    forall x
      ensures x in shards <==> ShardIn(names, x)
    {
      assert x in sorted <==> x in multiset(sorted);
      assert x in cut <==> x in multiset(cut);
      if x in cut {
        var i :| 0 <= i < |cut| && cut[i] == x;
        assert ShardOf(names[i]) == x;
      }
    }
  }

  ghost predicate FileOf(name: string, shard: string) {
    name == KeyPath(shard, false) || name == ValuePath(shard, false)
    || name == KeyPath(shard, true) || name == ValuePath(shard, true)
  }

  ghost predicate FileOfSome(name: string, shards: set<string>) {
    exists s :: s in shards && FileOf(name, s)
  }

  /** The names are the key and value files of the given shards, in any order, and perhaps temporary ones. */
  ghost predicate FilesOf(names: seq<string>, shards: set<string>) {
    && (forall i {:trigger FileOfSome(names[i], shards)} | 0 <= i < |names| :: FileOfSome(names[i], shards))
    && (forall s | s in shards :: KeyPath(s, false) in names && ValuePath(s, false) in names)
  }

  lemma ShardOfFile(name: string, shard: string)
    requires FileOf(name, shard)
    ensures ShardOf(name) == shard
  {
    ShardOfFiles(shard, false);
    ShardOfFiles(shard, true);
  }

  ghost predicate ShardIn(names: seq<string>, x: string) {
    exists i | 0 <= i < |names| :: ShardOf(names[i]) == x
  }

  lemma FileGivesShard(names: seq<string>, shards: set<string>, i: int)
    requires FilesOf(names, shards) && 0 <= i < |names|
    ensures ShardOf(names[i]) in shards
  {
    assert FileOfSome(names[i], shards);
    var s :| s in shards && FileOf(names[i], s);
    ShardOfFile(names[i], s);
  }

  lemma ShardHasFile(names: seq<string>, shards: set<string>, s: string)
    requires FilesOf(names, shards) && s in shards
    ensures ShardIn(names, s)
  {
    assert KeyPath(s, false) in names;
    var i :| 0 <= i < |names| && names[i] == KeyPath(s, false);
    ShardOfFiles(s, false);
    assert ShardOf(names[i]) == s;
  }

  /** From the files of every shard exactly the shards are found. */
  lemma ShardsAreFound(names: seq<string>, shards: set<string>, x: string)
    requires FilesOf(names, shards)
    ensures ShardIn(names, x) <==> x in shards
  {
    if ShardIn(names, x) {
      var i :| 0 <= i < |names| && ShardOf(names[i]) == x;
      FileGivesShard(names, shards, i);
    }
    if x in shards {
      ShardHasFile(names, shards, x);
    }
  }

  /** No shard is visited twice. */
  lemma StrictlySortedIsDistinct(s: seq<string>)
    requires StrictlySorted(s)
    ensures forall i, j | 0 <= i < j < |s| :: s[i] != s[j]
  {
    forall i, j | 0 <= i < j < |s|
      ensures s[i] != s[j]
    {
      LessIsIrreflexive(s[i]);
    }
  }

  // ---------- loading ----------

  function FileStatus(files: map<string, Bytes>, shard: string, chunked: bool, sk: nat, sv: nat): LoadStatus
    requires 0 < sk && 0 < sv
  {
    if KeyPath(shard, false) !in files || ValuePath(shard, false) !in files then NotFound else
      var keys, values := files[KeyPath(shard, false)], files[ValuePath(shard, false)];
      if |keys| / sk != |values| / sv then CountsDiffer
      else if !chunked && |keys| % sk != 0 then ReadPastEnd
      else Loaded
  }

  /** The loaders differ on a shard exactly when its last key record is broken and nothing else is wrong. */
  lemma LoadersAgreeExactly(files: map<string, Bytes>, shard: string, sk: nat, sv: nat)
    requires 0 < sk && 0 < sv
    ensures FileStatus(files, shard, true, sk, sv) == FileStatus(files, shard, false, sk, sv)
       <==> (KeyPath(shard, false) !in files || ValuePath(shard, false) !in files
             || |files[KeyPath(shard, false)]| / sk != |files[ValuePath(shard, false)]| / sv
             || |files[KeyPath(shard, false)]| % sk == 0)
  {
  }

  /** A key file of three bytes for keys of two: one loader takes the one whole record, the other fails. */
  lemma BrokenKeyRecord()
    ensures var files := map[KeyPath("a", false) := [1, 2, 3], ValuePath("a", false) := [9]];
            FileStatus(files, "a", true, 2, 1) == Loaded && FileStatus(files, "a", false, 2, 1) == ReadPastEnd
  {
    PathsDiffer("a");
  }

  /** The records of a shard that reach the table: none if the files are missing or do not match, else
      all whole ones. */
  ghost function ShardRecords(files: map<string, Bytes>, shard: string, sk: nat, sv: nat): seq<Pair>
    requires 0 < sk && 0 < sv
  {
    if FileStatus(files, shard, true, sk, sv) != Loaded then [] else
      WholeDecode(files[KeyPath(shard, false)], files[ValuePath(shard, false)], sk, sv)
  }

  /** One shard, pair by pair or in chunks. */
  method LoadFile(files: map<string, Bytes>, shard: string, chunked: bool, sk: nat, sv: nat, bufferSize: nat,
                  table: Table)
    returns (status: LoadStatus)
    requires 0 < sk && 0 < sv && 0 < bufferSize
    modifies table
    ensures status == FileStatus(files, shard, chunked, sk, sv)
    ensures status == if shard + "-keys" !in files || shard + "-values" !in files then NotFound
                      else if |files[shard + "-keys"]| / sk != |files[shard + "-values"]| / sv then CountsDiffer
                      else if !chunked && |files[shard + "-keys"]| % sk != 0 then ReadPastEnd
                      else Loaded
    ensures status == NotFound || status == CountsDiffer ==> table.contents == old(table.contents)
    ensures status == Loaded || status == ReadPastEnd ==>
              ShardRecords(files, shard, sk, sv)
              == WholeDecode(files[shard + "-keys"], files[shard + "-values"], sk, sv)
    ensures AnyOrder(old(table.contents), table.contents, ShardRecords(files, shard, sk, sv))
    ensures !chunked ==> table.contents == Insert(old(table.contents), ShardRecords(files, shard, sk, sv))
  {
    PathNames(shard);
    if KeyPath(shard, false) !in files || ValuePath(shard, false) !in files {
      return NotFound;
    }
    var keys, values := files[KeyPath(shard, false)], files[ValuePath(shard, false)];
    if chunked {
      status := LoadChunks(keys, values, sk, sv, bufferSize, table);
    } else {
      status := LoadPairs(keys, values, sk, sv, table);
      if status != CountsDiffer {
        InsertIsAnOrder(old(table.contents), WholeDecode(keys, values, sk, sv));
      }
    }
  }

  ghost predicate AllLoad(files: map<string, Bytes>, shards: seq<string>, chunked: bool, sk: nat, sv: nat)
    requires 0 < sk && 0 < sv
  {
    forall i | 0 <= i < |shards| :: FileStatus(files, shards[i], chunked, sk, sv) == Loaded
  }

  /** The records of the shards, one shard after the other. */
  ghost function AllRecords(files: map<string, Bytes>, shards: seq<string>, sk: nat, sv: nat): seq<Pair>
    requires 0 < sk && 0 < sv
  {
    if shards == [] then [] else
      var n := |shards| - 1;
      AllRecords(files, shards[..n], sk, sv) + ShardRecords(files, shards[n], sk, sv)
  }

  /** Loading ends with status, having visited the first `visited` shards: all of them, or up to and with
      the first that fails. */
  ghost predicate Outcome(files: map<string, Bytes>, shards: seq<string>, chunked: bool, sk: nat, sv: nat,
                          status: LoadStatus, visited: nat)
    requires 0 < sk && 0 < sv
  {
    && visited <= |shards|
    && if status == Loaded then visited == |shards| && AllLoad(files, shards, chunked, sk, sv)
       else 0 < visited && AllLoad(files, shards[..visited - 1], chunked, sk, sv)
            && status == FileStatus(files, shards[visited - 1], chunked, sk, sv)
  }

  /** Load every shard found behind the names, each once; stop at the first that fails. */
  method LoadDirectory(files: map<string, Bytes>, names: seq<string>, chunked: bool, sk: nat, sv: nat,
                       bufferSize: nat, table: Table)
    returns (status: LoadStatus, ghost shards: seq<string>, ghost visited: nat)
    requires 0 < sk && 0 < sv && 0 < bufferSize
    modifies table
    ensures StrictlySorted(shards)
    ensures forall x :: x in shards <==> ShardIn(names, x)
    ensures Outcome(files, shards, chunked, sk, sv, status, visited)
    ensures AnyOrder(old(table.contents), table.contents, AllRecords(files, shards[..visited], sk, sv))
  {
    var found := ShardsOf(names);
    shards := found;
    status, visited := LoadShards(files, found, chunked, sk, sv, bufferSize, table);
  }

  method LoadShards(files: map<string, Bytes>, shards: seq<string>, chunked: bool, sk: nat, sv: nat, bufferSize: nat,
                    table: Table)
    returns (status: LoadStatus, ghost visited: nat)
    requires 0 < sk && 0 < sv && 0 < bufferSize
    modifies table
    ensures Outcome(files, shards, chunked, sk, sv, status, visited)
    ensures AnyOrder(old(table.contents), table.contents, AllRecords(files, shards[..visited], sk, sv))
  {
    visited := 0;
    var i := 0;
    while i < |shards|
      invariant 0 <= i == visited <= |shards|
      invariant AllLoad(files, shards[..i], chunked, sk, sv)
      invariant AnyOrder(old(table.contents), table.contents, AllRecords(files, shards[..i], sk, sv))
    {
      ghost var was := table.contents;
      status := LoadFile(files, shards[i], chunked, sk, sv, bufferSize, table);
      visited := i + 1;
      LoadNext(files, shards, i, sk, sv, old(table.contents), was, table.contents);
      if status != Loaded {
        return;
      }
      AllLoadNext(files, shards, i, chunked, sk, sv);
      i := i + 1;
    }
    assert shards[..i] == shards;
    status := Loaded;
  }

  lemma AllLoadNext(files: map<string, Bytes>, shards: seq<string>, i: nat, chunked: bool, sk: nat, sv: nat)
    requires 0 < sk && 0 < sv && i < |shards|
    requires AllLoad(files, shards[..i], chunked, sk, sv) && FileStatus(files, shards[i], chunked, sk, sv) == Loaded
    ensures AllLoad(files, shards[..i + 1], chunked, sk, sv)
  {
    assert shards[..i + 1] == shards[..i] + [shards[i]];
  }

  lemma LoadNext(files: map<string, Bytes>, shards: seq<string>, i: nat, sk: nat, sv: nat, t: Contents, was: Contents,
                 now: Contents)
    requires 0 < sk && 0 < sv && i < |shards|
    requires AnyOrder(t, was, AllRecords(files, shards[..i], sk, sv))
             && AnyOrder(was, now, ShardRecords(files, shards[i], sk, sv))
    ensures AnyOrder(t, now, AllRecords(files, shards[..i + 1], sk, sv))
  {
    assert shards[..i + 1][..i] == shards[..i];
    AnyOrderConcat(t, was, now, AllRecords(files, shards[..i], sk, sv), ShardRecords(files, shards[i], sk, sv));
  }

  // ---------- disjoint shards ----------

  /** Every shard's files hold a listing of its table, and load. */
  ghost predicate Hold(files: map<string, Bytes>, shards: set<string>, tables: map<string, Contents>, chunked: bool,
                       sk: nat, sv: nat)
    requires 0 < sk && 0 < sv
  {
    forall s | s in shards ::
      FileStatus(files, s, chunked, sk, sv) == Loaded && s in tables && Lists(ShardRecords(files, s, sk, sv), tables[s])
  }

  ghost predicate DisjointTables(shards: set<string>, tables: map<string, Contents>) {
    forall s, s', k
      | s in shards && s' in shards && s in tables && s' in tables && k in tables[s] && k in tables[s'] :: s == s'
  }

  ghost predicate InSome(shards: set<string>, tables: map<string, Contents>, k: Bytes) {
    exists s :: s in shards && s in tables && k in tables[s]
  }

  /** Contents u are t overridden by the union of the shards' tables. */
  ghost predicate IsUnion(u: Contents, t: Contents, shards: set<string>, tables: map<string, Contents>) {
    && (forall s, k | s in shards && s in tables && k in tables[s] :: k in u && u[k] == tables[s][k])
    && (forall k | !InSome(shards, tables, k) :: (k in u <==> k in t) && (k in t ==> u[k] == t[k]))
  }

  /** What the records of all shards are. */
  lemma {:induction false} AllRecordsAre(files: map<string, Bytes>, shards: seq<string>, sk: nat, sv: nat, p: Pair)
    requires 0 < sk && 0 < sv
    ensures p in AllRecords(files, shards, sk, sv) <==> exists s :: s in shards && p in ShardRecords(files, s, sk, sv)
  {
    if shards != [] {
      var n := |shards| - 1;
      AllRecordsAre(files, shards[..n], sk, sv, p);
      assert forall s :: s in shards <==> s in shards[..n] || s == shards[n];
      assert shards[n] in shards;
    }
  }

  lemma HasKeyPair(ps: seq<Pair>, k: Bytes)
    ensures HasKey(ps, k) <==> exists p :: p in ps && p.key == k
  {
    if HasKey(ps, k) {
      var i :| 0 <= i < |ps| && ps[i].key == k;
      assert ps[i] in ps;
    }
  }

  /** A listed table has just the listed entries. */
  lemma ListsEntry(ps: seq<Pair>, table: Contents, k: Bytes, v: Bytes)
    requires Lists(ps, table)
    ensures Pair(k, v) in ps <==> k in table && table[k] == v
  {
    if k in table && table[k] == v {
      var i :| 0 <= i < |ps| && ps[i].key == k;
      assert ps[i] == Pair(k, v);
    }
  }

  /** The records of disjoint shards inserted in any order at all, across shards too, give the union. */
  lemma AnyOrderIsTheUnion(files: map<string, Bytes>, shards: set<string>, listed: seq<string>,
                           tables: map<string, Contents>, chunked: bool, sk: nat, sv: nat, t: Contents, now: Contents)
    requires 0 < sk && 0 < sv && Hold(files, shards, tables, chunked, sk, sv) && DisjointTables(shards, tables)
    requires forall s :: s in listed <==> s in shards
    requires AnyOrder(t, now, AllRecords(files, listed, sk, sv))
    ensures IsUnion(now, t, shards, tables)
  {
    forall k
      ensures HasKey(AllRecords(files, listed, sk, sv), k) <==> InSome(shards, tables, k)
    {
      UnionKey(files, shards, listed, tables, chunked, sk, sv, k);
    }
    forall s, k | s in shards && s in tables && k in tables[s]
      ensures k in now && now[k] == tables[s][k]
    {
      assert InSome(shards, tables, k);
      AllRecordsAre(files, listed, sk, sv, Pair(k, now[k]));
      var s' :| s' in listed && Pair(k, now[k]) in ShardRecords(files, s', sk, sv);
      ListsEntry(ShardRecords(files, s', sk, sv), tables[s'], k, now[k]);
    }
  }

  lemma UnionKey(files: map<string, Bytes>, shards: set<string>, listed: seq<string>, tables: map<string, Contents>,
                 chunked: bool, sk: nat, sv: nat, k: Bytes)
    requires 0 < sk && 0 < sv && Hold(files, shards, tables, chunked, sk, sv)
    requires forall s :: s in listed <==> s in shards
    ensures HasKey(AllRecords(files, listed, sk, sv), k) <==> InSome(shards, tables, k)
  {
    var all := AllRecords(files, listed, sk, sv);
    HasKeyPair(all, k);
    if HasKey(all, k) {
      var p :| p in all && p.key == k;
      AllRecordsAre(files, listed, sk, sv, p);
      var s :| s in listed && p in ShardRecords(files, s, sk, sv);
      ListsEntry(ShardRecords(files, s, sk, sv), tables[s], k, p.value);
    }
    if InSome(shards, tables, k) {
      var s :| s in shards && s in tables && k in tables[s];
      ListsEntry(ShardRecords(files, s, sk, sv), tables[s], k, tables[s][k]);
      AllRecordsAre(files, listed, sk, sv, Pair(k, tables[s][k]));
    }
  }

  /** There is only one union. */
  lemma UnionIsUnique(u: Contents, v: Contents, t: Contents, shards: set<string>, tables: map<string, Contents>)
    requires IsUnion(u, t, shards, tables) && IsUnion(v, t, shards, tables)
    ensures u == v
  {
    forall k
      ensures (k in u <==> k in v) && (k in u ==> u[k] == v[k])
    {
      if InSome(shards, tables, k) {
        var s :| s in shards && s in tables && k in tables[s];
      }
    }
  }

  /** The files of disjoint shards, named in any order: the directory load gives the union of their tables. */
  method LoadDisjointShards(files: map<string, Bytes>, names: seq<string>, ghost shards: set<string>,
                            ghost tables: map<string, Contents>, chunked: bool, sk: nat, sv: nat, bufferSize: nat,
                            table: Table)
    returns (status: LoadStatus)
    requires 0 < sk && 0 < sv && 0 < bufferSize
    requires FilesOf(names, shards) && Hold(files, shards, tables, chunked, sk, sv) && DisjointTables(shards, tables)
    modifies table
    ensures status == Loaded && IsUnion(table.contents, old(table.contents), shards, tables)
  {
    ghost var found, visited;
    status, found, visited := LoadDirectory(files, names, chunked, sk, sv, bufferSize, table);
    forall x
      ensures x in found <==> x in shards
    {
      ShardsAreFound(names, shards, x);
    }
    NoneFails(files, shards, found, tables, chunked, sk, sv, status, visited);
    assert found[..visited] == found;
    AnyOrderIsTheUnion(files, shards, found, tables, chunked, sk, sv, old(table.contents), table.contents);
  }

  lemma NoneFails(files: map<string, Bytes>, shards: set<string>, found: seq<string>, tables: map<string, Contents>,
                  chunked: bool, sk: nat, sv: nat, status: LoadStatus, visited: nat)
    requires 0 < sk && 0 < sv && Hold(files, shards, tables, chunked, sk, sv) && forall s :: s in found <==> s in shards
    requires Outcome(files, found, chunked, sk, sv, status, visited)
    ensures status == Loaded && visited == |found|
  {
    forall v | 0 <= v < |found|
      ensures FileStatus(files, found[v], chunked, sk, sv) == Loaded
    {
      assert found[v] in found;
    }
  }
}
