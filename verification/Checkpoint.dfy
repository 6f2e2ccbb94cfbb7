/** Saving a table to its two files through bounded buffers, in the three ways the tables do it. */
module Checkpoint {
  import opened Tensors
  import opened Records

  // ---------- files ----------

  class FileSystem {
    var files: map<string, Bytes>

    constructor ()
      ensures files == map[]
    {
      files := map[];
    }

    /** Open for writing from scratch, or for appending. */
    method Open(path: string, append: bool)
      modifies this
      ensures files == old(files)[path := if append && path in old(files) then old(files)[path] else []]
    {
      if !(append && path in files) {
        files := files[path := []];
      }
    }

    method Append(path: string, data: Bytes)
      requires path in files
      modifies this
      ensures files == old(files)[path := old(files)[path] + data]
    {
      files := files[path := files[path] + data];
    }

    method Rename(from: string, to: string)
      requires from in files
      modifies this
      ensures files == (old(files) - {from})[to := old(files)[from]]
    {
      files := (files - {from})[to := files[from]];
    }
  }

  /** Files f with two of them replaced. */
  function With(f: map<string, Bytes>, kp: string, keys: Bytes, vp: string, values: Bytes): map<string, Bytes> {
    f[kp := keys][vp := values]
  }

  /** Append one block to each of the two files. */
  method AppendBoth(fs: FileSystem, kp: string, keys: Bytes, vp: string, values: Bytes,
                    ghost f: map<string, Bytes>, ghost a: Bytes, ghost b: Bytes)
    requires kp != vp && fs.files == With(f, kp, a, vp, b)
    modifies fs
    ensures fs.files == With(f, kp, a + keys, vp, b + values)
  {
    fs.Append(kp, keys);
    fs.Append(vp, values);
  }

  datatype Status = Ok | DimensionMismatch

  // ---------- Redis: flush when the buffer is full ----------

  /** Pairs `pending` fill the front of both buffers; pairs `flushed`, whole buffers, have reached the files. */
  ghost predicate Holding(files: map<string, Bytes>, f: map<string, Bytes>, kp: string, vp: string, kb: Bytes,
                          vb: Bytes, pk: nat, pv: nat, sk: nat, sv: nat, bufferSize: nat, flushed: seq<Pair>,
                          pending: seq<Pair>) {
    && kp in f && vp in f && kp != vp
    && files == With(f, kp, f[kp] + Keys(flushed), vp, f[vp] + Values(flushed))
    && Sized(pending, sk, sv) && |pending| < bufferSize && |flushed| % bufferSize == 0
    && pk == |pending| * sk && pv == |pending| * sv
    && |kb| == bufferSize * sk && |vb| == bufferSize * sv
    && pk <= |kb| && kb[..pk] == Keys(pending)
    && pv <= |vb| && vb[..pv] == Values(pending)
  }

  lemma OneMoreBuffer(n: nat, bufferSize: nat)
    requires 0 < bufferSize && n % bufferSize == 0
    ensures (n + bufferSize) % bufferSize == 0
  {
    var q := n / bufferSize;
    Distribute(q, 1, bufferSize);
    CellSplit(bufferSize, q + 1, 0);
  }

  /** What reaches the files of ps before the last, partly filled buffer. */
  function WholeBuffers(ps: seq<Pair>, bufferSize: nat): seq<Pair>
    requires 0 < bufferSize
  {
    ps[..|ps| / bufferSize * bufferSize]
  }

  /** As many whole buffers as there are: fewer pairs than a buffer holds are left. */
  lemma WholeBuffersExactly(ps: seq<Pair>, bufferSize: nat)
    requires 0 < bufferSize
    ensures var whole := WholeBuffers(ps, bufferSize);
            whole <= ps && |whole| % bufferSize == 0 && |ps| - |whole| < bufferSize
  {
    CellSplit(bufferSize, |ps| / bufferSize, 0);
  }

  lemma WholeBuffersAre(flushed: seq<Pair>, pending: seq<Pair>, bufferSize: nat)
    requires |pending| < bufferSize && |flushed| % bufferSize == 0
    ensures WholeBuffers(flushed + pending, bufferSize) == flushed
  {
    var q := |flushed| / bufferSize;
    assert |flushed| == q * bufferSize;
    CellSplit(bufferSize, q, |pending|);
    assert |flushed + pending| == q * bufferSize + |pending|;
    assert (flushed + pending)[..|flushed|] == flushed;
  }

  lemma RoomForPair(pending: seq<Pair>, p: Pair, sk: nat, sv: nat, bufferSize: nat)
    requires |pending| < bufferSize && Sized(pending, sk, sv) && |p.key| == sk && |p.value| == sv
    ensures |pending| * sk + sk == |pending + [p]| * sk <= bufferSize * sk
    ensures |pending| * sv + sv == |pending + [p]| * sv <= bufferSize * sv
    ensures 0 < sk ==> (bufferSize * sk <= |pending + [p]| * sk <==> |pending| + 1 == bufferSize)
  {
    var n := |pending|;
    Distribute(n, 1, sk);
    Distribute(n, 1, sv);
    RowBound(sk, bufferSize, n);
    RowBound(sv, bufferSize, n);
    if 0 < sk && n + 1 < bufferSize {
      RowBound(sk, bufferSize, n + 1);
    }
  }

  lemma FilledFront(buffer: Bytes, buffer': Bytes, at: nat, record: Bytes)
    requires at + |record| <= |buffer| && buffer' == buffer[..at] + record + buffer[at + |record|..]
    ensures |buffer'| == |buffer| && buffer'[..at + |record|] == buffer[..at] + record
  {
  }

  /** Copy one record behind the filled front of a buffer. */
  method StoreRecord(buffer: array<Byte>, at: nat, record: Bytes, ghost front: Bytes)
    requires at + |record| <= buffer.Length && buffer[..at] == front
    modifies buffer
    ensures buffer[..at + |record|] == front + record
  {
    ghost var before := buffer[..];
    CopySlice(buffer, at, record, 0, |record|);
    FilledFront(before, buffer[..], at, record);
  }

  /** What flushing the full buffers leaves in the files. */
  lemma FlushedFiles(f: map<string, Bytes>, kp: string, vp: string, flushed: seq<Pair>, full: seq<Pair>)
    requires kp in f && vp in f
    ensures With(f, kp, f[kp] + Keys(flushed) + Keys(full), vp, f[vp] + Values(flushed) + Values(full))
         == With(f, kp, f[kp] + Keys(flushed + full), vp, f[vp] + Values(flushed + full))
  {
    EncodeConcat(flushed, full);
    assert f[kp] + Keys(flushed) + Keys(full) == f[kp] + Keys(flushed + full);
    assert f[vp] + Values(flushed) + Values(full) == f[vp] + Values(flushed + full);
  }

  /** The pair with its value cut to sv bytes, as the copy into the value buffer does. */
  function CutPair(p: Pair, sv: nat): (cut: Pair)
    ensures cut.key == p.key && cut.value <= p.value
    ensures |cut.value| == if sv <= |p.value| then sv else |p.value|
  {
    Pair(p.key, if sv <= |p.value| then p.value[..sv] else p.value)
  }

  function Cut(ps: seq<Pair>, sv: nat): (cut: seq<Pair>)
    ensures |cut| == |ps| && forall i | 0 <= i < |ps| :: cut[i] == CutPair(ps[i], sv)
  {
    seq(|ps|, i requires 0 <= i < |ps| => CutPair(ps[i], sv))
  }

  lemma CutConcat(a: seq<Pair>, b: seq<Pair>, sv: nat)
    ensures Cut(a + b, sv) == Cut(a, sv) + Cut(b, sv)
  {
  }

  /** Put one pair behind the pending ones; when that fills the key buffer, write both buffers out. */
  method PutPair(fs: FileSystem, kp: string, vp: string, p: Pair, keyBuf: array<Byte>, valBuf: array<Byte>,
                 pk: nat, pv: nat, sk: nat, sv: nat, bufferSize: nat, ghost f: map<string, Bytes>,
                 ghost flushed: seq<Pair>, ghost pending: seq<Pair>)
    returns (pk': nat, pv': nat, ghost flushed': seq<Pair>, ghost pending': seq<Pair>)
    requires 0 < sk && |p.key| == sk && sv <= |p.value| && keyBuf != valBuf
    requires Holding(fs.files, f, kp, vp, keyBuf[..], valBuf[..], pk, pv, sk, sv, bufferSize, flushed, pending)
    modifies fs, keyBuf, valBuf
    ensures Holding(fs.files, f, kp, vp, keyBuf[..], valBuf[..], pk', pv', sk, sv, bufferSize, flushed', pending')
    ensures flushed' + pending' == flushed + pending + [CutPair(p, sv)]
  {
    RoomForPair(pending, CutPair(p, sv), sk, sv, bufferSize);
    EncodeSnoc(pending, CutPair(p, sv));
    StoreRecord(keyBuf, pk, p.key, Keys(pending));
    pk' := pk + sk;
    StoreRecord(valBuf, pv, p.value[..sv], Values(pending));
    pv' := pv + sv;
    flushed', pending' := flushed, pending + [CutPair(p, sv)];
    if pk' >= bufferSize * sk {
      FlushBuffers(fs, kp, vp, keyBuf[..], valBuf[..], f, flushed, pending');
      pk', pv' := 0, 0;
      OneMoreBuffer(|flushed|, bufferSize);
      flushed', pending' := flushed + pending', [];
      assert 0 * sk == 0 && 0 * sv == 0;
    }
  }

  /** Write out both buffers, which hold exactly the pairs `full`. */
  method FlushBuffers(fs: FileSystem, kp: string, vp: string, kb: Bytes, vb: Bytes,
                      ghost f: map<string, Bytes>, ghost flushed: seq<Pair>, ghost full: seq<Pair>)
    requires kp in f && vp in f && kp != vp
    requires fs.files == With(f, kp, f[kp] + Keys(flushed), vp, f[vp] + Values(flushed))
    requires kb == Keys(full) && vb == Values(full)
    modifies fs
    ensures fs.files == With(f, kp, f[kp] + Keys(flushed + full), vp, f[vp] + Values(flushed + full))
  {
    FlushedFiles(f, kp, vp, flushed, full);
    AppendBoth(fs, kp, kb, vp, vb, f, f[kp] + Keys(flushed), f[vp] + Values(flushed));
  }

  function Concat(batches: seq<seq<Pair>>): seq<Pair> {
    if batches == [] then [] else Concat(batches[..|batches| - 1]) + batches[|batches| - 1]
  }

  function Scanned(scan: seq<seq<seq<Pair>>>): seq<Pair> {
    if scan == [] then [] else Scanned(scan[..|scan| - 1]) + Concat(scan[|scan| - 1])
  }

  ghost predicate InBucket(batches: seq<seq<Pair>>, p: Pair) {
    exists j | 0 <= j < |batches| :: p in batches[j]
  }

  /** Some reply of the scan delivers the pair. */
  ghost predicate InScan(scan: seq<seq<seq<Pair>>>, p: Pair) {
    exists i | 0 <= i < |scan| :: InBucket(scan[i], p)
  }

  lemma {:induction false} InConcat(batches: seq<seq<Pair>>, p: Pair)
    ensures p in Concat(batches) <==> InBucket(batches, p)
  {
    if batches != [] {
      var n := |batches| - 1;
      InConcat(batches[..n], p);
      if j :| 0 <= j < |batches| && p in batches[j] && j < n {
        assert p in batches[..n][j];
      }
    }
  }

  /** The scanned pairs are exactly those that some reply delivers. */
  lemma {:induction false} ScannedExactly(scan: seq<seq<seq<Pair>>>, p: Pair)
    ensures p in Scanned(scan) <==> InScan(scan, p)
  {
    if scan != [] {
      var n := |scan| - 1;
      ScannedExactly(scan[..n], p);
      InConcat(scan[n], p);
      InScanSnoc(scan[..n], scan[n], p);
      assert scan == scan[..n] + [scan[n]];
    }
  }

  lemma InScanSnoc(scan: seq<seq<seq<Pair>>>, batches: seq<seq<Pair>>, p: Pair)
    ensures InScan(scan + [batches], p) <==> InScan(scan, p) || InBucket(batches, p)
  {
    var more := scan + [batches];
    assert more[|scan|] == batches && forall i | 0 <= i < |scan| :: more[i] == scan[i];
    if i :| 0 <= i < |scan| && InBucket(scan[i], p) {
      assert InBucket(more[i], p);
    }
    if InBucket(batches, p) {
      assert InBucket(more[|scan|], p);
    }
  }

  lemma {:induction false} ConcatSplits(batches: seq<seq<Pair>>, j: nat)
    requires j < |batches|
    ensures Concat(batches) == Concat(batches[..j]) + batches[j] + Concat(batches[j + 1..])
  {
    var n := |batches| - 1;
    if j < n {
      ConcatSplits(batches[..n], j);
      assert batches[..n][..j] == batches[..j] && batches[..n][j + 1..] == batches[j + 1..][..n - j - 1];
      Reassociate(Concat(batches[..j]) + batches[j], Concat(batches[..n][j + 1..]), batches[n]);
    }
  }

  lemma {:induction false} ScannedSplits(scan: seq<seq<seq<Pair>>>, i: nat)
    requires i < |scan|
    ensures Scanned(scan) == Scanned(scan[..i]) + Concat(scan[i]) + Scanned(scan[i + 1..])
  {
    var n := |scan| - 1;
    if i < n {
      ScannedSplits(scan[..n], i);
      assert scan[..n][..i] == scan[..i] && scan[..n][i + 1..] == scan[i + 1..][..n - i - 1];
      Reassociate(Scanned(scan[..i]) + Concat(scan[i]), Scanned(scan[..n][i + 1..]), Concat(scan[n]));
    }
  }

  /** In order: a reply comes behind all that was delivered before it and before all that comes after. */
  lemma ReplyAt(scan: seq<seq<seq<Pair>>>, bucket: nat, reply: nat)
    requires bucket < |scan| && reply < |scan[bucket]|
    ensures Scanned(scan) == Delivered(scan, bucket, reply) + scan[bucket][reply]
                             + (Concat(scan[bucket][reply + 1..]) + Scanned(scan[bucket + 1..]))
  {
    ScannedSplits(scan, bucket);
    ConcatSplits(scan[bucket], reply);
    var first, rest := Concat(scan[bucket][..reply]) + scan[bucket][reply], Concat(scan[bucket][reply + 1..]);
    Reassociate(Scanned(scan[..bucket]), first, rest);
    Reassociate(Scanned(scan[..bucket]), Concat(scan[bucket][..reply]), scan[bucket][reply]);
    Reassociate(Scanned(scan[..bucket]) + first, rest, Scanned(scan[bucket + 1..]));
  }

  /** What a batch of the scan looks like: whole keys and, behind a first value of the expected length,
      no value too short to copy from. */
  ghost predicate WellFormed(batch: seq<Pair>, sk: nat, sv: nat) {
    && (forall i | 0 <= i < |batch| :: |batch[i].key| == sk)
    && (Fits(batch, sv) ==> forall i | 0 <= i < |batch| :: sv <= |batch[i].value|)
  }

  /** Every bucket is scanned in at least one batch, and only the last may be empty. */
  ghost predicate ScanOf(scan: seq<seq<seq<Pair>>>, sk: nat, sv: nat) {
    forall i | 0 <= i < |scan| :: BucketScan(scan[i], sk, sv)
  }

  ghost predicate BucketScan(batches: seq<seq<Pair>>, sk: nat, sv: nat) {
    && batches != []
    && (forall j | 0 <= j < |batches| :: WellFormed(batches[j], sk, sv) && (batches[j] == [] ==> j == |batches| - 1))
  }

  /** The first value of the batch has the expected length; no other value is looked at. */
  predicate Fits(batch: seq<Pair>, sv: nat) {
    batch == [] || |batch[0].value| == sv
  }

  predicate AllFit(batches: seq<seq<Pair>>, sv: nat) {
    forall j | 0 <= j < |batches| :: Fits(batches[j], sv)
  }

  predicate ScanFits(scan: seq<seq<seq<Pair>>>, sv: nat) {
    forall i | 0 <= i < |scan| :: AllFit(scan[i], sv)
  }

  /** One reply of the scan. */
  method SaveBatch(fs: FileSystem, kp: string, vp: string, batch: seq<Pair>, keyBuf: array<Byte>, valBuf: array<Byte>,
                   pk: nat, pv: nat, sk: nat, sv: nat, bufferSize: nat,
                   ghost f: map<string, Bytes>, ghost flushed: seq<Pair>, ghost pending: seq<Pair>)
    returns (pk': nat, pv': nat, ghost flushed': seq<Pair>, ghost pending': seq<Pair>)
    requires 0 < sk && WellFormed(batch, sk, sv) && Fits(batch, sv) && keyBuf != valBuf
    requires Holding(fs.files, f, kp, vp, keyBuf[..], valBuf[..], pk, pv, sk, sv, bufferSize, flushed, pending)
    modifies fs, keyBuf, valBuf
    ensures Holding(fs.files, f, kp, vp, keyBuf[..], valBuf[..], pk', pv', sk, sv, bufferSize, flushed', pending')
    ensures flushed' + pending' == flushed + pending + Cut(batch, sv)
  {
    pk', pv', flushed', pending' := pk, pv, flushed, pending;
    var j := 0;
    while j < |batch|
      invariant 0 <= j <= |batch|
      invariant Holding(fs.files, f, kp, vp, keyBuf[..], valBuf[..], pk', pv', sk, sv, bufferSize, flushed', pending')
      invariant flushed' + pending' == flushed + pending + Cut(batch, sv)[..j]
    {
      pk', pv', flushed', pending' :=
        PutPair(fs, kp, vp, batch[j], keyBuf, valBuf, pk', pv', sk, sv, bufferSize, f, flushed', pending');
      assert Cut(batch, sv)[..j + 1] == Cut(batch, sv)[..j] + [CutPair(batch[j], sv)];
      j := j + 1;
    }
    assert Cut(batch, sv)[..j] == Cut(batch, sv);
  }

  /** Reply k is the first whose first value has a wrong length. */
  ghost predicate UnfitReply(batches: seq<seq<Pair>>, k: nat, sv: nat) {
    k < |batches| && AllFit(batches[..k], sv) && !Fits(batches[k], sv)
  }

  ghost predicate UnfitScan(scan: seq<seq<seq<Pair>>>, bucket: nat, reply: nat, sv: nat) {
    bucket < |scan| && ScanFits(scan[..bucket], sv) && UnfitReply(scan[bucket], reply, sv)
  }

  /** All that was delivered before a reply of a bucket. */
  ghost function Delivered(scan: seq<seq<seq<Pair>>>, bucket: nat, reply: nat): seq<Pair>
    requires bucket < |scan| && reply <= |scan[bucket]|
  {
    Scanned(scan[..bucket]) + Concat(scan[bucket][..reply])
  }

  /** What one more batch adds. */
  lemma BatchStep(batches: seq<seq<Pair>>, i: nat, sv: nat)
    requires i < |batches|
    ensures Cut(Concat(batches[..i + 1]), sv) == Cut(Concat(batches[..i]), sv) + Cut(batches[i], sv)
    ensures AllFit(batches[..i + 1], sv) <==> AllFit(batches[..i], sv) && Fits(batches[i], sv)
    ensures AllFit(batches, sv) ==> Fits(batches[i], sv)
  {
    assert batches[..i + 1][..i] == batches[..i];
    assert batches[..i + 1] == batches[..i] + [batches[i]];
    CutConcat(Concat(batches[..i]), batches[i], sv);
  }

  lemma BucketStep(scan: seq<seq<seq<Pair>>>, i: nat, sv: nat)
    requires i < |scan|
    ensures Cut(Scanned(scan[..i + 1]), sv) == Cut(Scanned(scan[..i]), sv) + Cut(Concat(scan[i]), sv)
    ensures ScanFits(scan[..i + 1], sv) <==> ScanFits(scan[..i], sv) && AllFit(scan[i], sv)
    ensures ScanFits(scan, sv) ==> AllFit(scan[i], sv)
  {
    assert scan[..i + 1][..i] == scan[..i];
    assert scan[..i + 1] == scan[..i] + [scan[i]];
    CutConcat(Scanned(scan[..i]), Concat(scan[i]), sv);
  }

  /** One bucket, batch after batch until the cursor comes back to zero. */
  method SaveBucket(fs: FileSystem, kp: string, vp: string, batches: seq<seq<Pair>>, keyBuf: array<Byte>,
                    valBuf: array<Byte>, pk: nat, pv: nat, sk: nat, sv: nat, bufferSize: nat,
                    ghost f: map<string, Bytes>, ghost flushed: seq<Pair>, ghost pending: seq<Pair>)
    returns (status: Status, pk': nat, pv': nat, ghost flushed': seq<Pair>, ghost pending': seq<Pair>,
             ghost replies: nat)
    requires 0 < sk && BucketScan(batches, sk, sv) && keyBuf != valBuf
    requires Holding(fs.files, f, kp, vp, keyBuf[..], valBuf[..], pk, pv, sk, sv, bufferSize, flushed, pending)
    modifies fs, keyBuf, valBuf
    ensures status == if AllFit(batches, sv) then Ok else DimensionMismatch
    ensures if status == Ok then replies == |batches| else UnfitReply(batches, replies, sv)
    ensures Holding(fs.files, f, kp, vp, keyBuf[..], valBuf[..], pk', pv', sk, sv, bufferSize, flushed', pending')
    ensures flushed' + pending' == flushed + pending + Cut(Concat(batches[..replies]), sv)
  {
    pk', pv', flushed', pending' := pk, pv, flushed, pending;
    var next, cursor := 0, 1;
    ghost var saved := Cut(Concat(batches[..0]), sv);
    replies := 0;
    while cursor != 0
      invariant 0 <= next <= |batches| && (cursor == 0 <==> next == |batches|) && replies == next
      invariant AllFit(batches[..next], sv)
      invariant Holding(fs.files, f, kp, vp, keyBuf[..], valBuf[..], pk', pv', sk, sv, bufferSize, flushed', pending')
      invariant saved == Cut(Concat(batches[..next]), sv)
      invariant flushed' + pending' == flushed + pending + saved
      decreases |batches| - next
    {
      var batch := batches[next];
      BatchStep(batches, next, sv);
      next := next + 1;
      cursor := |batches| - next;
      if |batch| < 1 && cursor == 0 {
        replies := next;
        break;
      }
      if |batch[0].value| != sv {
        status := DimensionMismatch;
        return;
      }
      pk', pv', flushed', pending' :=
        SaveBatch(fs, kp, vp, batch, keyBuf, valBuf, pk', pv', sk, sv, bufferSize, f, flushed', pending');
      Reassociate(flushed + pending, saved, Cut(batch, sv));
      saved := saved + Cut(batch, sv);
      replies := next;
    }
    assert batches[..next] == batches;
    status := Ok;
  }

  /** The Redis save loop: scan all buckets through the two buffers, then write what is left in them. */
  method SaveRedis(fs: FileSystem, kp: string, vp: string, scan: seq<seq<seq<Pair>>>, totalSize: nat,
                   sk: nat, sv: nat, bufferSize: nat)
    returns (status: Status, ghost bucket: nat, ghost reply: nat)
    requires 0 < sk && 0 < sv && 0 < bufferSize && ScanOf(scan, sk, sv)
    requires kp in fs.files && vp in fs.files && kp != vp
    modifies fs
    ensures status == if totalSize == 0 || ScanFits(scan, sv) then Ok else DimensionMismatch
    ensures totalSize == 0 ==> fs.files == old(fs.files)
    ensures totalSize != 0 && status == Ok ==>
              fs.files == With(old(fs.files), kp, old(fs.files)[kp] + Keys(Cut(Scanned(scan), sv)),
                               vp, old(fs.files)[vp] + Values(Cut(Scanned(scan), sv)))
    ensures status != Ok ==>
              && UnfitScan(scan, bucket, reply, sv)
              && var written := WholeBuffers(Cut(Delivered(scan, bucket, reply), sv), bufferSize);
                 fs.files == With(old(fs.files), kp, old(fs.files)[kp] + Keys(written),
                                  vp, old(fs.files)[vp] + Values(written))
  {
    bucket, reply := 0, 0;
    if totalSize == 0 {
      status := Ok;
      return;
    }
    ghost var f := fs.files;
    var keyBuf := new Byte[bufferSize * sk];
    var valBuf := new Byte[bufferSize * sv];
    var pk: nat, pv: nat := 0, 0;
    ghost var flushed, pending: seq<Pair> := [], [];
    assert f[kp] + Keys(flushed) == f[kp] && f[vp] + Values(flushed) == f[vp];
    assert 0 * sk == 0 && 0 * sv == 0;
    var i := 0;
    while i < |scan|
      invariant 0 <= i <= |scan| && ScanFits(scan[..i], sv)
      invariant Holding(fs.files, f, kp, vp, keyBuf[..], valBuf[..], pk, pv, sk, sv, bufferSize, flushed, pending)
      invariant flushed + pending == Cut(Scanned(scan[..i]), sv)
    {
      BucketStep(scan, i, sv);
      status, pk, pv, flushed, pending, reply :=
        SaveBucket(fs, kp, vp, scan[i], keyBuf, valBuf, pk, pv, sk, sv, bufferSize, f, flushed, pending);
      bucket := i;
      if status != Ok {
        CutConcat(Scanned(scan[..i]), Concat(scan[i][..reply]), sv);
        WholeBuffersAre(flushed, pending, bufferSize);
        return;
      }
      assert scan[i][..reply] == scan[i];
      i := i + 1;
    }
    assert scan[..i] == scan;
    status := Ok;
    FinishBuffers(fs, kp, vp, keyBuf, valBuf, pk, pv, sk, sv, bufferSize, f, flushed, pending);
  }

  /** Write out what is left in the buffers, if both hold something. */
  method FinishBuffers(fs: FileSystem, kp: string, vp: string, keyBuf: array<Byte>, valBuf: array<Byte>,
                       pk: nat, pv: nat, sk: nat, sv: nat, bufferSize: nat,
                       ghost f: map<string, Bytes>, ghost flushed: seq<Pair>, ghost pending: seq<Pair>)
    requires 0 < sk && 0 < sv
    requires Holding(fs.files, f, kp, vp, keyBuf[..], valBuf[..], pk, pv, sk, sv, bufferSize, flushed, pending)
    modifies fs
    ensures fs.files == With(f, kp, f[kp] + Keys(flushed + pending), vp, f[vp] + Values(flushed + pending))
  {
    if pk != 0 && pv != 0 {
      FlushBuffers(fs, kp, vp, keyBuf[..pk], valBuf[..pv], f, flushed, pending);
    } else {
      NothingPending(pending, sk, sv);
      assert flushed + pending == flushed;
    }
  }

  lemma NothingPending(pending: seq<Pair>, sk: nat, sv: nat)
    requires 0 < sk && 0 < sv && (|pending| * sk == 0 || |pending| * sv == 0)
    ensures pending == []
  {
    assert |pending| > 0 ==> |pending| * sk >= 1 * sk;
    assert |pending| > 0 ==> |pending| * sv >= 1 * sv;
  }

  // ---------- GPU: windows of slots ----------

  datatype Slot = Empty | Full(pair: Pair)

  /** The pairs in the occupied slots, in slot order. */
  function Occupied(slots: seq<Slot>): seq<Pair> {
    if slots == [] then [] else
      var n := |slots| - 1;
      if slots[n].Full? then Occupied(slots[..n]) + [slots[n].pair] else Occupied(slots[..n])
  }

  lemma {:induction false} OccupiedConcat(a: seq<Slot>, b: seq<Slot>)
    ensures Occupied(a + b) == Occupied(a) + Occupied(b)
  {
    if b == [] {
      assert a + b == a;
    } else {
      var n := |b| - 1;
      OccupiedConcat(a, b[..n]);
      assert (a + b)[..|a + b| - 1] == a + b[..n];
    }
  }

  /** The dumped pairs are exactly those of the full slots, each as often as slots hold it. */
  lemma {:induction false} OccupiedExactly(slots: seq<Slot>, p: Pair)
    ensures p in Occupied(slots) <==> Full(p) in slots
    ensures multiset(Occupied(slots))[p] == multiset(slots)[Full(p)]
  {
    if slots != [] {
      var n := |slots| - 1;
      OccupiedExactly(slots[..n], p);
      assert slots == slots[..n] + [slots[n]];
    }
  }

  /** In slot order: the pair of a full slot comes behind those of the slots before it. */
  lemma OccupiedAt(slots: seq<Slot>, n: nat)
    requires n < |slots| && slots[n].Full?
    ensures var before := |Occupied(slots[..n])|;
            before < |Occupied(slots)| && Occupied(slots)[before] == slots[n].pair
  {
    var from := slots[n..];
    assert slots == slots[..n] + from && from == [slots[n]] + from[1..];
    OccupiedConcat(slots[..n], from);
    OccupiedConcat([slots[n]], from[1..]);
    assert [slots[n]][..0] == [];
  }

  /** The files are f with the records of ps added. */
  ghost predicate Written(files: map<string, Bytes>, f: map<string, Bytes>, kp: string, vp: string, ps: seq<Pair>) {
    kp in f && vp in f && kp != vp && files == With(f, kp, f[kp] + Keys(ps), vp, f[vp] + Values(ps))
  }

  /** Write one dumped block behind what is written. */
  method WriteBlock(fs: FileSystem, kp: string, vp: string, block: seq<Pair>, ghost f: map<string, Bytes>,
                    ghost before: seq<Pair>)
    requires Written(fs.files, f, kp, vp, before)
    modifies fs
    ensures Written(fs.files, f, kp, vp, before + block)
  {
    FlushedFiles(f, kp, vp, before, block);
    AppendBoth(fs, kp, Keys(block), vp, Values(block), f, f[kp] + Keys(before), f[vp] + Values(before));
  }

  lemma NothingWritten(f: map<string, Bytes>, kp: string, vp: string)
    requires kp in f && vp in f && kp != vp
    ensures Written(f, f, kp, vp, [])
  {
    assert f[kp] + [] == f[kp] && f[vp] + [] == f[vp];
  }

  /** Dump the occupied slots of one window and write them, if there are any. */
  method DumpWindow(fs: FileSystem, kp: string, vp: string, slots: seq<Slot>, at: nat, len: nat,
                    ghost f: map<string, Bytes>)
    requires at + len <= |slots| && Written(fs.files, f, kp, vp, Occupied(slots[..at]))
    modifies fs
    ensures Written(fs.files, f, kp, vp, Occupied(slots[..at + len]))
  {
    var window := slots[at..at + len];
    var dumped := Occupied(window);
    ghost var before := Occupied(slots[..at]);
    OccupiedConcat(slots[..at], window);
    assert slots[..at + len] == slots[..at] + window;
    if |dumped| > 0 {
      WriteBlock(fs, kp, vp, dumped, f, before);
    } else {
      assert before + dumped == before;
    }
  }

  /** Dump the table window by window; a window without pairs writes nothing. */
  method SaveGpu(fs: FileSystem, kp: string, vp: string, slots: seq<Slot>, bufferSize: nat)
    requires 0 < bufferSize && kp in fs.files && vp in fs.files && kp != vp
    modifies fs
    ensures fs.files == With(old(fs.files), kp, old(fs.files)[kp] + Keys(Occupied(slots)),
                             vp, old(fs.files)[vp] + Values(Occupied(slots)))
  {
    ghost var f := fs.files;
    NothingWritten(f, kp, vp);
    var searchOffset, searchLength := 0, 0;
    while searchOffset < |slots|
      invariant 0 <= searchOffset <= |slots|
      invariant Written(fs.files, f, kp, vp, Occupied(slots[..searchOffset]))
    {
      if searchOffset + bufferSize >= |slots| {
        searchLength := |slots| - searchOffset;
      } else {
        searchLength := bufferSize;
      }
      DumpWindow(fs, kp, vp, slots, searchOffset, searchLength, f);
      searchOffset := searchOffset + searchLength;
    }
    assert slots[..searchOffset] == slots;
  }

  // ---------- CPU: chunks of the listing ----------

  /** The next pairs of the locked table, from an offset, at most so many. */
  function Dump(listing: seq<Pair>, searchOffset: nat, searchLength: nat): seq<Pair> {
    if searchOffset > |listing| || |listing| == 0 then []
    else if searchOffset + searchLength >= |listing| then listing[searchOffset..]
    else listing[searchOffset..searchOffset + searchLength]
  }

  /** Dump and write chunk after chunk until the whole listing is out. */
  method SaveCpu(fs: FileSystem, kp: string, vp: string, listing: seq<Pair>, bufferSize: nat)
    requires 0 < bufferSize && kp in fs.files && vp in fs.files && kp != vp
    modifies fs
    ensures fs.files == With(old(fs.files), kp, old(fs.files)[kp] + Keys(listing),
                             vp, old(fs.files)[vp] + Values(listing))
  {
    ghost var f := fs.files;
    NothingWritten(f, kp, vp);
    var searchOffset := 0;
    while searchOffset < |listing|
      invariant 0 <= searchOffset <= |listing|
      invariant Written(fs.files, f, kp, vp, listing[..searchOffset])
    {
      var dumped := Dump(listing, searchOffset, bufferSize);
      assert listing[..searchOffset] + dumped == listing[..searchOffset + |dumped|];
      WriteBlock(fs, kp, vp, dumped, f, listing[..searchOffset]);
      searchOffset := searchOffset + |dumped|;
    }
    assert listing[..searchOffset] == listing;
  }

  // ---------- where the records end up ----------

  function Base(files: map<string, Bytes>, path: string, append: bool): Bytes {
    if append && path in files then files[path] else []
  }

  function KeyPath(filepath: string, tmp: bool): string {
    filepath + "-keys" + if tmp then ".tmp" else ""
  }

  function ValuePath(filepath: string, tmp: bool): string {
    filepath + "-values" + if tmp then ".tmp" else ""
  }

  lemma PathsDiffer(filepath: string)
    ensures |KeyPath(filepath, false)| == |filepath| + 5 && |ValuePath(filepath, false)| == |filepath| + 7
    ensures |KeyPath(filepath, true)| == |filepath| + 9 && |ValuePath(filepath, true)| == |filepath| + 11
  {
  }

  lemma PathNames(filepath: string)
    ensures KeyPath(filepath, false) == filepath + "-keys" && KeyPath(filepath, true) == filepath + "-keys.tmp"
    ensures ValuePath(filepath, false) == filepath + "-values" && ValuePath(filepath, true) == filepath + "-values.tmp"
  {
    assert filepath + "-keys" + ".tmp" == filepath + ("-keys" + ".tmp");
    assert filepath + "-values" + ".tmp" == filepath + ("-values" + ".tmp");
  }

  /** Open the two files: the real ones where a rename is atomic, else temporary ones. */
  method OpenFiles(fs: FileSystem, filepath: string, append: bool, tmp: bool)
    modifies fs
    ensures var kp, vp := KeyPath(filepath, tmp), ValuePath(filepath, tmp);
            && kp != vp
            && fs.files == With(old(fs.files), kp, Base(old(fs.files), kp, append),
                                vp, Base(old(fs.files), vp, append))
  {
    PathsDiffer(filepath);
    fs.Open(KeyPath(filepath, tmp), append);
    fs.Open(ValuePath(filepath, tmp), append);
  }

  /** Move the temporary files over the real ones. */
  method CommitFiles(fs: FileSystem, filepath: string, tmp: bool)
    requires KeyPath(filepath, tmp) in fs.files && ValuePath(filepath, tmp) in fs.files
    modifies fs
    ensures KeyPath(filepath, false) in fs.files && ValuePath(filepath, false) in fs.files
    ensures fs.files[KeyPath(filepath, false)] == old(fs.files)[KeyPath(filepath, tmp)]
    ensures fs.files[ValuePath(filepath, false)] == old(fs.files)[ValuePath(filepath, tmp)]
    ensures forall p | p != KeyPath(filepath, false) && p != KeyPath(filepath, true)
                       && p != ValuePath(filepath, false) && p != ValuePath(filepath, true) ::
              p in fs.files <==> p in old(fs.files)
    ensures forall p | p in fs.files && p != KeyPath(filepath, false) && p != KeyPath(filepath, true)
                       && p != ValuePath(filepath, false) && p != ValuePath(filepath, true) ::
              p in old(fs.files) && fs.files[p] == old(fs.files)[p]
  {
    PathsDiffer(filepath);
    if tmp {
      fs.Rename(KeyPath(filepath, true), KeyPath(filepath, false));
      fs.Rename(ValuePath(filepath, true), ValuePath(filepath, false));
    }
  }

  /** The GPU table's whole save. */
  method SaveGpuToFileSystem(fs: FileSystem, filepath: string, slots: seq<Slot>, bufferSize: nat, append: bool,
                             tmp: bool)
    requires 0 < bufferSize
    modifies fs
    ensures Saved(old(fs.files), fs.files, filepath, append, tmp, Occupied(slots))
  {
    OpenFiles(fs, filepath, append, tmp);
    SaveGpu(fs, KeyPath(filepath, tmp), ValuePath(filepath, tmp), slots, bufferSize);
    CommitFiles(fs, filepath, tmp);
  }

  /** The CPU table's whole save. */
  method SaveCpuToFileSystem(fs: FileSystem, filepath: string, listing: seq<Pair>, bufferSize: nat, append: bool,
                             tmp: bool)
    requires 0 < bufferSize
    modifies fs
    ensures Saved(old(fs.files), fs.files, filepath, append, tmp, listing)
  {
    OpenFiles(fs, filepath, append, tmp);
    SaveCpu(fs, KeyPath(filepath, tmp), ValuePath(filepath, tmp), listing, bufferSize);
    CommitFiles(fs, filepath, tmp);
  }

  /** What writing behind the opened files leaves. */
  lemma WrittenBehind(before: map<string, Bytes>, start: map<string, Bytes>, after: map<string, Bytes>,
                      filepath: string, append: bool, tmp: bool, ps: seq<Pair>)
    requires var kp, vp := KeyPath(filepath, tmp), ValuePath(filepath, tmp);
             && start == With(before, kp, Base(before, kp, append), vp, Base(before, vp, append))
             && (after == With(start, kp, start[kp] + Keys(ps), vp, start[vp] + Values(ps))
                 || (ps == [] && after == start))
    ensures Unrenamed(before, after, filepath, append, tmp, ps)
  {
    PathsDiffer(filepath);
    var kp, vp := KeyPath(filepath, tmp), ValuePath(filepath, tmp);
    assert start[kp] + [] == start[kp] && start[vp] + [] == start[vp];
  }

  /** What the renaming then leaves. */
  lemma Renamed(before: map<string, Bytes>, written: map<string, Bytes>, after: map<string, Bytes>,
                filepath: string, append: bool, tmp: bool, ps: seq<Pair>)
    requires Unrenamed(before, written, filepath, append, tmp, ps)
    requires KeyPath(filepath, false) in after && ValuePath(filepath, false) in after
    requires after[KeyPath(filepath, false)] == written[KeyPath(filepath, tmp)]
    requires after[ValuePath(filepath, false)] == written[ValuePath(filepath, tmp)]
    requires forall p | p !in Own(filepath) ::
               (p in written <==> p in after) && (p in written ==> written[p] == after[p])
    ensures Saved(before, after, filepath, append, tmp, ps)
  {
    PathsDiffer(filepath);
  }

  /** The Redis table's whole save. An empty table, and a failed one, leave before the renaming. */
  method SaveRedisToFileSystem(fs: FileSystem, filepath: string, scan: seq<seq<seq<Pair>>>, totalSize: nat,
                               sk: nat, sv: nat, bufferSize: nat, append: bool, tmp: bool)
    returns (status: Status, ghost bucket: nat, ghost reply: nat)
    requires 0 < sk && 0 < sv && 0 < bufferSize && ScanOf(scan, sk, sv)
    modifies fs
    ensures status == if totalSize == 0 || ScanFits(scan, sv) then Ok else DimensionMismatch
    ensures status == Ok ==> RedisSaved(old(fs.files), fs.files, filepath, append, tmp, scan, totalSize, sv)
    ensures status != Ok ==>
              && UnfitScan(scan, bucket, reply, sv)
              && Unrenamed(old(fs.files), fs.files, filepath, append, tmp,
                           WholeBuffers(Cut(Delivered(scan, bucket, reply), sv), bufferSize))
  {
    OpenFiles(fs, filepath, append, tmp);
    ghost var start := fs.files;
    status, bucket, reply :=
      SaveRedis(fs, KeyPath(filepath, tmp), ValuePath(filepath, tmp), scan, totalSize, sk, sv, bufferSize);
    if status != Ok {
      WrittenBehind(old(fs.files), start, fs.files, filepath, append, tmp,
                    WholeBuffers(Cut(Delivered(scan, bucket, reply), sv), bufferSize));
      return;
    }
    if totalSize == 0 {
      WrittenBehind(old(fs.files), start, fs.files, filepath, append, tmp, []);
      return;
    }
    WrittenBehind(old(fs.files), start, fs.files, filepath, append, tmp, Cut(Scanned(scan), sv));
    ghost var written := fs.files;
    CommitFiles(fs, filepath, tmp);
    Renamed(old(fs.files), written, fs.files, filepath, append, tmp, Cut(Scanned(scan), sv));
  }

  /** The opened files with the records ps behind what they held; nothing is renamed. */
  ghost predicate Unrenamed(before: map<string, Bytes>, after: map<string, Bytes>, filepath: string, append: bool,
                            tmp: bool, ps: seq<Pair>) {
    var kp, vp := KeyPath(filepath, tmp), ValuePath(filepath, tmp);
    after == With(before, kp, Base(before, kp, append) + Keys(ps), vp, Base(before, vp, append) + Values(ps))
  }

  /** A Redis save that fails leaves an earlier save as it was exactly when it wrote to temporary files or, in
      place, what it wrote up to the wrong reply is nothing to append or just what was there. */
  lemma FailedRedisSaveKeepsExactly(before: map<string, Bytes>, after: map<string, Bytes>, filepath: string,
                                    append: bool, tmp: bool, ps: seq<Pair>, sk: nat, sv: nat)
    requires 0 < sk && 0 < sv && Sized(ps, sk, sv) && Unrenamed(before, after, filepath, append, tmp, ps)
    requires KeyPath(filepath, false) in before && ValuePath(filepath, false) in before
    ensures tmp ==> forall p | p != KeyPath(filepath, true) && p != ValuePath(filepath, true) ::
                      (p in after <==> p in before) && (p in before ==> after[p] == before[p])
    ensures (after[KeyPath(filepath, false)] == before[KeyPath(filepath, false)]
             && after[ValuePath(filepath, false)] == before[ValuePath(filepath, false)])
       <==> tmp || (if append then ps == []
                    else before[KeyPath(filepath, false)] == Keys(ps)
                         && before[ValuePath(filepath, false)] == Values(ps))
  {
    PathsDiffer(filepath);
    EncodeSize(ps, sk, sv);
    NothingPendingExactly(|ps|, sk);
    if !tmp {
      var k := before[KeyPath(filepath, false)];
      assert append ==> |k + Keys(ps)| == |k| + |Keys(ps)|;
      assert k + [] == k && before[ValuePath(filepath, false)] + [] == before[ValuePath(filepath, false)];
      assert [] + Keys(ps) == Keys(ps) && [] + Values(ps) == Values(ps);
    }
  }

  lemma NothingPendingExactly(n: nat, size: nat)
    requires 0 < size
    ensures n * size == 0 <==> n == 0
  {
  }

  /** The first reply is wrong and the files are written in place: the earlier save is gone. */
  lemma FailedRedisSaveLosesOldTable(after: map<string, Bytes>)
    requires Unrenamed(map["a-keys" := [1], "a-values" := [2]], after, "a", false, false, [])
    ensures after["a-keys"] == [] && after["a-values"] == []
  {
    PathsDiffer("a");
    assert "a" + "-keys" + "" == "a-keys" && "a" + "-values" + "" == "a-values";
  }

  /** What a Redis save leaves: without pairs only the opened files, else all that was scanned. */
  ghost predicate RedisSaved(before: map<string, Bytes>, after: map<string, Bytes>, filepath: string, append: bool,
                             tmp: bool, scan: seq<seq<seq<Pair>>>, totalSize: nat, sv: nat) {
    if totalSize == 0 then
      Unrenamed(before, after, filepath, append, tmp, [])
    else
      Saved(before, after, filepath, append, tmp, Cut(Scanned(scan), sv))
  }

  /** After a save the two files hold the records ps behind what they were opened with; no file but the
      two and their temporaries has changed. */
  ghost predicate Saved(before: map<string, Bytes>, after: map<string, Bytes>, filepath: string, append: bool,
                        tmp: bool, ps: seq<Pair>) {
    && KeyPath(filepath, false) in after && ValuePath(filepath, false) in after
    && after[KeyPath(filepath, false)] == Base(before, KeyPath(filepath, tmp), append) + Keys(ps)
    && after[ValuePath(filepath, false)] == Base(before, ValuePath(filepath, tmp), append) + Values(ps)
    && (forall p | p !in Own(filepath) :: (p in before <==> p in after) && (p in before ==> before[p] == after[p]))
  }

  function Own(filepath: string): set<string> {
    {KeyPath(filepath, false), KeyPath(filepath, true), ValuePath(filepath, false), ValuePath(filepath, true)}
  }

  lemma SuffixCancels(a: Bytes, b: Bytes, c: Bytes)
    ensures a + c == b + c <==> a == b
  {
    if a + c == b + c {
      assert |a| == |b|;
      assert a == (a + c)[..|a|] == (b + c)[..|b|] == b;
    }
  }

  /** Appending keeps the records saved before exactly when the files are opened in place, or the
      temporary file happens to hold them already; the same for either of the two files. */
  lemma AppendKeepsOldRecordsExactly(before: map<string, Bytes>, after: map<string, Bytes>, filepath: string, tmp: bool,
                                     ps: seq<Pair>)
    requires Saved(before, after, filepath, true, tmp, ps)
    requires KeyPath(filepath, false) in before && ValuePath(filepath, false) in before
    ensures after[KeyPath(filepath, false)] == before[KeyPath(filepath, false)] + Keys(ps)
       <==> (!tmp || Base(before, KeyPath(filepath, true), true) == before[KeyPath(filepath, false)])
    ensures after[ValuePath(filepath, false)] == before[ValuePath(filepath, false)] + Values(ps)
       <==> (!tmp || Base(before, ValuePath(filepath, true), true) == before[ValuePath(filepath, false)])
  {
    SuffixCancels(Base(before, KeyPath(filepath, tmp), true), before[KeyPath(filepath, false)], Keys(ps));
    SuffixCancels(Base(before, ValuePath(filepath, tmp), true), before[ValuePath(filepath, false)], Values(ps));
  }

  /** Opened without an atomic move, an append loses what was saved before: the temporary files start empty. */
  lemma AppendLosesOldRecords(after: map<string, Bytes>)
    requires Saved(map["a-keys" := [1], "a-values" := [2]], after, "a", true, true, [Pair([3], [4])])
    ensures after["a-keys"] == [3] && after["a-values"] == [4]
  {
    PathsDiffer("a");
    assert "a" + "-keys" + "" == "a-keys" && "a" + "-values" + "" == "a-values";
  }

  // ---------- values of unexpected lengths ----------

  /** No value is too short to copy from. */
  ghost predicate LongEnough(ps: seq<Pair>, sk: nat, sv: nat) {
    forall i | 0 <= i < |ps| :: |ps[i].key| == sk && sv <= |ps[i].value|
  }

  /** What an accepted scan delivers can be copied. */
  lemma {:induction false} ConcatLongEnough(batches: seq<seq<Pair>>, sk: nat, sv: nat)
    requires (forall j | 0 <= j < |batches| :: WellFormed(batches[j], sk, sv)) && AllFit(batches, sv)
    ensures LongEnough(Concat(batches), sk, sv)
  {
    if batches != [] {
      var n := |batches| - 1;
      ConcatLongEnough(batches[..n], sk, sv);
      assert WellFormed(batches[n], sk, sv) && Fits(batches[n], sv);
    }
  }

  lemma {:induction false} ScanLongEnough(scan: seq<seq<seq<Pair>>>, sk: nat, sv: nat)
    requires ScanOf(scan, sk, sv) && ScanFits(scan, sv)
    ensures LongEnough(Scanned(scan), sk, sv)
  {
    if scan != [] {
      var n := |scan| - 1;
      ScanLongEnough(scan[..n], sk, sv);
      assert BucketScan(scan[n], sk, sv) && AllFit(scan[n], sv);
      ConcatLongEnough(scan[n], sk, sv);
    }
  }

  /** The saved records have the expected sizes, whatever the lengths behind the first values were. */
  lemma ScanSized(scan: seq<seq<seq<Pair>>>, sk: nat, sv: nat)
    requires ScanOf(scan, sk, sv) && ScanFits(scan, sv)
    ensures Sized(Cut(Scanned(scan), sv), sk, sv)
  {
    ScanLongEnough(scan, sk, sv);
  }

  lemma {:induction false} ValuesAtLeast(ps: seq<Pair>, sk: nat, sv: nat)
    requires LongEnough(ps, sk, sv)
    ensures |Values(ps)| >= |ps| * sv
    ensures |Values(ps)| == |ps| * sv ==> Sized(ps, sk, sv)
  {
    if ps != [] {
      var n := |ps| - 1;
      Distribute(n, 1, sv);
      ValuesAtLeast(ps[..n], sk, sv);
    }
  }

  /** An accepted scan is saved unchanged exactly when every value has the expected length, not only the
      first of every batch. */
  lemma ScanSavedUnchangedExactly(scan: seq<seq<seq<Pair>>>, sk: nat, sv: nat)
    requires ScanOf(scan, sk, sv) && ScanFits(scan, sv)
    ensures Keys(Cut(Scanned(scan), sv)) == Keys(Scanned(scan))
    ensures Values(Cut(Scanned(scan), sv)) == Values(Scanned(scan)) <==> Sized(Scanned(scan), sk, sv)
  {
    var ps := Scanned(scan);
    ScanLongEnough(scan, sk, sv);
    ScanSized(scan, sk, sv);
    EncodeSize(Cut(ps, sv), sk, sv);
    ValuesAtLeast(ps, sk, sv);
    KeysOfCut(ps, sv);
    if Sized(ps, sk, sv) {
      CutOfSized(ps, sk, sv);
    }
  }

  lemma CutOfSized(ps: seq<Pair>, sk: nat, sv: nat)
    requires Sized(ps, sk, sv)
    ensures Cut(ps, sv) == ps
  {
    forall i | 0 <= i < |ps|
      ensures Cut(ps, sv)[i] == ps[i]
    {
      assert ps[i].value[..sv] == ps[i].value;
    }
  }

  lemma {:induction false} KeysOfCut(ps: seq<Pair>, sv: nat)
    ensures Keys(Cut(ps, sv)) == Keys(ps)
  {
    if ps != [] {
      var n := |ps| - 1;
      KeysOfCut(ps[..n], sv);
      assert Cut(ps, sv)[..n] == Cut(ps[..n], sv);
    }
  }

  lemma OneReply(batch: seq<Pair>)
    ensures Scanned([[batch]]) == batch
  {
    assert Concat([batch]) == Concat([]) + batch == batch;
    assert Scanned([[batch]]) == Scanned([]) + Concat([batch]);
  }

  lemma OneReplyFits(batch: seq<Pair>, sk: nat, sv: nat)
    requires WellFormed(batch, sk, sv) && Fits(batch, sv)
    ensures ScanOf([[batch]], sk, sv) && ScanFits([[batch]], sv)
  {
  }

  /** A batch with a longer second value is accepted, and that value is cut. */
  lemma LongerValueIsCut()
    ensures var scan := [[[Pair([1], [5]), Pair([2], [6, 7])]]];
            && ScanOf(scan, 1, 1) && ScanFits(scan, 1)
            && Cut(Scanned(scan), 1) == [Pair([1], [5]), Pair([2], [6])]
  {
    var batch := [Pair([1], [5]), Pair([2], [6, 7])];
    OneReply(batch);
    OneReplyFits(batch, 1, 1);
    TwoPairsCut();
  }

  lemma TwoPairsCut()
    ensures Cut([Pair([1], [5]), Pair([2], [6, 7])], 1) == [Pair([1], [5]), Pair([2], [6])]
  {
    var batch := [Pair([1], [5]), Pair([2], [6, 7])];
    assert batch[0].value[..1] == [5] && batch[1].value[..1] == [6];
    assert Cut(batch, 1)[0] == Pair([1], [5]) && Cut(batch, 1)[1] == Pair([2], [6]);
  }
}
