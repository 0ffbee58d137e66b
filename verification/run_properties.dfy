/**
 Properties of whole runs of the sync engine: when a run completes, which files it uploads, what
 cache it saves, what a second run does, and what an aborted run leaves behind.
 */
module RunProperties {
  import opened Wrappers
  import opened Hasher
  import opened CacheStore
  import opened Storage
  import opened Sync
  import opened SyncProperties

  /** `updated` maps the key of every file of the walk to the digest of its content. */
  predicate RecordsDigests(updated: Cache, hash: HashFn, walk: seq<Entry>)
  {
    forall i :: 0 <= i < |walk| ==>
      walk[i].file.Readable? && walk[i].key in updated && updated[walk[i].key] == hash(walk[i].file.content)
  }

  /** One file: the loop body succeeds exactly for a clear file; it then records the file's
      digest and uploads it exactly when the loaded cache does not already hold that digest. */
  lemma StepSpec(client: Client, cache: Cache, hash: HashFn, s: State, e: Entry)
    ensures Step(client, cache, hash, s, e).Success? <==> Clear(client, cache, hash, e)
    ensures Step(client, cache, hash, s, e).Success? ==>
      Step(client, cache, hash, s, e).value
        == State(s.updated[e.key := hash(e.file.content)],
                 s.uploads + (if Unchanged(cache, hash, e) then [] else [UploadFile(client, e.key, e.file.content)]))
    ensures Step(client, cache, hash, s, e).Failure? ==>
      Step(client, cache, hash, s, e).error
        == Abort(if e.file.Unreadable? then ReadFailed else UploadRejected, e.key, s.uploads)
  {
  }

  /** A run completes exactly when every file of the walk is clear. */
  lemma {:induction false} CompletesIff(client: Client, cache: Cache, hash: HashFn, walk: seq<Entry>,
                                        run: Result<State, Abort>)
    requires run == Process(client, cache, hash, walk)
    ensures run.Success? <==> AllClear(client, cache, hash, walk)
    decreases |walk|
  {
    if walk != [] {
      var p, e := walk[..|walk| - 1], walk[|walk| - 1];
      CompletesIff(client, cache, hash, p, Process(client, cache, hash, p));
      AllClearLast(client, cache, hash, walk);
      match Process(client, cache, hash, p)
      case Failure(_) =>
        assert Process(client, cache, hash, walk).Failure?;
      case Success(s) =>
        assert Process(client, cache, hash, walk) == Step(client, cache, hash, s, e);
        StepSpec(client, cache, hash, s, e);
    }
  }

  lemma AllClearLast(client: Client, cache: Cache, hash: HashFn, walk: seq<Entry>)
    requires walk != []
    ensures AllClear(client, cache, hash, walk)
      <==> AllClear(client, cache, hash, walk[..|walk| - 1]) && Clear(client, cache, hash, walk[|walk| - 1])
  {
    var p := walk[..|walk| - 1];
    assert forall i :: 0 <= i < |p| ==> p[i] == walk[i];
  }

  /** A completed run read every file and uploaded exactly the changed ones, in walk order. */
  lemma {:induction false} UploadsAreChanged(client: Client, cache: Cache, hash: HashFn, walk: seq<Entry>, s: State)
    requires Process(client, cache, hash, walk) == Success(s)
    ensures AllReadable(walk)
    ensures s.uploads == Changed(client, cache, hash, walk)
    decreases |walk|
  {
    if walk != [] {
      var p, e := walk[..|walk| - 1], walk[|walk| - 1];
      SplitLast(walk);
      var s0 := Process(client, cache, hash, p).value;
      UploadsAreChanged(client, cache, hash, p, s0);
      assert Process(client, cache, hash, walk) == Step(client, cache, hash, s0, e);
      UploadsAtLast(client, cache, hash, p, e, s0, s);
    }
  }

  lemma SplitLast(walk: seq<Entry>)
    requires walk != []
    ensures walk == walk[..|walk| - 1] + [walk[|walk| - 1]]
  {
  }

  /** Processing one more file extends the expected uploads of the earlier ones. */
  lemma UploadsAtLast(client: Client, cache: Cache, hash: HashFn, p: seq<Entry>, e: Entry, s0: State, s: State)
    requires AllReadable(p) && s0.uploads == Changed(client, cache, hash, p)
    requires Step(client, cache, hash, s0, e) == Success(s)
    ensures AllReadable(p + [e])
    ensures s.uploads == Changed(client, cache, hash, p + [e])
  {
    StepSpec(client, cache, hash, s0, e);
    ChangedAppend(client, cache, hash, p, e);
  }

  /** A completed run's new cache has exactly the walked keys: keys of the old cache that were
      not walked are dropped. */
  lemma {:induction false} CacheKeysAreWalkKeys(client: Client, cache: Cache, hash: HashFn, walk: seq<Entry>, s: State)
    requires Process(client, cache, hash, walk) == Success(s)
    ensures s.updated.Keys == Keys(walk)
    ensures forall k :: k in cache && k !in Keys(walk) ==> k !in s.updated
    decreases |walk|
  {
    if walk != [] {
      var p, e := walk[..|walk| - 1], walk[|walk| - 1];
      var s0 := Process(client, cache, hash, p).value;
      CacheKeysAreWalkKeys(client, cache, hash, p, s0);
      assert Process(client, cache, hash, walk) == Step(client, cache, hash, s0, e);
      StepSpec(client, cache, hash, s0, e);
      KeysOfLast(walk);
    }
  }

  lemma KeysOfLast(walk: seq<Entry>)
    requires walk != []
    ensures Keys(walk) == Keys(walk[..|walk| - 1]) + {walk[|walk| - 1].key}
  {
    var p := walk[..|walk| - 1];
    assert forall i :: 0 <= i < |p| ==> p[i] == walk[i];
    forall k | k in Keys(walk)
      ensures k in Keys(p) + {walk[|walk| - 1].key}
    {
      var i :| 0 <= i < |walk| && walk[i].key == k;
      if i < |p| {
        assert p[i].key == k;
      }
    }
  }

  /** A completed run's new cache maps every walked key to the digest of that file's current
      content, whether the file was skipped or uploaded. */
  lemma {:induction false} CacheRecordsDigests(client: Client, cache: Cache, hash: HashFn, walk: seq<Entry>, s: State)
    requires DistinctKeys(walk)
    requires Process(client, cache, hash, walk) == Success(s)
    ensures RecordsDigests(s.updated, hash, walk)
    decreases |walk|
  {
    UploadsAreChanged(client, cache, hash, walk, s);
    if walk != [] {
      var p, e := walk[..|walk| - 1], walk[|walk| - 1];
      DistinctPrefix(walk);
      var s0 := Process(client, cache, hash, p).value;
      CacheRecordsDigests(client, cache, hash, p, s0);
      assert Process(client, cache, hash, walk) == Step(client, cache, hash, s0, e);
      StepSpec(client, cache, hash, s0, e);
      RecordLast(s0.updated, hash, walk);
    }
  }

  lemma DistinctPrefix(walk: seq<Entry>)
    requires walk != [] && DistinctKeys(walk)
    ensures DistinctKeys(walk[..|walk| - 1])
  {
  }

  /** Recording the last file's digest on top of a cache that records the earlier ones. */
  lemma RecordLast(updated: Cache, hash: HashFn, walk: seq<Entry>)
    requires walk != [] && DistinctKeys(walk) && walk[|walk| - 1].file.Readable?
    requires RecordsDigests(updated, hash, walk[..|walk| - 1])
    ensures RecordsDigests(updated[walk[|walk| - 1].key := hash(walk[|walk| - 1].file.content)], hash, walk)
  {
    var p, e := walk[..|walk| - 1], walk[|walk| - 1];
    var u := updated[e.key := hash(e.file.content)];
    forall i | 0 <= i < |walk|
      ensures walk[i].file.Readable? && walk[i].key in u && u[walk[i].key] == hash(walk[i].file.content)
    {
      if i < |p| {
        assert p[i] == walk[i];
      }
    }
  }

  /** A file is skipped exactly when the loaded cache maps its key to its current digest;
      every other file is uploaded, once, under its own key. */
  lemma SkipIffCached(client: Client, cache: Cache, hash: HashFn, walk: seq<Entry>, s: State)
    requires DistinctKeys(walk)
    requires Process(client, cache, hash, walk) == Success(s)
    ensures AllReadable(walk)
    ensures forall i :: 0 <= i < |walk| ==>
      (walk[i].key in UploadedKeys(s.uploads) <==> !Unchanged(cache, hash, walk[i]))
    ensures EachKeyOnce(s.uploads)
  {
    UploadsAreChanged(client, cache, hash, walk, Process(client, cache, hash, walk).value);
    var ups := s.uploads;
    ChangedSound(client, cache, hash, walk);
    ChangedComplete(client, cache, hash, walk);
    ChangedOnce(client, cache, hash, walk);
    forall i | 0 <= i < |walk|
      ensures walk[i].key in UploadedKeys(ups) <==> !Unchanged(cache, hash, walk[i])
    {
      if walk[i].key in UploadedKeys(ups) {
        var r :| r in ups && r.key == walk[i].key;
        var j :| 0 <= j < |walk| && !Unchanged(cache, hash, walk[j]) && r == UploadFile(client, walk[j].key, walk[j].file.content);
        assert walk[j].key == walk[i].key;
        assert i == j;
      }
      if !Unchanged(cache, hash, walk[i]) {
        var r := UploadFile(client, walk[i].key, walk[i].file.content);
        assert r in ups;
      }
    }
  }

  /** Two caches with exactly the walked keys that both record the walk's digests are equal. */
  lemma RecordsDetermine(a: Cache, b: Cache, hash: HashFn, walk: seq<Entry>)
    requires a.Keys == Keys(walk) && b.Keys == Keys(walk)
    requires RecordsDigests(a, hash, walk) && RecordsDigests(b, hash, walk)
    ensures a == b
  {
    forall k | k in a
      ensures a[k] == b[k]
    {
      var i :| 0 <= i < |walk| && walk[i].key == k;
    }
  }

  /** On a first run (no cache file) every walked file is uploaded, in walk order. */
  lemma FirstRunUploadsAll(client: Client, hash: HashFn, walk: seq<Entry>)
    requires UploadFolder(client, Absent, hash, walk).run.Success?
    ensures AllReadable(walk)
    ensures |UploadFolder(client, Absent, hash, walk).run.value.uploads| == |walk|
    ensures forall i :: 0 <= i < |walk| ==>
      UploadFolder(client, Absent, hash, walk).run.value.uploads[i] == UploadFile(client, walk[i].key, walk[i].file.content)
  {
    UploadsAreChanged(client, map[], hash, walk, Process(client, map[], hash, walk).value);
    AllChanged(client, hash, walk);
  }

  /** Running again over the same files with the cache the first run saved uploads nothing,
      completes whatever the service would answer, and saves the same cache. */
  lemma Idempotent(client: Client, again: Client, stored: CacheFile, hash: HashFn, walk: seq<Entry>)
    requires DistinctKeys(walk)
    requires UploadFolder(client, stored, hash, walk).run.Success?
    ensures UploadFolder(again, UploadFolder(client, stored, hash, walk).stored, hash, walk)
      == Report(UploadFolder(client, stored, hash, walk).stored,
                Success(State(UploadFolder(client, stored, hash, walk).run.value.updated, [])))
  {
    var first := UploadFolder(client, stored, hash, walk);
    var m := first.run.value.updated;
    CacheRecordsDigests(client, LoadCache(stored), hash, walk, Process(client, LoadCache(stored), hash, walk).value);
    CacheKeysAreWalkKeys(client, LoadCache(stored), hash, walk, Process(client, LoadCache(stored), hash, walk).value);
    UploadsAreChanged(client, LoadCache(stored), hash, walk, Process(client, LoadCache(stored), hash, walk).value);
    assert forall i :: 0 <= i < |walk| ==> Unchanged(m, hash, walk[i]);
    CompletesIff(again, m, hash, walk, Process(again, m, hash, walk));
    UploadsAreChanged(again, m, hash, walk, Process(again, m, hash, walk).value);
    NothingChanged(again, m, hash, walk);
    CacheRecordsDigests(again, m, hash, walk, Process(again, m, hash, walk).value);
    CacheKeysAreWalkKeys(again, m, hash, walk, Process(again, m, hash, walk).value);
    RecordsDetermine(Process(again, m, hash, walk).value.updated, m, hash, walk);
  }

  /** A run over files that all match the cache except file `j`, whose upload is accepted,
      uploads file `j` alone and updates only its entry. */
  lemma OneChangedRun(client: Client, cache: Cache, hash: HashFn, walk: seq<Entry>, j: nat)
    requires DistinctKeys(walk) && AllReadable(walk) && cache.Keys == Keys(walk)
    requires j < |walk| && !Unchanged(cache, hash, walk[j])
    requires forall i :: 0 <= i < |walk| && i != j ==> Unchanged(cache, hash, walk[i])
    requires client.accepts(UploadFile(client, walk[j].key, walk[j].file.content))
    ensures Process(client, cache, hash, walk)
      == Success(State(cache[walk[j].key := hash(walk[j].file.content)],
                       [UploadFile(client, walk[j].key, walk[j].file.content)]))
  {
    assert AllClear(client, cache, hash, walk);
    CompletesIff(client, cache, hash, walk, Process(client, cache, hash, walk));
    var s := Process(client, cache, hash, walk).value;
    UploadsAreChanged(client, cache, hash, walk, s);
    OnlyOneChanged(client, cache, hash, walk, j);
    CacheRecordsDigests(client, cache, hash, walk, s);
    CacheKeysAreWalkKeys(client, cache, hash, walk, s);
    RecordAfterChange(cache, hash, walk, j);
    RecordsDetermine(s.updated, cache[walk[j].key := hash(walk[j].file.content)], hash, walk);
  }

  lemma RecordAfterChange(cache: Cache, hash: HashFn, walk: seq<Entry>, j: nat)
    requires DistinctKeys(walk) && AllReadable(walk) && j < |walk|
    requires forall i :: 0 <= i < |walk| && i != j ==> Unchanged(cache, hash, walk[i])
    ensures RecordsDigests(cache[walk[j].key := hash(walk[j].file.content)], hash, walk)
  {
    var m' := cache[walk[j].key := hash(walk[j].file.content)];
    forall i | 0 <= i < |walk|
      ensures walk[i].file.Readable? && walk[i].key in m' && m'[walk[i].key] == hash(walk[i].file.content)
    {
      if i != j {
        assert walk[i].key != walk[j].key;
      }
    }
  }

  /** Rewriting one file with content of a different digest and running again with the saved
      cache uploads that file alone and changes only its cache entry. */
  lemma ChangeDetection(client: Client, again: Client, stored: CacheFile, hash: HashFn, walk: seq<Entry>,
                        j: nat, content: seq<byte>)
    requires DistinctKeys(walk)
    requires UploadFolder(client, stored, hash, walk).run.Success?
    requires j < |walk| && walk[j].file.Readable?
    requires hash(content) != hash(walk[j].file.content)
    requires again.accepts(UploadFile(again, walk[j].key, content))
    ensures UploadFolder(again, UploadFolder(client, stored, hash, walk).stored, hash,
                         walk[j := Entry(walk[j].key, Readable(content))]).run
      == Success(State(UploadFolder(client, stored, hash, walk).run.value.updated[walk[j].key := hash(content)],
                       [UploadFile(again, walk[j].key, content)]))
  {
    var m := UploadFolder(client, stored, hash, walk).run.value.updated;
    var edited := walk[j := Entry(walk[j].key, Readable(content))];
    CacheRecordsDigests(client, LoadCache(stored), hash, walk, Process(client, LoadCache(stored), hash, walk).value);
    CacheKeysAreWalkKeys(client, LoadCache(stored), hash, walk, Process(client, LoadCache(stored), hash, walk).value);
    EditKeepsKeys(walk, j, Entry(walk[j].key, Readable(content)));
    forall i | 0 <= i < |edited|
      ensures edited[i].file.Readable? && (i != j ==> Unchanged(m, hash, edited[i]))
    {
    }
    OneChangedRun(again, m, hash, edited, j);
  }

  lemma EditKeepsKeys(walk: seq<Entry>, j: nat, e: Entry)
    requires j < |walk| && e.key == walk[j].key && DistinctKeys(walk)
    ensures Keys(walk[j := e]) == Keys(walk)
    ensures DistinctKeys(walk[j := e])
  {
    var edited := walk[j := e];
    assert forall i :: 0 <= i < |walk| ==> edited[i].key == walk[i].key;
    forall k | k in Keys(walk)
      ensures k in Keys(edited)
    {
      var i :| 0 <= i < |walk| && walk[i].key == k;
      assert edited[i].key == k;
    }
  }

  /** An aborted run stopped at the first file that is not clear: the files before it were
      processed, the uploads that went through are exactly theirs, and nothing after it ran. */
  lemma {:induction false} AbortIsFirstFailure(client: Client, cache: Cache, hash: HashFn, walk: seq<Entry>, a: Abort)
    returns (i: nat)
    requires Process(client, cache, hash, walk) == Failure(a)
    ensures i < |walk|
    ensures forall j :: 0 <= j < i ==> Clear(client, cache, hash, walk[j])
    ensures !Clear(client, cache, hash, walk[i])
    ensures a.key == walk[i].key
    ensures a.cause == ReadFailed <==> walk[i].file.Unreadable?
    ensures AllReadable(walk[..i])
    ensures a.uploaded == Changed(client, cache, hash, walk[..i])
    decreases |walk|
  {
    var p, e := walk[..|walk| - 1], walk[|walk| - 1];
    match Process(client, cache, hash, p)
    case Failure(a0) =>
      assert Process(client, cache, hash, walk) == Failure(a0);
      i := AbortIsFirstFailure(client, cache, hash, p, a);
      PrefixOfPrefix(walk, i);
    case Success(s0) =>
      assert Process(client, cache, hash, walk) == Step(client, cache, hash, s0, e);
      i := |walk| - 1;
      AbortAtLast(client, cache, hash, walk, s0, a);
  }

  lemma PrefixOfPrefix(walk: seq<Entry>, i: nat)
    requires i < |walk| - 1
    ensures walk[..i] == walk[..|walk| - 1][..i]
    ensures forall j :: 0 <= j <= i ==> walk[..|walk| - 1][j] == walk[j]
  {
  }

  /** The last file aborts a run whose earlier files all went through. */
  lemma AbortAtLast(client: Client, cache: Cache, hash: HashFn, walk: seq<Entry>, s0: State, a: Abort)
    requires walk != []
    requires Process(client, cache, hash, walk[..|walk| - 1]) == Success(s0)
    requires Step(client, cache, hash, s0, walk[|walk| - 1]) == Failure(a)
    ensures forall j :: 0 <= j < |walk| - 1 ==> Clear(client, cache, hash, walk[j])
    ensures !Clear(client, cache, hash, walk[|walk| - 1])
    ensures a.key == walk[|walk| - 1].key
    ensures a.cause == ReadFailed <==> walk[|walk| - 1].file.Unreadable?
    ensures AllReadable(walk[..|walk| - 1])
    ensures a.uploaded == Changed(client, cache, hash, walk[..|walk| - 1])
  {
    var p, e := walk[..|walk| - 1], walk[|walk| - 1];
    CompletesIff(client, cache, hash, p, Process(client, cache, hash, p));
    assert forall j :: 0 <= j < |p| ==> p[j] == walk[j];
    UploadsAreChanged(client, cache, hash, p, Process(client, cache, hash, p).value);
    StepSpec(client, cache, hash, s0, e);
  }

  /** Every upload of a run, completed or aborted, sends one walked file to the client's bucket
      under that file's own key, with the client's extra arguments. */
  lemma {:induction false} UploadsFromWalk(client: Client, cache: Cache, hash: HashFn, walk: seq<Entry>)
    ensures forall r :: r in Uploaded(Process(client, cache, hash, walk)) ==> FromWalk(client, walk, r)
    decreases |walk|
  {
    if walk != [] {
      var p, e := walk[..|walk| - 1], walk[|walk| - 1];
      UploadsFromWalk(client, cache, hash, p);
      forall r | FromWalk(client, p, r)
        ensures FromWalk(client, walk, r)
      {
        var i :| 0 <= i < |p| && p[i].file.Readable? && r == UploadFile(client, p[i].key, p[i].file.content);
        assert p[i] == walk[i];
      }
      match Process(client, cache, hash, p)
      case Failure(a) =>
      case Success(s0) =>
        StepSpec(client, cache, hash, s0, e);
        assert e == walk[|walk| - 1];
    }
  }

  /** After a completed run with distinct keys, every uploaded object's name is a key of the
      saved cache, which maps it to the digest of exactly the bytes uploaded. */
  lemma UploadsMatchSavedCache(client: Client, stored: CacheFile, hash: HashFn, walk: seq<Entry>)
    requires DistinctKeys(walk)
    requires UploadFolder(client, stored, hash, walk).run.Success?
    ensures forall r :: r in Uploaded(UploadFolder(client, stored, hash, walk).run) ==>
      r.key in LoadCache(UploadFolder(client, stored, hash, walk).stored)
      && LoadCache(UploadFolder(client, stored, hash, walk).stored)[r.key] == hash(r.body)
  {
    var report := UploadFolder(client, stored, hash, walk);
    UploadsFromWalk(client, LoadCache(stored), hash, walk);
    CacheRecordsDigests(client, LoadCache(stored), hash, walk, Process(client, LoadCache(stored), hash, walk).value);
    forall r | r in Uploaded(report.run)
      ensures r.key in LoadCache(report.stored) && LoadCache(report.stored)[r.key] == hash(r.body)
    {
      assert FromWalk(client, walk, r);
      var i :| 0 <= i < |walk| && walk[i].file.Readable? && r == UploadFile(client, walk[i].key, walk[i].file.content);
    }
  }
}
