/**
 What a run of the sync engine promises, stated against reference definitions that do not share
 the engine's shape: the expected uploads are a plain filter of the walk (`Changed`), and whether
 a run completes is a per-file condition (`Clear`).
 */
module SyncProperties {
  import opened Hasher
  import opened CacheStore
  import opened Storage
  import opened Sync

  predicate AllReadable(walk: seq<Entry>)
  {
    forall i :: 0 <= i < |walk| ==> walk[i].file.Readable?
  }

  /** No key occurs twice; `os.walk` with `relpath` yields each file once. */
  predicate DistinctKeys(walk: seq<Entry>)
  {
    forall i, j :: 0 <= i < j < |walk| ==> walk[i].key != walk[j].key
  }

  function Keys(walk: seq<Entry>): set<Key>
  {
    set i | 0 <= i < |walk| :: walk[i].key
  }

  function UploadedKeys(uploads: seq<PutRequest>): set<Key>
  {
    set r | r in uploads :: r.key
  }

  /** The cache already holds this file's current digest under its key. */
  predicate Unchanged(cache: Cache, hash: HashFn, e: Entry)
    requires e.file.Readable?
  {
    e.key in cache && cache[e.key] == hash(e.file.content)
  }

  /** The file can be read and either needs no upload or its upload is accepted. */
  predicate Clear(client: Client, cache: Cache, hash: HashFn, e: Entry)
  {
    e.file.Readable? && (Unchanged(cache, hash, e) || client.accepts(UploadFile(client, e.key, e.file.content)))
  }

  /** Every file of the walk is clear. */
  predicate AllClear(client: Client, cache: Cache, hash: HashFn, walk: seq<Entry>)
  {
    forall i :: 0 <= i < |walk| ==> Clear(client, cache, hash, walk[i])
  }

  /** Reference: the uploads of the walk's changed files, in walk order. */
  function Changed(client: Client, cache: Cache, hash: HashFn, walk: seq<Entry>): seq<PutRequest>
    requires AllReadable(walk)
    decreases |walk|
  {
    if walk == [] then []
    else
      var e := walk[0];
      (if Unchanged(cache, hash, e) then [] else [UploadFile(client, e.key, e.file.content)])
        + Changed(client, cache, hash, walk[1..])
  }

  /** No remote object name occurs twice among the uploads. */
  predicate EachKeyOnce(uploads: seq<PutRequest>)
  {
    forall a, b :: 0 <= a < b < |uploads| ==> uploads[a].key != uploads[b].key
  }

  /** The request uploads some readable file of the walk under that file's own key. */
  predicate FromWalk(client: Client, walk: seq<Entry>, r: PutRequest)
  {
    exists i :: 0 <= i < |walk| && walk[i].file.Readable? && r == UploadFile(client, walk[i].key, walk[i].file.content)
  }

  // ---------------------------------------------------------------------------------------------
  // Facts about the reference filter

  lemma {:induction false} ChangedAppend(client: Client, cache: Cache, hash: HashFn, walk: seq<Entry>, e: Entry)
    requires AllReadable(walk) && e.file.Readable?
    ensures AllReadable(walk + [e])
    ensures Changed(client, cache, hash, walk + [e])
         == Changed(client, cache, hash, walk)
            + (if Unchanged(cache, hash, e) then [] else [UploadFile(client, e.key, e.file.content)])
    decreases |walk|
  {
    if walk == [] {
      assert [e][1..] == [];
      assert [] + [e] == [e];
    } else {
      assert (walk + [e])[0] == walk[0];
      assert (walk + [e])[1..] == walk[1..] + [e];
      ChangedAppend(client, cache, hash, walk[1..], e);
    }
  }

  /** Every expected upload is of a changed file of the walk, under that file's key. */
  lemma {:induction false} ChangedSound(client: Client, cache: Cache, hash: HashFn, walk: seq<Entry>)
    requires AllReadable(walk)
    ensures forall r :: r in Changed(client, cache, hash, walk) ==>
      exists i :: 0 <= i < |walk| && !Unchanged(cache, hash, walk[i]) && r == UploadFile(client, walk[i].key, walk[i].file.content)
    decreases |walk|
  {
    if walk != [] {
      ChangedSound(client, cache, hash, walk[1..]);
      forall r | r in Changed(client, cache, hash, walk)
        ensures exists i :: 0 <= i < |walk| && !Unchanged(cache, hash, walk[i]) && r == UploadFile(client, walk[i].key, walk[i].file.content)
      {
        if r !in Changed(client, cache, hash, walk[1..]) {
          assert !Unchanged(cache, hash, walk[0]) && r == UploadFile(client, walk[0].key, walk[0].file.content);
        } else {
          var j :| 0 <= j < |walk[1..]| && !Unchanged(cache, hash, walk[1..][j]) && r == UploadFile(client, walk[1..][j].key, walk[1..][j].file.content);
          assert walk[1..][j] == walk[j + 1];
        }
      }
    }
  }

  /** Every changed file of the walk is among the expected uploads. */
  lemma {:induction false} ChangedComplete(client: Client, cache: Cache, hash: HashFn, walk: seq<Entry>)
    requires AllReadable(walk)
    ensures forall i :: 0 <= i < |walk| && !Unchanged(cache, hash, walk[i]) ==>
      UploadFile(client, walk[i].key, walk[i].file.content) in Changed(client, cache, hash, walk)
    decreases |walk|
  {
    if walk != [] {
      ChangedComplete(client, cache, hash, walk[1..]);
      forall i | 0 <= i < |walk| && !Unchanged(cache, hash, walk[i])
        ensures UploadFile(client, walk[i].key, walk[i].file.content) in Changed(client, cache, hash, walk)
      {
        if i > 0 {
          assert walk[1..][i - 1] == walk[i];
        }
      }
    }
  }

  /** With distinct walk keys, no key is uploaded twice. */
  lemma {:induction false} ChangedOnce(client: Client, cache: Cache, hash: HashFn, walk: seq<Entry>)
    requires AllReadable(walk) && DistinctKeys(walk)
    ensures EachKeyOnce(Changed(client, cache, hash, walk))
    decreases |walk|
  {
    if walk != [] {
      var rest := Changed(client, cache, hash, walk[1..]);
      ChangedOnce(client, cache, hash, walk[1..]);
      ChangedSound(client, cache, hash, walk[1..]);
      forall r | r in rest
        ensures r.key != walk[0].key
      {
        var j :| 0 <= j < |walk[1..]| && !Unchanged(cache, hash, walk[1..][j]) && r == UploadFile(client, walk[1..][j].key, walk[1..][j].file.content);
        assert walk[1..][j] == walk[j + 1];
      }
      var ups := Changed(client, cache, hash, walk);
      if !Unchanged(cache, hash, walk[0]) {
        assert ups == [UploadFile(client, walk[0].key, walk[0].file.content)] + rest;
        assert ups[0].key == walk[0].key;
        assert EachKeyOnce(rest);
        forall a, b | 0 <= a < b < |ups|
          ensures ups[a].key != ups[b].key
        {
          assert ups[b] == rest[b - 1];
          if a > 0 {
            assert ups[a] == rest[a - 1];
            assert rest[a - 1].key != rest[b - 1].key;
          } else {
            assert rest[b - 1] in rest;
          }
        }
      } else {
        assert ups == rest;
      }
    }
  }

  /** When every file is unchanged, nothing is expected to be uploaded. */
  lemma {:induction false} NothingChanged(client: Client, cache: Cache, hash: HashFn, walk: seq<Entry>)
    requires AllReadable(walk)
    requires forall i :: 0 <= i < |walk| ==> Unchanged(cache, hash, walk[i])
    ensures Changed(client, cache, hash, walk) == []
    decreases |walk|
  {
    if walk != [] {
      forall i | 0 <= i < |walk[1..]|
        ensures Unchanged(cache, hash, walk[1..][i])
      {
        assert walk[1..][i] == walk[i + 1];
      }
      NothingChanged(client, cache, hash, walk[1..]);
    }
  }

  /** When only file `j` changed, exactly its upload is expected. */
  lemma {:induction false} OnlyOneChanged(client: Client, cache: Cache, hash: HashFn, walk: seq<Entry>, j: nat)
    requires AllReadable(walk) && j < |walk|
    requires !Unchanged(cache, hash, walk[j])
    requires forall i :: 0 <= i < |walk| && i != j ==> Unchanged(cache, hash, walk[i])
    ensures Changed(client, cache, hash, walk) == [UploadFile(client, walk[j].key, walk[j].file.content)]
    decreases |walk|
  {
    forall i | 0 <= i < |walk[1..]| && i + 1 != j
      ensures Unchanged(cache, hash, walk[1..][i])
    {
      assert walk[1..][i] == walk[i + 1];
    }
    if j == 0 {
      NothingChanged(client, cache, hash, walk[1..]);
    } else {
      assert walk[1..][j - 1] == walk[j];
      OnlyOneChanged(client, cache, hash, walk[1..], j - 1);
    }
  }

  /** Against an empty cache every file is expected to be uploaded, in walk order. */
  lemma {:induction false} AllChanged(client: Client, hash: HashFn, walk: seq<Entry>)
    requires AllReadable(walk)
    ensures var ups := Changed(client, map[], hash, walk);
      |ups| == |walk| && forall i :: 0 <= i < |walk| ==> ups[i] == UploadFile(client, walk[i].key, walk[i].file.content)
    decreases |walk|
  {
    if walk != [] {
      AllChanged(client, hash, walk[1..]);
      var ups := Changed(client, map[], hash, walk);
      forall i | 0 <= i < |walk|
        ensures ups[i] == UploadFile(client, walk[i].key, walk[i].file.content)
      {
        if i > 0 {
          assert walk[1..][i - 1] == walk[i];
        }
      }
    }
  }
}
