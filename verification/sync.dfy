/**
 The incremental sync engine shared by `upload_folder_to_spaces` and `upload_folder_to_r2`.

 The walk is given as the sequence of files `os.walk` yields, each with its relative key and the
 result of reading it. The run is a single left-to-right pass: hash the file, skip it when the
 loaded cache already maps its key to that digest, otherwise upload it; either way record the
 key and digest in a fresh cache. Neither script catches exceptions, so an unreadable file or a
 failed upload ends the run before `save_cache` is reached.
 */
module Sync {
  import opened Wrappers
  import opened Hasher
  import opened CacheStore
  import opened Storage

  /** Reading a file: its bytes, or an I/O error from `open` or `read`. */
  datatype FileRead = Readable(content: seq<byte>) | Unreadable

  /** One file of the walk: its key relative to the folder and what reading it gives. */
  datatype Entry = Entry(key: Key, file: FileRead)

  /** The loop's state: `updated_cache` so far and the uploads the service accepted so far. */
  datatype State = State(updated: Cache, uploads: seq<PutRequest>)

  datatype Cause = ReadFailed | UploadRejected

  /** Why and where the run stopped, with the uploads that had already gone through. */
  datatype Abort = Abort(cause: Cause, key: Key, uploaded: seq<PutRequest>)

  /** The cache file after the run, and how the run ended. */
  datatype Report = Report(stored: CacheFile, run: Result<State, Abort>)

  /** The loop body for one file, comparing against the loaded `cache`. */
  function Step(client: Client, cache: Cache, hash: HashFn, s: State, e: Entry): (r: Result<State, Abort>)
    ensures r.Success? ==>
      (e.file.Readable? && e.key in r.value.updated && r.value.updated[e.key] == hash(e.file.content))
    ensures r.Success? ==>
      (r.value.uploads == s.uploads || r.value.uploads == s.uploads + [UploadFile(client, e.key, e.file.content)])
    ensures r.Failure? ==> r.error.key == e.key && r.error.uploaded == s.uploads
  {
    match e.file
    case Unreadable => Failure(Abort(ReadFailed, e.key, s.uploads))
    case Readable(content) =>
      var d := Sha256Sum(hash, content);
      if Get(cache, e.key) == Some(d) then
        Success(State(s.updated[e.key := d], s.uploads))
      else
        var req := UploadFile(client, e.key, content);
        if client.accepts(req) then Success(State(s.updated[e.key := d], s.uploads + [req]))
        else Failure(Abort(UploadRejected, e.key, s.uploads))
  }

  /** The loop over the whole walk: the state after the last file, or the first abort. */
  function Process(client: Client, cache: Cache, hash: HashFn, walk: seq<Entry>): (r: Result<State, Abort>)
    ensures r.Success? ==> |r.value.uploads| <= |walk|
    ensures r.Failure? ==> |r.error.uploaded| < |walk|
    decreases |walk|
  {
    if walk == [] then Success(State(map[], []))
    else
      match Process(client, cache, hash, walk[..|walk| - 1])
      case Failure(a) => Failure(a)
      case Success(s) => Step(client, cache, hash, s, walk[|walk| - 1])
  }

  /** The uploads the service accepted during a run, whether it completed or not. */
  function Uploaded(run: Result<State, Abort>): seq<PutRequest>
  {
    match run
    case Success(s) => s.uploads
    case Failure(a) => a.uploaded
  }

  /** A whole run: load the cache, process the walk, and save the new cache only if the loop
      finished. An aborted run leaves the cache file exactly as it was. */
  function UploadFolder(client: Client, stored: CacheFile, hash: HashFn, walk: seq<Entry>): (r: Report)
    ensures r.run.Failure? ==> r.stored == stored
    ensures r.run.Success? ==> r.stored.Present? && LoadCache(r.stored) == r.run.value.updated
    ensures r.run == Process(client, LoadCache(stored), hash, walk)
  {
    var run := Process(client, LoadCache(stored), hash, walk);
    match run
    case Success(s) => Report(SaveCache(s.updated), run)
    case Failure(_) => Report(stored, run)
  }
}
