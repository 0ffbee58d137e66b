# Incremental folder sync to S3-compatible storage — Dafny model

The repository publishes a static folder to object storage with two near-identical scripts,
`upload_digitalocean_spaces.py` (DigitalOcean Spaces) and `upload_r2.py` (Cloudflare R2). Each run
loads a JSON cache mapping relative key to SHA-256 hex digest (an empty map when the file is
absent), walks the folder, hashes every file in 8192-byte chunks, skips a file when the cache
already maps its key to that digest, uploads it otherwise, records every walked key with its
digest in a fresh `updated_cache`, and finally overwrites the cache file with that map.

This project models that run as one generic engine parameterised by a client whose only
script-specific part is whether uploads carry `ExtraArgs={'ACL': 'public-read'}`:

- `hasher.dfy` (module `Hasher`): `sha256sum`'s chunked read loop. SHA-256 itself is a
  parameter `hash: seq<byte> -> Digest`; the streaming hash object is modelled by the bytes it
  has absorbed.
- `cache_store.dfy` (module `CacheStore`): `load_cache` / `save_cache` over a cache file that is
  either absent or holds a map.
- `storage.dfy` (module `Storage`): the `upload_file` call as a `PutRequest`, and the two clients.
  What the service answers is a parameter `accepts`.
- `sync.dfy` (module `Sync`): the loop body `Step`, the loop `Process` (a left fold over the walk),
  and the whole run `UploadFolder`, which saves the cache only when the loop finished.
- `sync_properties.dfy` (module `SyncProperties`): reference definitions that do not share the
  engine's shape. `Changed` is the plain filter of changed files, and `Clear` is the per-file
  condition for a run to complete.
- `run_properties.dfy` (module `RunProperties`): the theorems about runs.
- `spaces.dfy`, `r2.dfy`: the two scripts' entry functions.

Neither script catches exceptions, so:

- An unreadable file or a failed upload ends the whole run. Later files are never processed.
- `save_cache` is never reached after such a failure, so the cache file keeps its previous
  contents. A failed upload is therefore never recorded as up to date.
- A malformed cache file makes `json.load` raise before any upload, which ends the run. JSON is
  not modelled; see below.

## Model

| member | source | states |
|---|---|---|
| Hasher.Read | upload_r2.py:20 | one `f.read(8192)` returns the next 8192 bytes of the file, or all remaining bytes when fewer are left, and so an empty chunk exactly at end of file |
| Hasher.Chunks | upload_r2.py:19-21 | the chunks the read loop consumes before the empty read are non-empty, at most 8192 bytes, all but the last full, and they concatenate to the whole content |
| Hasher.UpdateAll | upload_r2.py:18-21 | feeding the chunks to the streaming hash one `update` at a time leaves it having absorbed exactly their concatenation |
| Hasher.Sha256Sum | upload_r2.py:17-22 | the returned digest is the hash of the file's full content, so it depends on the bytes alone, not on the path or the chunking |
| CacheStore.LoadCache | upload_digitalocean_spaces.py:25-26 | with no cache file the loaded cache is the empty map |
| CacheStore.SaveCache | upload_digitalocean_spaces.py:29-31 | saving overwrites the file with the whole map, and loading it back gives exactly that map |
| Storage.UploadFile | upload_digitalocean_spaces.py:59-60 | an upload goes to the client's bucket under the given key with the file's bytes; it carries the ACL argument exactly for the public-read client, set to `public-read`, and otherwise no extra arguments |
| Sync.Step | upload_digitalocean_spaces.py:49-61 | the loop body for one file: on success the file was readable, its key is recorded with its current digest, and at most its own upload was added; on failure the abort names the file and keeps the uploads done so far. `RunProperties.StepSpec` characterises it exactly |
| Sync.Process | upload_digitalocean_spaces.py:47-61 | the loop over the walk: a completed run made at most one upload per walked file, and an aborted one fewer than the walk's length. `RunProperties.CompletesIff` and `RunProperties.UploadsAreChanged` characterise it exactly |
| Sync.UploadFolder | upload_digitalocean_spaces.py:34-63 | an aborted run leaves the cache file exactly as it was; a completed run leaves a cache file that loads as the run's new cache |
| RunProperties.StepSpec | upload_digitalocean_spaces.py:49-61 | one file's processing succeeds exactly when the file is readable and is either unchanged or accepted by the service; it then records the file's digest and adds its upload exactly when the cache lacks that digest; a failure names the file and the cause |
| RunProperties.CompletesIff | upload_digitalocean_spaces.py:47-61 | a run completes if and only if every walked file is readable and is either unchanged or has its upload accepted |
| RunProperties.UploadsAreChanged | upload_digitalocean_spaces.py:53-61 | a completed run read every file, and its uploads are exactly the reference filter of files whose cached digest is absent or different, in walk order |
| RunProperties.CacheKeysAreWalkKeys | upload_digitalocean_spaces.py:36-61 | the new cache's keys are exactly the walked keys; keys of the old cache that were not walked are dropped |
| RunProperties.CacheRecordsDigests | upload_digitalocean_spaces.py:53-61 | every walked key ends up in the new cache mapped to its file's current digest, whether the file was skipped or uploaded |
| RunProperties.SkipIffCached | upload_digitalocean_spaces.py:53-60 | a file is uploaded if and only if the old cache does not map its key to its current digest, and no key is uploaded twice |
| RunProperties.FirstRunUploadsAll | upload_r2.py:26-60 | with no cache file, a completed run uploads every walked file, one upload per file, in walk order |
| RunProperties.Idempotent | upload_r2.py:53-62 | running again over unchanged files with the saved cache uploads nothing, completes whatever the service would answer, and saves the same cache |
| RunProperties.ChangeDetection | upload_digitalocean_spaces.py:53-63 | after rewriting one file with content of a different digest, the next run uploads exactly that file and only its cache entry changes |
| RunProperties.AbortIsFirstFailure | upload_digitalocean_spaces.py:47-63 | an aborted run stopped at the first file that is unreadable or whose upload was rejected; the cause and key name that file, and the uploads that went through are exactly those of the earlier changed files |
| RunProperties.UploadsFromWalk | upload_digitalocean_spaces.py:49-60 | every upload of a run, completed or aborted, sends one walked file's bytes under that file's own relative key |
| RunProperties.UploadsMatchSavedCache | upload_r2.py:58-62 | after a completed run, each uploaded object's name is a key of the saved cache, mapped to the digest of exactly the bytes uploaded |
| Spaces.UploadFolderToSpaces | upload_digitalocean_spaces.py:34-63 | every upload of the Spaces script goes to its bucket with the `public-read` ACL under a walked key; failure keeps the cache file; success saves a cache whose keys are the walked keys, matching each upload's digest |
| R2.UploadFolderToR2 | upload_r2.py:34-62 | every upload of the R2 script goes to its bucket with no extra arguments under a walked key; failure keeps the cache file; success saves a cache whose keys are the walked keys, matching each upload's digest |

## Left out

- Client construction (`boto3` session, endpoint, credentials, region `us-east-1` / `auto`,
  `s3v4` signatures, lines 38-45 of both scripts) is foreign network code. A client is its bucket,
  its ACL choice and an `accepts` answer per request.
- Environment loading (`load_dotenv`, `os.getenv`, lines 8-13) is process configuration. The
  bucket name is a parameter.
- `os.walk` and `os.path.relpath` are platform behaviour. The walk is an input sequence of
  entries with their relative keys, in whatever order the platform yields them.
- SHA-256 itself is a cryptographic primitive. It is the uninterpreted parameter `hash`.
- JSON encoding in `load_cache` / `save_cache` is library I/O, and so is `json.load` raising on
  a malformed file. The cache file is either absent or holds a `map<string, string>`.
- A failing `save_cache` write, which could leave a truncated file, is not modelled: saving
  always succeeds.
- Read errors are not located: an `open` failure and a failure partway through the read loop
  are both `Unreadable`. The upload is assumed to send the same bytes that were hashed, so a
  file modified concurrently is not modelled.
- The service's answer is a function of the request. Transient failures that differ between
  two identical requests are not modelled.
- `print` progress messages and the `__main__` entry points have no logic.
- RunProperties.CacheRecordsDigests: requires distinct keys, which `os.walk` guarantees. With a
  repeated key, the digest of its last occurrence wins, and that case is not stated.
- RunProperties.SkipIffCached: requires distinct keys, as above.
- RunProperties.Idempotent: requires distinct keys, as above.
- RunProperties.ChangeDetection: requires distinct keys, as above.
- RunProperties.UploadsMatchSavedCache: requires distinct keys, as above.
- Sync.Process: its own contract states only upload-count bounds. Which files are uploaded,
  and when the run completes, is stated by `RunProperties.UploadsAreChanged` and
  `RunProperties.CompletesIff`. Keeping the recursive function's contract small keeps the proofs
  that unfold it cheap.
