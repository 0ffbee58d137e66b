/**
 The persisted cache: a JSON file mapping each relative key to the hex digest of the content
 uploaded (or found unchanged) under that key in the last completed run. JSON encoding is not
 modelled; the file is either absent or holds a map.
 */
module CacheStore {
  import opened Wrappers
  import opened Hasher

  /** A file's path relative to the synchronised folder: the remote object name and cache key. */
  type Key = string

  type Cache = map<Key, Digest>

  /** The cache file on disk. */
  datatype CacheFile = Absent | Present(contents: Cache)

  /** Python's `cache.get(key)`. */
  function Get(cache: Cache, key: Key): Option<Digest>
  {
    if key in cache then Some(cache[key]) else None
  }

  /** `load_cache`: the stored map, or an empty map on a first run when no file exists. */
  function LoadCache(file: CacheFile): (cache: Cache)
    ensures file.Absent? ==> cache == map[]
  {
    match file
    case Absent => map[]
    case Present(contents) => contents
  }

  /** `save_cache`: the file is overwritten with the whole map, so loading it gives the map back. */
  function SaveCache(cache: Cache): (file: CacheFile)
    ensures file.Present?
    ensures LoadCache(file) == cache
  {
    Present(cache)
  }
}
