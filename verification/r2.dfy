/** `upload_folder_to_r2`: the sync engine with a Cloudflare R2 client, whose uploads carry no
    extra arguments, so objects keep the bucket's default (private) access. */
module R2 {
  import opened Hasher
  import opened CacheStore
  import opened Storage
  import opened Sync
  import opened SyncProperties
  import opened RunProperties

  function UploadFolderToR2(bucket: string, accepts: PutRequest -> bool, stored: CacheFile,
                            hash: HashFn, walk: seq<Entry>): (r: Report)
    ensures forall u :: u in Uploaded(r.run) ==>
      u.bucket == bucket && u.extraArgs == map[] && u.key in Keys(walk)
    ensures r.run.Failure? ==> r.stored == stored
    ensures r.run.Success? ==> LoadCache(r.stored).Keys == Keys(walk)
    ensures r.run.Success? && DistinctKeys(walk) ==> forall u :: u in Uploaded(r.run) ==>
      u.key in LoadCache(r.stored) && LoadCache(r.stored)[u.key] == hash(u.body)
  {
    var client := R2Client(bucket, accepts);
    UploadsFromWalk(client, LoadCache(stored), hash, walk);
    var r := UploadFolder(client, stored, hash, walk);
    assert forall u :: FromWalk(client, walk, u) ==> u.key in Keys(walk);
    if r.run.Success? then
      CacheKeysAreWalkKeys(client, LoadCache(stored), hash, walk, r.run.value);
      if DistinctKeys(walk) then
        UploadsMatchSavedCache(client, stored, hash, walk);
        r
      else r
    else r
  }
}
