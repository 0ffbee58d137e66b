/** `upload_folder_to_spaces`: the sync engine with a DigitalOcean Spaces client, whose every
    upload asks for a public-read ACL. */
module Spaces {
  import opened Hasher
  import opened CacheStore
  import opened Storage
  import opened Sync
  import opened SyncProperties
  import opened RunProperties

  function UploadFolderToSpaces(bucket: string, accepts: PutRequest -> bool, stored: CacheFile,
                                hash: HashFn, walk: seq<Entry>): (r: Report)
    ensures forall u :: u in Uploaded(r.run) ==>
      u.bucket == bucket && u.extraArgs == map[AclArg := PublicReadAcl] && u.key in Keys(walk)
    ensures r.run.Failure? ==> r.stored == stored
    ensures r.run.Success? ==> LoadCache(r.stored).Keys == Keys(walk)
    ensures r.run.Success? && DistinctKeys(walk) ==> forall u :: u in Uploaded(r.run) ==>
      u.key in LoadCache(r.stored) && LoadCache(r.stored)[u.key] == hash(u.body)
  {
    var client := SpacesClient(bucket, accepts);
    UploadsFromWalk(client, LoadCache(stored), hash, walk);
    var r := UploadFolder(client, stored, hash, walk);
    assert forall u :: FromWalk(client, walk, u) ==> u.key in Keys(walk);
    if r.run.Success? then
      CacheKeysAreWalkKeys(client, LoadCache(stored), hash, walk, r.run.value);
      if DistinctKeys(walk) then
        UploadsMatchSavedCache(client, stored, hash, walk);
        r
      else r
    else r
  }
}
