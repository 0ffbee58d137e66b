/**
 The object-storage client, seen only through `upload_file(local_path, bucket, key, ExtraArgs)`.
 How the client is built (endpoint, credentials, region, signature version) is not modelled; what
 the service answers is the parameter `accepts`, true when the upload succeeds.
 */
module Storage {
  import opened Hasher
  import opened CacheStore

  /** The object-ACL argument and the one value the scripts give it. */
  const AclArg: string := "ACL"
  const PublicReadAcl: string := "public-read"

  /** One `upload_file` call: target bucket, remote object name, bytes sent, extra arguments. */
  datatype PutRequest = PutRequest(bucket: string, key: Key, body: seq<byte>, extraArgs: map<string, string>)

  /** A configured client: its bucket, whether its script asks for a public-read ACL, and
      the service's answer to each upload. */
  datatype Client = Client(bucket: string, publicRead: bool, accepts: PutRequest -> bool)

  /** The client of the DigitalOcean Spaces script: every object is made public-read. */
  function SpacesClient(bucket: string, accepts: PutRequest -> bool): Client
  {
    Client(bucket, true, accepts)
  }

  /** The client of the Cloudflare R2 script: no extra arguments at all. */
  function R2Client(bucket: string, accepts: PutRequest -> bool): Client
  {
    Client(bucket, false, accepts)
  }

  /** The upload of `body` under remote name `key` into the client's bucket. */
  function UploadFile(client: Client, key: Key, body: seq<byte>): (req: PutRequest)
    ensures req.key == key && req.body == body && req.bucket == client.bucket
    ensures AclArg in req.extraArgs <==> client.publicRead
    ensures client.publicRead ==> req.extraArgs == map[AclArg := PublicReadAcl]
    ensures !client.publicRead ==> req.extraArgs == map[]
  {
    var extraArgs := if client.publicRead then map[AclArg := PublicReadAcl] else map[];
    PutRequest(client.bucket, key, body, extraArgs)
  }
}
