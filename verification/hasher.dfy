/**
 The `sha256sum` helper: the file is read in chunks of at most `ChunkSize` bytes until a read
 returns nothing, every chunk is fed to a streaming SHA-256 object, and the hex digest is returned.

 SHA-256 itself (FIPS 180-4) is not modelled: it is the parameter `hash`, an arbitrary function
 from the complete byte content to its hex digest. The streaming hash object is modelled by the
 bytes it has absorbed so far, which is exactly what a streaming hash's final digest depends on.
 */
module Hasher {

  newtype byte = x: int | 0 <= x < 256

  /** A hex digest string. */
  type Digest = string

  /** A one-shot hash of a complete byte string. */
  type HashFn = seq<byte> -> Digest

  /** The size passed to every `f.read` call. */
  const ChunkSize: nat := 8192

  /** One `f.read(ChunkSize)` on a regular file whose read position is `pos`: the next
      `ChunkSize` bytes, or all remaining bytes when fewer are left, so nothing only at end of file. */
  function Read(content: seq<byte>, pos: nat): (chunk: seq<byte>)
    requires pos <= |content|
    ensures pos + |chunk| <= |content|
    ensures chunk == content[pos..pos + |chunk|]
    ensures |chunk| <= ChunkSize
    ensures chunk == [] <==> pos == |content|
    ensures |chunk| == if |content| - pos < ChunkSize then |content| - pos else ChunkSize
  {
    if |content| - pos <= ChunkSize then content[pos..] else content[pos..pos + ChunkSize]
  }

  /** The bytes of a list of chunks laid end to end. */
  function Concat(chunks: seq<seq<byte>>): seq<byte>
  {
    if chunks == [] then [] else chunks[0] + Concat(chunks[1..])
  }

  /** The non-empty chunks the `while chunk := f.read(ChunkSize)` loop consumes, starting at
      read position `pos`, before the empty read that ends it. */
  function Chunks(content: seq<byte>, pos: nat): (chunks: seq<seq<byte>>)
    requires pos <= |content|
    ensures Concat(chunks) == content[pos..]
    ensures forall i :: 0 <= i < |chunks| ==> 0 < |chunks[i]| <= ChunkSize
    ensures forall i :: 0 <= i < |chunks| - 1 ==> |chunks[i]| == ChunkSize
    decreases |content| - pos
  {
    var chunk := Read(content, pos);
    if chunk == [] then []
    else
      var rest := Chunks(content, pos + |chunk|);
      assert content[pos..] == chunk + content[pos + |chunk|..];
      assert rest != [] ==> pos + |chunk| < |content| && |chunk| == ChunkSize;
      [chunk] + rest
  }

  /** The streaming hash object after `h.update(c)` for each chunk `c` in order,
      starting from one that has absorbed `absorbed`. */
  function UpdateAll(absorbed: seq<byte>, chunks: seq<seq<byte>>): (state: seq<byte>)
    ensures state == absorbed + Concat(chunks)
    decreases |chunks|
  {
    if chunks == [] then absorbed
    else
      assert absorbed + chunks[0] + Concat(chunks[1..]) == absorbed + Concat(chunks);
      UpdateAll(absorbed + chunks[0], chunks[1..])
  }

  /** `sha256sum`: the digest of the chunked stream is the digest of the whole content, so it
      depends on the file's bytes alone and not on its path or on how the reads were split. */
  function Sha256Sum(hash: HashFn, content: seq<byte>): (d: Digest)
    ensures d == hash(content)
  {
    var absorbed := UpdateAll([], Chunks(content, 0));
    assert absorbed == [] + content[0..];
    assert [] + content[0..] == content;
    hash(absorbed)
  }
}
