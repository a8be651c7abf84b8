/** Values shared by every part of the PyVCS model: bytes, paths, digests,
    the commit record, the error taxonomy and the environment the core runs in. */
module Types {

  newtype byte = x: int | 0 <= x < 256

  /** File content and stored objects are raw bytes. */
  type Bytes = seq<byte>

  /** File-system paths and hex digests are strings. */
  type Path = string
  type Digest = string

  datatype Option<+T> = None | Some(value: T)

  datatype Result<+T> = Success(value: T) | Failure(error: Error)

  /** The ways an operation of the core fails. In the source each of these is
      an exception raised by `open` or `json.loads`. */
  datatype Error =
    | FileNotFound(path: Path)          // a working-tree file that does not exist
    | NoRepository                      // an object write before `.pyvcs/objects` exists
    | ObjectNotFound(digest: Digest)    // a digest whose object file is missing
    | MalformedCommit(digest: Digest)   // the HEAD object is not a commit record

  /** The commit record `{message, timestamp, files}` built by `commit`;
      `files` maps a root-relative path to the digest of its content. */
  datatype CommitRecord = CommitRecord(message: string, timestamp: string, files: map<Path, Digest>)

  /** What the core reads from outside itself: the repository root (already made
      absolute), SHA-256 as an arbitrary function from bytes to hex digests, and
      the JSON encoder/decoder of commit records. */
  datatype Env = Env(
    root: Path,
    hash: Bytes -> Digest,
    serialize: CommitRecord -> Bytes,
    parse: Bytes -> Option<CommitRecord>)

  /** The content-addressing assumption: different bytes never share a digest.
      Only the lemmas that need it carry it as a hypothesis. */
  ghost predicate CollisionFree(env: Env)
  {
    forall a: Bytes, b: Bytes :: env.hash(a) == env.hash(b) ==> a == b
  }

  /** Decoding an encoded commit record gives the record back. */
  ghost predicate RoundTrip(env: Env)
  {
    forall c: CommitRecord :: env.parse(env.serialize(c)) == Some(c)
  }
}
