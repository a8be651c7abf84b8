/** The object store `.pyvcs/objects`: one file per object, named by the
    digest of its bytes. The model holds it as a map from digest to bytes. */
module ObjectStore {
  import opened Types

  /** Every object sits under the digest of its own bytes. */
  ghost predicate Addressed(env: Env, objects: map<Digest, Bytes>)
  {
    forall d :: d in objects ==> env.hash(objects[d]) == d
  }

  /** `write_file(os.path.join(objects_dir, calculate_hash(content)), content)`:
      the object file is (over)written with the content. */
  function Put(env: Env, objects: map<Digest, Bytes>, content: Bytes): (r: map<Digest, Bytes>)
    ensures r.Keys == objects.Keys + {env.hash(content)}
    ensures forall d :: d in objects && d != env.hash(content) ==> r[d] == objects[d]
  {
    objects[env.hash(content) := content]
  }

  /** `read_file(os.path.join(objects_dir, digest))`, which raises when the
      object file is missing. */
  function Get(objects: map<Digest, Bytes>, digest: Digest): (r: Result<Bytes>)
    ensures r.Success? <==> digest in objects
    ensures r.Success? ==> r.value == objects[digest]
    ensures r.Failure? ==> r.error == ObjectNotFound(digest)
  {
    if digest in objects then Success(objects[digest]) else Failure(ObjectNotFound(digest))
  }

  /** Reading an object back by the digest of the content just written gives
      exactly that content. */
  lemma PutThenGet(env: Env, objects: map<Digest, Bytes>, content: Bytes)
    ensures Get(Put(env, objects, content), env.hash(content)) == Success(content)
  {
  }

  /** Storing keeps every object under the digest of its own bytes. */
  lemma PutKeepsAddressed(env: Env, objects: map<Digest, Bytes>, content: Bytes)
    requires Addressed(env, objects)
    ensures Addressed(env, Put(env, objects, content))
  {
  }

  /** Writing the same content twice has the effect of writing it once. */
  lemma PutIdempotent(env: Env, objects: map<Digest, Bytes>, content: Bytes)
    ensures Put(env, Put(env, objects, content), content) == Put(env, objects, content)
  {
  }

  /** With a collision-free hash, a write never changes an object already in
      the store: the one it may overwrite already holds the same bytes. */
  lemma PutKeepsObjects(env: Env, objects: map<Digest, Bytes>, content: Bytes)
    requires CollisionFree(env) && Addressed(env, objects)
    ensures forall d :: d in objects ==> d in Put(env, objects, content) && Put(env, objects, content)[d] == objects[d]
  {
  }
}
