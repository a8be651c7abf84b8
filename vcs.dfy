/** The operations of `VersionControl` as functions from one repository state
    to the next. The class in module Repository runs them in place; the lemmas
    here say what they promise. */
module Vcs {
  import opened Types
  import opened Paths
  import opened ObjectStore

  /** What is on disk: whether `.pyvcs` exists, the working-tree files by the
      path `os.walk` yields for them, the objects by digest, and the digest in
      `.pyvcs/refs/HEAD` if that file exists. */
  datatype State = State(
    initialized: bool,
    tree: map<Path, Bytes>,
    objects: map<Digest, Bytes>,
    head: Option<Digest>)

  /** The result of an operation together with the state it leaves behind. */
  datatype Step<+T> = Step(result: Result<T>, next: State)

  /** The pair `init` returns, and the state after it. */
  datatype InitReport = InitReport(created: bool, message: string, next: State)

  /** The four outcomes of `diff`. */
  datatype DiffResult =
    | NoPreviousCommit
    | NotInCommit
    | NoChanges
    | Changes(previous: Digest, current: Digest)

  /** Every working-tree file lies below the root and outside `.pyvcs`. */
  predicate TreeUnderRoot(root: Path, tree: map<Path, Bytes>)
  {
    forall p :: p in tree ==> Under(root, p) && !InStoreDir(root, p)
  }

  /** Every path of the walk is a working-tree file. */
  predicate WalkInTree(walk: seq<Path>, tree: map<Path, Bytes>)
  {
    forall p :: p in walk ==> p in tree
  }

  /** `list_files(root)` yields exactly the working-tree files, in some order. */
  predicate IsListing(walk: seq<Path>, tree: map<Path, Bytes>)
  {
    WalkInTree(walk, tree) && forall p :: p in tree ==> p in walk
  }

  /** The states the core can be in: nothing is stored before `init`, every
      object is stored under its own digest, and HEAD names a stored object. */
  ghost predicate WellFormed(env: Env, s: State)
  {
    && TreeUnderRoot(env.root, s.tree)
    && (!s.initialized ==> s.objects == map[] && s.head == None)
    && Addressed(env, s.objects)
    && (s.head.Some? ==> s.head.value in s.objects)
  }

  /** HEAD decodes to a commit record whose digests are all stored: what `diff`
      needs in order not to raise. */
  ghost predicate Consistent(env: Env, s: State)
  {
    s.head.Some? ==>
      && s.head.value in s.objects
      && env.parse(s.objects[s.head.value]).Some?
      && var record := env.parse(s.objects[s.head.value]).value;
         forall k :: k in record.files ==> record.files[k] in s.objects
  }

  const AlreadyInitialized := "PyVCS directory already initialized."

  /** `VersionControl.init`: create `.pyvcs` unless it exists. */
  function Init(env: Env, s: State): (r: InitReport)
    ensures r.created <==> !s.initialized
    ensures r.next.initialized
    ensures r.next.(initialized := s.initialized) == s
    ensures r.message == if r.created then "Initialized empty PyVCS repository in " + PyvcsDir(env.root)
                         else AlreadyInitialized
  {
    if s.initialized then InitReport(false, AlreadyInitialized, s)
    else InitReport(true, "Initialized empty PyVCS repository in " + PyvcsDir(env.root),
                    s.(initialized := true))
  }

  /** `VersionControl.add`: read the file, then write it into the store under
      its digest and return the digest. There is no staging index. */
  function Add(env: Env, s: State, path: Path): (r: Step<Digest>)
    ensures r.result.Success? <==> path in s.tree && s.initialized
    ensures path !in s.tree ==> r == Step(Failure(FileNotFound(path)), s)
    ensures path in s.tree && !s.initialized ==> r == Step(Failure(NoRepository), s)
    ensures r.next.(objects := s.objects) == s && s.objects.Keys <= r.next.objects.Keys
  {
    if path !in s.tree then Step(Failure(FileNotFound(path)), s)
    else if !s.initialized then Step(Failure(NoRepository), s)
    else Step(Success(env.hash(s.tree[path])), s.(objects := Put(env, s.objects, s.tree[path])))
  }

  /** The `files` mapping the commit loop builds from the first paths of the walk. */
  function Files(env: Env, tree: map<Path, Bytes>, walk: seq<Path>): (files: map<Path, Digest>)
    requires TreeUnderRoot(env.root, tree) && WalkInTree(walk, tree)
    ensures forall k :: k in files ==> Join(env.root, k) in walk && !Excluded(env.root, Join(env.root, k))
  {
    if walk == [] then map[]
    else
      var p := walk[|walk| - 1];
      var files := Files(env, tree, walk[..|walk| - 1]);
      assert WalkInTree(walk[..|walk| - 1], tree);
      if Excluded(env.root, p) then files
      else files[Relpath(env.root, p) := env.hash(tree[p])]
  }

  /** The object store after the commit loop's `add` calls for the first paths
      of the walk. */
  function StoreFiles(env: Env, objects: map<Digest, Bytes>, tree: map<Path, Bytes>, walk: seq<Path>): (stored: map<Digest, Bytes>)
    requires WalkInTree(walk, tree)
    ensures objects.Keys <= stored.Keys
    ensures forall d :: d in stored ==>
      d in objects || exists p :: p in walk && !Excluded(env.root, p) && env.hash(tree[p]) == d
  {
    if walk == [] then objects
    else
      var p := walk[|walk| - 1];
      var stored := StoreFiles(env, objects, tree, walk[..|walk| - 1]);
      assert WalkInTree(walk[..|walk| - 1], tree);
      assert forall q :: q in walk[..|walk| - 1] ==> q in walk;
      if Excluded(env.root, p) then stored else Put(env, stored, tree[p])
  }

  /** One pass of the commit loop over `walk[i]`: the `files` entry it makes. */
  lemma FilesStep(env: Env, tree: map<Path, Bytes>, walk: seq<Path>, i: nat)
    requires TreeUnderRoot(env.root, tree) && WalkInTree(walk, tree) && i < |walk|
    ensures WalkInTree(walk[..i], tree) && WalkInTree(walk[..i + 1], tree)
    ensures Files(env, tree, walk[..i + 1]) ==
      if Excluded(env.root, walk[i]) then Files(env, tree, walk[..i])
      else Files(env, tree, walk[..i])[Relpath(env.root, walk[i]) := env.hash(tree[walk[i]])]
  {
    var w := walk[..i + 1];
    assert w[..|w| - 1] == walk[..i] && w[|w| - 1] == walk[i];
    assert WalkInTree(walk[..i], tree);
    var before := Files(env, tree, walk[..i]);
    assert Files(env, tree, w) ==
      if Excluded(env.root, walk[i]) then before
      else before[Relpath(env.root, walk[i]) := env.hash(tree[walk[i]])];
  }

  /** One pass of the commit loop over `walk[i]`: the object its `add` writes. */
  lemma StoreFilesStep(env: Env, objects: map<Digest, Bytes>, tree: map<Path, Bytes>, walk: seq<Path>, i: nat)
    requires WalkInTree(walk, tree) && i < |walk|
    ensures WalkInTree(walk[..i], tree) && WalkInTree(walk[..i + 1], tree)
    ensures StoreFiles(env, objects, tree, walk[..i + 1]) ==
      if Excluded(env.root, walk[i]) then StoreFiles(env, objects, tree, walk[..i])
      else Put(env, StoreFiles(env, objects, tree, walk[..i]), tree[walk[i]])
  {
    var w := walk[..i + 1];
    assert w[..|w| - 1] == walk[..i] && w[|w| - 1] == walk[i];
  }

  /** The loop's `add` of a walked file it does not skip, on the state after
      the first `i` passes: the next store, or `NoRepository` before `init`. */
  lemma AddInLoop(env: Env, s: State, walk: seq<Path>, i: nat)
    requires WellFormed(env, s) && IsListing(walk, s.tree) && i < |walk| && !Excluded(env.root, walk[i])
    ensures WalkInTree(walk[..i], s.tree) && WalkInTree(walk[..i + 1], s.tree)
    ensures Add(env, s.(objects := StoreFiles(env, s.objects, s.tree, walk[..i])), walk[i]) ==
      if s.initialized then
        Step(Success(env.hash(s.tree[walk[i]])), s.(objects := StoreFiles(env, s.objects, s.tree, walk[..i + 1])))
      else Step(Failure(NoRepository), s.(objects := StoreFiles(env, s.objects, s.tree, walk[..i])))
  {
    StoreFilesStep(env, s.objects, s.tree, walk, i);
  }

  /** `VersionControl.commit`: add every walked file whose path does not start
      with `<root>/.pyvcs`, store the encoded record and point HEAD at it. The
      clock reading is `timestamp`. */
  function Commit(env: Env, s: State, message: string, timestamp: string, walk: seq<Path>): (r: Step<Digest>)
    requires TreeUnderRoot(env.root, s.tree) && IsListing(walk, s.tree)
    ensures r.result.Success? <==> s.initialized
    ensures !s.initialized ==> r == Step(Failure(NoRepository), s)
    ensures r.next.tree == s.tree && r.next.initialized == s.initialized
    ensures s.objects.Keys <= r.next.objects.Keys
    ensures r.result.Success? ==>
      && r.next.head == Some(r.result.value)
      && r.result.value in r.next.objects
      && env.hash(r.next.objects[r.result.value]) == r.result.value
  {
    if !s.initialized then Step(Failure(NoRepository), s)
    else
      var record := CommitRecord(message, timestamp, Files(env, s.tree, walk));
      var content := env.serialize(record);
      var objects := Put(env, StoreFiles(env, s.objects, s.tree, walk), content);
      Step(Success(env.hash(content)), s.(objects := objects, head := Some(env.hash(content))))
  }

  /** `VersionControl.diff`: compare the file's digest now with the one HEAD's
      record holds for its relative path. */
  function Diff(env: Env, s: State, path: Path): (r: Result<DiffResult>)
    requires TreeUnderRoot(env.root, s.tree)
    ensures r == Failure(FileNotFound(path)) <==> path !in s.tree
    ensures path in s.tree && s.head == None ==> r == Success(NoPreviousCommit)
    ensures r.Success? && r.value.Changes? ==>
      && r.value.current == env.hash(s.tree[path])
      && r.value.previous != r.value.current
      && r.value.previous in s.objects
  {
    if path !in s.tree then Failure(FileNotFound(path))
    else
      var current := env.hash(s.tree[path]);
      match s.head
      case None => Success(NoPreviousCommit)
      case Some(h) =>
        match Get(s.objects, h)
        case Failure(e) => Failure(e)
        case Success(content) =>
          match env.parse(content)
          case None => Failure(MalformedCommit(h))
          case Some(record) =>
            var relative := Relpath(env.root, path);
            if relative !in record.files then Success(NotInCommit)
            else
              var previous := record.files[relative];
              if current == previous then Success(NoChanges)
              else if previous !in s.objects then Failure(ObjectNotFound(previous))
              else Success(Changes(previous, current))
  }

  /** The string `diff` returns for each outcome. */
  function Render(d: DiffResult): string
  {
    match d
    case NoPreviousCommit => "No previous commit found."
    case NotInCommit => "File not found in the previous commit."
    case NoChanges => "No changes detected."
    case Changes(previous, current) =>
      "Changes detected. Previous hash: " + previous + ", Current hash: " + current
  }

  // ----- init -----

  /** A second `init` reports that nothing was created and changes nothing. */
  lemma InitTwice(env: Env, s: State)
    ensures Init(env, Init(env, s).next) == InitReport(false, AlreadyInitialized, Init(env, s).next)
  {
  }

  // ----- add -----

  /** `add` returns the digest of the file's bytes and the store then holds
      those bytes under it; only the store changes. */
  lemma AddStores(env: Env, s: State, path: Path)
    requires path in s.tree && s.initialized
    ensures Add(env, s, path).result == Success(env.hash(s.tree[path]))
    ensures Get(Add(env, s, path).next.objects, env.hash(s.tree[path])) == Success(s.tree[path])
    ensures Add(env, s, path).next.(objects := s.objects) == s
  {
  }

  /** Adding an unchanged file again returns the same digest and leaves the
      state as the first `add` left it. */
  lemma AddIdempotent(env: Env, s: State, path: Path)
    ensures Add(env, Add(env, s, path).next, path) == Add(env, s, path)
  {
  }

  // ----- the commit loop -----

  /** The committed `files` hold, for every walked path not starting with
      `<root>/.pyvcs`, its relative path mapped to the digest of its content. */
  lemma {:induction false} FilesSpec(env: Env, tree: map<Path, Bytes>, walk: seq<Path>)
    requires TreeUnderRoot(env.root, tree) && WalkInTree(walk, tree)
    ensures forall p :: p in walk && !Excluded(env.root, p) ==>
      Relpath(env.root, p) in Files(env, tree, walk) &&
      Files(env, tree, walk)[Relpath(env.root, p)] == env.hash(tree[p])
  {
    if walk != [] {
      var init, last := walk[..|walk| - 1], walk[|walk| - 1];
      assert WalkInTree(init, tree);
      FilesSpec(env, tree, init);
      forall p | p in walk && !Excluded(env.root, p)
        ensures Relpath(env.root, p) in Files(env, tree, walk)
        ensures Files(env, tree, walk)[Relpath(env.root, p)] == env.hash(tree[p])
      {
        if p != last {
          assert p in init;
          RelpathInjective(env.root, p, last);
        }
      }
    }
  }

  /** The loop's `add` calls store every walked file not starting with
      `<root>/.pyvcs`, and keep every object under its own digest. */
  lemma {:induction false} StoreFilesSpec(env: Env, objects: map<Digest, Bytes>, tree: map<Path, Bytes>, walk: seq<Path>)
    requires WalkInTree(walk, tree)
    ensures forall p :: p in walk && !Excluded(env.root, p) ==>
      env.hash(tree[p]) in StoreFiles(env, objects, tree, walk)
    ensures Addressed(env, objects) ==> Addressed(env, StoreFiles(env, objects, tree, walk))
  {
    if walk != [] {
      var init, last := walk[..|walk| - 1], walk[|walk| - 1];
      assert WalkInTree(init, tree);
      StoreFilesSpec(env, objects, tree, init);
      if Addressed(env, objects) && !Excluded(env.root, last) {
        PutKeepsAddressed(env, StoreFiles(env, objects, tree, init), tree[last]);
      }
    }
  }

  /** With a collision-free hash the loop changes no object already stored. */
  lemma {:induction false} StoreFilesKeepsObjects(env: Env, objects: map<Digest, Bytes>, tree: map<Path, Bytes>, walk: seq<Path>)
    requires WalkInTree(walk, tree)
    requires CollisionFree(env) && Addressed(env, objects)
    ensures forall d :: d in objects ==>
      d in StoreFiles(env, objects, tree, walk) && StoreFiles(env, objects, tree, walk)[d] == objects[d]
  {
    if walk != [] {
      var init, last := walk[..|walk| - 1], walk[|walk| - 1];
      assert WalkInTree(init, tree);
      StoreFilesKeepsObjects(env, objects, tree, init);
      StoreFilesSpec(env, objects, tree, init);
      if !Excluded(env.root, last) {
        PutKeepsObjects(env, StoreFiles(env, objects, tree, init), tree[last]);
      }
    }
  }

  // ----- commit -----

  /** After `commit`, HEAD holds the returned digest; the object under it is
      the encoded record, stored under its own digest; the record carries the
      message and timestamp, and its `files` have a key for exactly the
      working-tree paths not starting with `<root>/.pyvcs`, each mapped to the digest of the
      file's content, which is in the store. The working tree is untouched. */
  lemma CommitRecordsTree(env: Env, s: State, message: string, timestamp: string, walk: seq<Path>)
    requires WellFormed(env, s) && IsListing(walk, s.tree) && s.initialized
    ensures var step := Commit(env, s, message, timestamp, walk);
      && step.result.Success?
      && step.next.head == Some(step.result.value)
      && step.next.tree == s.tree && step.next.initialized
      && step.result.value in step.next.objects
      && env.hash(step.next.objects[step.result.value]) == step.result.value
      && var record := CommitRecord(message, timestamp, Files(env, s.tree, walk));
         && step.next.objects[step.result.value] == env.serialize(record)
         && (forall p :: p in s.tree ==> (Relpath(env.root, p) in record.files <==> !Excluded(env.root, p)))
         && (forall p :: p in s.tree && !Excluded(env.root, p) ==>
               record.files[Relpath(env.root, p)] == env.hash(s.tree[p]) &&
               record.files[Relpath(env.root, p)] in step.next.objects)
         && (forall k :: k in record.files ==> Join(env.root, k) in s.tree)
  {
    FilesSpec(env, s.tree, walk);
    StoreFilesSpec(env, s.objects, s.tree, walk);
    var files := Files(env, s.tree, walk);
    forall p | p in s.tree
      ensures Relpath(env.root, p) in files <==> !Excluded(env.root, p)
    {
      if Relpath(env.root, p) in files {
        assert Join(env.root, Relpath(env.root, p)) == p;
      }
    }
  }

  /** With a collision-free hash, every digest the commit records resolves in
      the store to the committed file's bytes, and no object stored before the
      commit changes. */
  lemma CommitStoresContent(env: Env, s: State, message: string, timestamp: string, walk: seq<Path>)
    requires WellFormed(env, s) && IsListing(walk, s.tree) && s.initialized && CollisionFree(env)
    ensures var step := Commit(env, s, message, timestamp, walk);
      && (forall p :: p in s.tree && !Excluded(env.root, p) ==>
            env.hash(s.tree[p]) in step.next.objects && step.next.objects[env.hash(s.tree[p])] == s.tree[p])
      && (forall d :: d in s.objects ==> d in step.next.objects && step.next.objects[d] == s.objects[d])
  {
    var record := CommitRecord(message, timestamp, Files(env, s.tree, walk));
    var stored := StoreFiles(env, s.objects, s.tree, walk);
    StoreFilesSpec(env, s.objects, s.tree, walk);
    StoreFilesKeepsObjects(env, s.objects, s.tree, walk);
    PutKeepsObjects(env, stored, env.serialize(record));
    var objects := Put(env, stored, env.serialize(record));
    forall p | p in s.tree && !Excluded(env.root, p)
      ensures env.hash(s.tree[p]) in objects && objects[env.hash(s.tree[p])] == s.tree[p]
    {
      var h := env.hash(s.tree[p]);
      assert env.hash(stored[h]) == h;
    }
  }

  // ----- diff -----

  /** `commit` followed at once by `diff` of a committed file reports no changes. */
  lemma CommitThenDiffUnchanged(env: Env, s: State, message: string, timestamp: string, walk: seq<Path>, path: Path)
    requires WellFormed(env, s) && IsListing(walk, s.tree) && s.initialized && RoundTrip(env)
    requires path in s.tree && !Excluded(env.root, path)
    ensures Diff(env, Commit(env, s, message, timestamp, walk).next, path) == Success(NoChanges)
  {
    CommitRecordsTree(env, s, message, timestamp, walk);
  }

  /** After `commit`, a file whose new bytes have another digest is reported
      changed, with the committed digest first and the current one second. */
  lemma CommitEditDiffChanged(env: Env, s: State, message: string, timestamp: string, walk: seq<Path>,
                              path: Path, content: Bytes)
    requires WellFormed(env, s) && IsListing(walk, s.tree) && s.initialized && RoundTrip(env)
    requires path in s.tree && !Excluded(env.root, path)
    requires env.hash(content) != env.hash(s.tree[path])
    ensures var after := Commit(env, s, message, timestamp, walk).next;
      Diff(env, after.(tree := after.tree[path := content]), path)
        == Success(Changes(env.hash(s.tree[path]), env.hash(content)))
  {
    CommitRecordsTree(env, s, message, timestamp, walk);
  }

  /** After `commit`, a file the commit did not record (one created since, or
      one under a path starting with `.pyvcs`) is reported as not in the commit. */
  lemma CommitThenDiffUnknown(env: Env, s: State, message: string, timestamp: string, walk: seq<Path>,
                              path: Path, content: Bytes)
    requires WellFormed(env, s) && IsListing(walk, s.tree) && s.initialized && RoundTrip(env)
    requires Under(env.root, path) && !InStoreDir(env.root, path)
    requires path !in s.tree || Excluded(env.root, path)
    ensures var after := Commit(env, s, message, timestamp, walk).next;
      Diff(env, after.(tree := after.tree[path := content]), path) == Success(NotInCommit)
  {
    CommitRecordsTree(env, s, message, timestamp, walk);
  }

  /** On a consistent state `diff` of an existing file never fails. */
  lemma DiffSucceeds(env: Env, s: State, path: Path)
    requires WellFormed(env, s) && Consistent(env, s) && path in s.tree
    ensures Diff(env, s, path).Success?
  {
  }

  /** Once HEAD decodes to `record`, `diff` reports a file whose relative
      path the record lacks as not in the commit; otherwise it reports no
      changes exactly when the record holds the file's current digest, and
      else the recorded and current digests, or fails reading the recorded
      object when it is not stored. */
  lemma DiffCompares(env: Env, s: State, path: Path, record: CommitRecord)
    requires WellFormed(env, s) && path in s.tree
    requires s.head.Some? && env.parse(s.objects[s.head.value]) == Some(record)
    ensures Relpath(env.root, path) !in record.files ==> Diff(env, s, path) == Success(NotInCommit)
    ensures Relpath(env.root, path) in record.files ==>
      var recorded := record.files[Relpath(env.root, path)];
      && (Diff(env, s, path) == Success(NoChanges) <==> recorded == env.hash(s.tree[path]))
      && (recorded != env.hash(s.tree[path]) ==>
            Diff(env, s, path) ==
              if recorded in s.objects then Success(Changes(recorded, env.hash(s.tree[path])))
              else Failure(ObjectNotFound(recorded)))
  {
  }

  // ----- invariants over every operation -----

  /** `init`, `add` and `commit` keep the state well formed. */
  lemma StepsKeepWellFormed(env: Env, s: State, path: Path, message: string, timestamp: string, walk: seq<Path>)
    requires WellFormed(env, s) && IsListing(walk, s.tree)
    ensures WellFormed(env, Init(env, s).next)
    ensures WellFormed(env, Add(env, s, path).next)
    ensures WellFormed(env, Commit(env, s, message, timestamp, walk).next)
  {
    if path in s.tree && s.initialized {
      PutKeepsAddressed(env, s.objects, s.tree[path]);
    }
    if s.initialized {
      var record := CommitRecord(message, timestamp, Files(env, s.tree, walk));
      StoreFilesSpec(env, s.objects, s.tree, walk);
      PutKeepsAddressed(env, StoreFiles(env, s.objects, s.tree, walk), env.serialize(record));
    }
  }

  /** No operation removes a stored object. */
  lemma StoreOnlyGrows(env: Env, s: State, path: Path, message: string, timestamp: string, walk: seq<Path>)
    requires WellFormed(env, s) && IsListing(walk, s.tree)
    ensures s.objects.Keys <= Init(env, s).next.objects.Keys
    ensures s.objects.Keys <= Add(env, s, path).next.objects.Keys
    ensures s.objects.Keys <= Commit(env, s, message, timestamp, walk).next.objects.Keys
  {
    StoreFilesSpec(env, s.objects, s.tree, walk);
  }

  /** With a collision-free hash and a faithful decoder, `init`, `add` and
      `commit` keep HEAD decodable with every recorded digest stored. */
  lemma StepsKeepConsistent(env: Env, s: State, path: Path, message: string, timestamp: string, walk: seq<Path>)
    requires WellFormed(env, s) && Consistent(env, s) && IsListing(walk, s.tree)
    requires CollisionFree(env) && RoundTrip(env)
    ensures Consistent(env, Init(env, s).next)
    ensures Consistent(env, Add(env, s, path).next)
    ensures Consistent(env, Commit(env, s, message, timestamp, walk).next)
  {
    if path in s.tree && s.initialized {
      PutKeepsObjects(env, s.objects, s.tree[path]);
    }
    if s.initialized {
      CommitRecordsTree(env, s, message, timestamp, walk);
      var after := Commit(env, s, message, timestamp, walk).next;
      var record := env.parse(after.objects[after.head.value]).value;
      forall k | k in record.files
        ensures record.files[k] in after.objects
      {
        assert Join(env.root, k) in s.tree;
        assert Relpath(env.root, Join(env.root, k)) == k;
      }
    }
  }

  /** Only a change renders with the prefix "Changes detected": the three
      fixed messages start differently. */
  lemma RenderChangesPrefix(d: DiffResult)
    ensures d.Changes? ==> "Changes detected" <= Render(d)
    ensures !d.Changes? ==> !("Changes detected" <= Render(d))
  {
    if d.Changes? {
      assert Render(d)[..16] == "Changes detected";
    } else {
      assert Render(d)[0] != 'C';
    }
  }

  /** The three outcomes without digests render as three strings that no
      other outcome renders as. */
  lemma RenderFixedDistinct(d: DiffResult, e: DiffResult)
    requires !d.Changes? && Render(d) == Render(e)
    ensures d == e
  {
  }
}
