/** `VersionControl` as a class whose fields are the on-disk state it changes:
    the `.pyvcs` flag, the working tree, the object store and HEAD. Each method
    leaves the fields as the matching function of module Vcs says. */
module Repository {
  import opened Types
  import opened Paths
  import opened ObjectStore
  import Vcs

  class VersionControl {
    const env: Env
    var initialized: bool
    var tree: map<Path, Bytes>
    var objects: map<Digest, Bytes>
    var head: Option<Digest>

    function Disk(): Vcs.State
      reads this
    {
      Vcs.State(initialized, tree, objects, head)
    }

    ghost predicate Valid()
      reads this
    {
      Vcs.WellFormed(env, Disk())
    }

    /** `VersionControl(root_dir)` over the repository as it is on disk. */
    constructor (env: Env, disk: Vcs.State)
      requires Vcs.WellFormed(env, disk)
      ensures Valid() && Disk() == disk
      ensures this.env == env
    {
      this.env := env;
      initialized := disk.initialized;
      tree := disk.tree;
      objects := disk.objects;
      head := disk.head;
    }

    /** `init`: create `.pyvcs` unless it exists, and say which happened. */
    method Init() returns (created: bool, message: string)
      requires Valid()
      modifies this
      ensures Valid()
      ensures Vcs.InitReport(created, message, Disk()) == Vcs.Init(env, old(Disk()))
    {
      if initialized {
        return false, Vcs.AlreadyInitialized;
      }
      initialized := true;
      return true, "Initialized empty PyVCS repository in " + PyvcsDir(env.root);
    }

    /** `add`: store the file's bytes under their digest and return it. */
    method Add(path: Path) returns (r: Result<Digest>)
      requires Valid()
      modifies this
      ensures Valid()
      ensures Vcs.Step(r, Disk()) == Vcs.Add(env, old(Disk()), path)
    {
      if path !in tree {
        return Failure(FileNotFound(path));
      }
      var content := tree[path];
      var digest := env.hash(content);
      if !initialized {
        return Failure(NoRepository);
      }
      PutKeepsAddressed(env, objects, content);
      objects := objects[digest := content];
      return Success(digest);
    }

    /** `commit`: walk the working tree in the order `walk` gives, add every
        file whose path does not start with `<root>/.pyvcs` and record it by relative path, then store the
        encoded record and point HEAD at it. */
    method Commit(message: string, timestamp: string, walk: seq<Path>) returns (r: Result<Digest>)
      requires Valid() && Vcs.IsListing(walk, tree)
      modifies this
      ensures Valid()
      ensures Vcs.Step(r, Disk()) == Vcs.Commit(env, old(Disk()), message, timestamp, walk)
    {
      var files: map<Path, Digest> := map[];
      for i := 0 to |walk|
        invariant Valid()
        invariant tree == old(tree) && initialized == old(initialized) && head == old(head)
        invariant files == Vcs.Files(env, tree, walk[..i])
        invariant objects == Vcs.StoreFiles(env, old(objects), tree, walk[..i])
        invariant !initialized ==> objects == old(objects)
      {
        var p := walk[i];
        Vcs.FilesStep(env, tree, walk, i);
        Vcs.StoreFilesStep(env, old(objects), tree, walk, i);
        if !Excluded(env.root, p) {
          Vcs.AddInLoop(env, old(Disk()), walk, i);
          var relative := Relpath(env.root, p);
          var added := Add(p);
          if added.Failure? {
            return added;
          }
          files := files[relative := added.value];
        }
      }
      assert walk[..|walk|] == walk;
      var record := CommitRecord(message, timestamp, files);
      var content := env.serialize(record);
      var digest := env.hash(content);
      if !initialized {
        return Failure(NoRepository);
      }
      PutKeepsAddressed(env, objects, content);
      objects := objects[digest := content];
      head := Some(digest);
      return Success(digest);
    }

    /** `write_file` on a working-tree file below the root and outside
        `.pyvcs`: the file now holds `content`; nothing else changes. */
    method WriteFile(path: Path, content: Bytes)
      requires Valid() && Under(env.root, path) && !InStoreDir(env.root, path)
      modifies this
      ensures Valid()
      ensures Disk() == old(Disk()).(tree := old(tree)[path := content])
    {
      tree := tree[path := content];
    }

    /** `diff`: read-only, so it is `Vcs.Diff` of the fields. */
    method Diff(path: Path) returns (r: Result<Vcs.DiffResult>)
      requires Valid()
      ensures r == Vcs.Diff(env, Disk(), path)
    {
      r := Vcs.Diff(env, Disk(), path);
    }
  }

  /** The scenario of the test that diffs right after a commit: on any
      repository, `init`, `add` and `commit` followed by `diff` of a committed
      file report no changes. The file is named as `os.walk` spells it. */
  method DiffAfterCommit(env: Env, disk: Vcs.State, path: Path, message: string, timestamp: string, walk: seq<Path>)
    returns (r: Result<Vcs.DiffResult>)
    requires Vcs.WellFormed(env, disk) && Vcs.IsListing(walk, disk.tree) && RoundTrip(env)
    requires path in disk.tree && !Excluded(env.root, path)
    ensures r == Success(Vcs.NoChanges)
  {
    var vc := new VersionControl(env, disk);
    var created, report := vc.Init();
    var added := vc.Add(path);
    ghost var beforeCommit := vc.Disk();
    var committed := vc.Commit(message, timestamp, walk);
    Vcs.CommitThenDiffUnchanged(env, beforeCommit, message, timestamp, walk, path);
    r := vc.Diff(path);
  }

  /** The scenario of the test that edits a file after committing it: `diff`
      then reports a change from the committed digest to the new one. The file
      is named as `os.walk` spells it. */
  method DiffAfterEdit(env: Env, disk: Vcs.State, path: Path, message: string, timestamp: string,
                       walk: seq<Path>, content: Bytes)
    returns (r: Result<Vcs.DiffResult>)
    requires Vcs.WellFormed(env, disk) && Vcs.IsListing(walk, disk.tree) && RoundTrip(env)
    requires path in disk.tree && !Excluded(env.root, path)
    requires env.hash(content) != env.hash(disk.tree[path])
    ensures r == Success(Vcs.Changes(env.hash(disk.tree[path]), env.hash(content)))
  {
    var vc := new VersionControl(env, disk);
    var created, report := vc.Init();
    var added := vc.Add(path);
    ghost var beforeCommit := vc.Disk();
    var committed := vc.Commit(message, timestamp, walk);
    vc.WriteFile(path, content);
    Vcs.CommitEditDiffChanged(env, beforeCommit, message, timestamp, walk, path, content);
    r := vc.Diff(path);
  }
}
