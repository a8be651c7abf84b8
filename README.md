# PyVCS core in Dafny

A verified model of `VersionControl` from PyVCS (`pyvcs/core.py`). It is a tiny
content-addressed version-control core with four parts:

- an **object store**, `.pyvcs/objects/<digest>`. The model holds it as a
  `map<Digest, Bytes>`; `add` and `commit` write into it.
- a single **HEAD** reference, `.pyvcs/refs/HEAD`, held as `Option<Digest>`.
  Each `commit` overwrites it.
- a **working tree**, `map<Path, Bytes>`. It is keyed by the paths `os.walk`
  yields, which are absolute paths below the root.
- the **initialised** flag: whether `.pyvcs` exists.

SHA-256 (`calculate_hash`), `json.dumps` and `json.loads` are not written out.
They are the fields `hash`, `serialize` and `parse` of an `Env` value, so every
result holds for any such functions. Two properties are stated as explicit
hypotheses on the lemmas that need them:

- `CollisionFree`: different bytes never have the same digest.
- `RoundTrip`: `parse(serialize(c)) == Some(c)`.

Nothing in the model assumes either one globally.

Layout:

- `types.dfy`: bytes, paths, digests, the commit record, errors and `Env`.
- `paths.dfy`: `os.path.join`, `relpath`, and the `.pyvcs` exclusion test.
- `store.dfy`: writing and reading objects.
- `vcs.dfy`: the repository state and the functions `Init`, `Add`, `Commit`
  and `Diff`, each from one state to the next. All the lemmas live here.
- `repository.dfy`: class `VersionControl`. Its fields are the state above, and
  each method is proved to leave them as the matching function of `vcs.dfy` says.
  `commit` is a `for` loop over the walk, like the source's loop.

The model follows the code, not an idealised design. There is no staging index:
`add` only writes the object. `commit` ignores earlier `add`s. Instead it adds
every walked file whose path does not start with the string `<root>/.pyvcs`. The
record has no parent link, and HEAD is simply overwritten. The exclusion is a raw
string-prefix test, so a sibling directory such as `<root>/.pyvcsX` is never
committed either. `Paths.SiblingOfPyvcsIsExcluded` proves this.

Each operation returns `Result<T>`. The source raises an exception in these
cases, and the model returns the matching error:

- `FileNotFound` when a working-tree file is missing.
- `NoRepository` when an object write happens before `init`.
- `ObjectNotFound` when a stored object is missing.
- `MalformedCommit` when the HEAD object does not decode.

`Vcs.Render` gives the exact strings `diff` returns.

## Model

| member | source | states |
|---|---|---|
| `Paths.DirPrefix` | pyvcs/core.py:28 | the directory prefix `os.path.join` puts before a name ends in `/`, extends the root by at most that `/`, and is the root itself when the root already ends in `/` (no doubled separator) |
| `Paths.Join` | pyvcs/core.py:28-30 | a joined path starts with the root's directory prefix and continues with exactly the name |
| `Paths.PyvcsDir` | pyvcs/core.py:28 | the repository directory lies below the root and its relative form is `.pyvcs` |
| `Paths.Relpath` | pyvcs/core.py:76 | the relative form of a walked path joined back onto the root gives the path |
| `Paths.RelpathInjective` | pyvcs/core.py:76-78 | two walked paths have the same relative form exactly when they are the same path, so `files` never merges two files |
| `Paths.RelpathOfJoin` | pyvcs/core.py:103 | `relpath` of a path joined onto the root gives the relative path back |
| `Paths.ExcludedIffRelative` | pyvcs/core.py:75 | on a walked path, `startswith(pyvcs_dir)` holds exactly when the relative path starts with `.pyvcs` |
| `Paths.SiblingOfPyvcsIsExcluded` | pyvcs/core.py:75 | `<root>/.pyvcsX/f` is excluded from commits although it is not inside `.pyvcs` |
| `ObjectStore.Put` | pyvcs/core.py:62-64 | writing an object adds only the content's digest as a key and leaves every object under another digest as it was |
| `ObjectStore.Get` | pyvcs/core.py:111 | reading an object succeeds exactly when its digest is stored, and then returns the stored bytes; otherwise it fails with `ObjectNotFound` of that digest |
| `ObjectStore.PutThenGet` | pyvcs/core.py:60-65 | after writing content, reading its digest gives exactly that content |
| `ObjectStore.PutKeepsAddressed` | pyvcs/core.py:62-64 | writing keeps every object stored under the digest of its own bytes |
| `ObjectStore.PutIdempotent` | pyvcs/core.py:63-64 | writing the same content twice leaves the store as writing it once |
| `ObjectStore.PutKeepsObjects` | pyvcs/core.py:10-12 | with a collision-free hash, overwriting an object file never changes any stored object |
| `Vcs.Init` | pyvcs/core.py:33-40 | `init` creates exactly when `.pyvcs` is absent and returns the matching message; the flag is then set and nothing else changes |
| `Vcs.InitTwice` | pyvcs/core.py:33-40 | a second `init` reports `False` with the "already initialized" message and changes nothing |
| `Vcs.Add` | pyvcs/core.py:60-65 | `add` succeeds exactly when the file exists and `.pyvcs` does; a missing file fails with `FileNotFound` first, a missing repository with `NoRepository`, both leaving the state unchanged; only the store changes, and it keeps every key |
| `Vcs.AddStores` | pyvcs/core.py:60-65 | `add` returns the digest of the file's bytes, the store then holds those bytes under it, and nothing but the store changes |
| `Vcs.AddIdempotent` | pyvcs/core.py:60-65 | a second `add` of an unchanged file returns the same result and leaves the same state |
| `Vcs.Files` | pyvcs/core.py:74-78 | every key of the loop's `files` is the relative form of a walked path not starting with `<root>/.pyvcs` |
| `Vcs.FilesSpec` | pyvcs/core.py:74-78 | the loop's `files` map each walked path not starting with `<root>/.pyvcs` by relative path to its digest |
| `Vcs.StoreFiles` | pyvcs/core.py:74-78 | the loop's `add`s only add objects, and every new key is the digest of a walked file not starting with `<root>/.pyvcs` |
| `Vcs.StoreFilesSpec` | pyvcs/core.py:74-78 | every walked file not starting with `<root>/.pyvcs` has its digest stored, and objects stay under their own digest |
| `Vcs.StoreFilesKeepsObjects` | pyvcs/core.py:77 | with a collision-free hash, the loop changes no previously stored object |
| `Vcs.Commit` | pyvcs/core.py:67-88 | `commit` succeeds exactly when `.pyvcs` exists, and before `init` fails with `NoRepository` changing nothing; on success HEAD holds the returned digest, stored under the digest of its own bytes; the tree and flag are unchanged and the store keeps every key |
| `Vcs.CommitRecordsTree` | pyvcs/core.py:67-88 | `commit` returns the digest that HEAD then holds. The object under it is the encoded record with the message and timestamp, stored under its own digest. `files` has a key for exactly the tree paths not starting with `<root>/.pyvcs`, each mapped to the file's stored digest. The tree is unchanged |
| `Vcs.CommitStoresContent` | pyvcs/core.py:74-83 | with a collision-free hash, each committed digest resolves to the committed file's bytes, and no earlier object changes |
| `Vcs.Diff` | pyvcs/core.py:90-112 | `diff` fails with `FileNotFound` exactly when the file is missing; with no HEAD it reports "No previous commit found."; a reported change carries the current digest and a different, stored previous digest |
| `Vcs.CommitThenDiffUnchanged` | pyvcs/core.py:107-109 | a `diff` right after `commit`, of any committed file, reports "No changes detected." |
| `Vcs.CommitEditDiffChanged` | pyvcs/core.py:110-112 | a file rewritten after `commit` with bytes of another digest is reported changed, with the committed digest and then the current one |
| `Vcs.CommitThenDiffUnknown` | pyvcs/core.py:103-105 | after `commit`, a file created since or under a `.pyvcs`-prefixed path is reported "File not found in the previous commit." |
| `Vcs.DiffSucceeds` | pyvcs/core.py:98-112 | when HEAD decodes and its digests are stored, `diff` of an existing file never fails |
| `Vcs.DiffCompares` | pyvcs/core.py:103-112 | on any well-formed state whose HEAD decodes, `diff` reports "File not found in the previous commit." when the record lacks the relative path; otherwise no changes exactly when the recorded digest equals the current one, else both digests when the recorded object is stored, and else fails with `ObjectNotFound` of the recorded digest (the read at line 111 raises) |
| `Vcs.StepsKeepWellFormed` | pyvcs/core.py:33-88 | `init`, `add` and `commit` keep objects under their own digest. HEAD names a stored object. Nothing is stored before `init` |
| `Vcs.StoreOnlyGrows` | pyvcs/core.py:60-88 | no operation removes a key from the object store |
| `Vcs.StepsKeepConsistent` | pyvcs/core.py:60-88 | with a collision-free hash and a faithful decoder, every operation keeps HEAD decodable with all recorded digests stored |
| `Vcs.RenderChangesPrefix` | pyvcs/core.py:96-112 | only a change renders with the prefix "Changes detected" |
| `Vcs.RenderFixedDistinct` | pyvcs/core.py:96-109 | the three messages without digests are distinct from each other and from every change message |
| `Repository.VersionControl.constructor` | pyvcs/core.py:26-30 | the object starts from the repository as it is on disk |
| `Repository.VersionControl.Init` | pyvcs/core.py:33-40 | the flag and returned pair are as `Vcs.Init` says |
| `Repository.VersionControl.Add` | pyvcs/core.py:60-65 | the result and new state are as `Vcs.Add` says |
| `Repository.VersionControl.Commit` | pyvcs/core.py:67-88 | the loop over the walk leaves the result and new state as `Vcs.Commit` says |
| `Repository.VersionControl.WriteFile` | pyvcs/core.py:10-12 | writing a working-tree file changes that file only |
| `Repository.VersionControl.Diff` | pyvcs/core.py:90-112 | without changing anything, returns `Vcs.Diff` of the fields |
| `Repository.DiffAfterCommit` | pyvcs/core.py:60-109 | `init`, `add`, `commit`, `diff` on any repository reports no changes (the scenario of tests/test_core.py:67-73, with the file named as `os.walk` spells it, not by the tests' cwd-relative path) |
| `Repository.DiffAfterEdit` | pyvcs/core.py:60-112 | `init`, `add`, `commit`, an edit, then `diff` reports the change with both digests (the scenario of tests/test_core.py:75-83, with the file named as `os.walk` spells it, not by the tests' cwd-relative path) |

## Left out

- The SHA-256 algorithm, JSON encoding and decoding: these are arbitrary functions
  of `Env`. Collision-freedom and the round trip are hypotheses on the lemmas that
  use them.
- Key order in the encoded record: `json.dumps` writes `files` in `os.walk`
  insertion order. The model's record holds a map, so the encoding sees only the
  record's contents.
- `os.walk` order: `Commit` takes the walk as a parameter, which must list exactly
  the working-tree files.
- `datetime.now().isoformat()`: the timestamp is a parameter of `Commit`.
- `os.path.abspath` and the normalisation `relpath` does: the root is taken as
  already absolute, and working-tree paths are the strings `os.walk` yields below it.
- `Vcs.Add`: accepts a path only in the exact spelling `os.walk` yields for a
  working-tree file (the root's directory prefix, then the relative name). Every other
  string gets `FileNotFound`, although the source opens any existing file. That
  includes another spelling of a tree file: a cwd-relative path such as
  `test_repo/test_file.txt` (the form the tests and the command line pass), or a
  non-normalised one such as `<root>/./a.txt` or `<root>//a.txt`; the source stores
  that very file. It also includes a file outside the root, `.pyvcs/refs/HEAD` or an
  object file, which the source reads and stores too. The current directory and
  `os.path.abspath` normalisation are not modelled.
- `Vcs.Diff`: the same strings get `FileNotFound`. For another spelling of a tree
  file the source normalises the path in `os.path.relpath` and reports "No changes
  detected." or the change. For a file outside the root or in `.pyvcs` the relative
  form starts with `..` or `.pyvcs/`, which is never a key, so it reports "No
  previous commit found." or "File not found in the previous commit.".
- `Repository.VersionControl.constructor`: it requires a well-formed disk. So a store
  altered by hand is never a starting state for the class: a HEAD whose object was
  deleted, an object not under its own digest, or objects without `.pyvcs`. The class
  therefore never reaches `ObjectNotFound` for HEAD; `Vcs.Diff` on a state value still
  models that error.
- `_create_repo_directory` and `_create_pyvcs_structure` (the `directory_name`
  argument of `init` and the directory creation): only the flag that `.pyvcs`
  exists is kept.
- Files that a user places inside `.pyvcs` itself: the working tree never holds
  them, so `.pyvcs` exists exactly when the flag is set.
- HEAD's encoding as bytes, `.decode().strip()`: HEAD holds the digest itself.
- Exceptions other than a missing file or object, such as permissions, full disk or
  a partial write, and the exception types themselves. Each failure is one `Error`
  value.
- A failed write in the middle of the commit loop: the only write failure modelled
  is the missing store before `init`, and that one fails at the first write.
- `is_directory`, `cli.py` and `setup.py`: presentation and packaging.
