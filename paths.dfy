/** Path arithmetic used by `VersionControl`: joining a name onto the root,
    the root-relative form of a walked path, and the raw string-prefix test that
    keeps the repository's own directory out of a commit. */
module Paths {
  import opened Types

  /** The root as a directory prefix: `os.path.join(root, name)` puts a `/`
      between the two unless the root already ends in one. */
  function DirPrefix(root: Path): (d: Path)
    ensures |d| > 0 && d[|d| - 1] == '/'
    ensures root <= d && |d| <= |root| + 1
    ensures |root| > 0 && root[|root| - 1] == '/' ==> d == root
  {
    if |root| > 0 && root[|root| - 1] == '/' then root else root + "/"
  }

  function Join(root: Path, name: Path): (p: Path)
    ensures DirPrefix(root) <= p && p[|DirPrefix(root)|..] == name
  {
    DirPrefix(root) + name
  }

  /** `<root>/.pyvcs`, the repository's own directory. */
  function PyvcsDir(root: Path): (d: Path)
    ensures Under(root, d) && Relpath(root, d) == ".pyvcs"
  {
    Join(root, ".pyvcs")
  }

  /** A path that `os.walk(root)` can yield. */
  predicate Under(root: Path, p: Path)
  {
    DirPrefix(root) <= p
  }

  /** `os.path.relpath(p, root)` for a path below the root. */
  function Relpath(root: Path, p: Path): (r: Path)
    requires Under(root, p)
    ensures Join(root, r) == p
  {
    p[|DirPrefix(root)|..]
  }

  /** The test `file_path.startswith(self.pyvcs_dir)` of the commit loop: a raw
      prefix on the string, not a test on path components. */
  predicate Excluded(root: Path, p: Path)
  {
    PyvcsDir(root) <= p
  }

  /** The files that make up `.pyvcs` itself (the directory and everything in it);
      the model keeps these in the object store and HEAD, not in the working tree. */
  predicate InStoreDir(root: Path, p: Path)
  {
    p == PyvcsDir(root) || PyvcsDir(root) + "/" <= p
  }

  /** Different walked paths have different relative forms, so a commit never
      records two files under one key. */
  lemma RelpathInjective(root: Path, p: Path, q: Path)
    requires Under(root, p) && Under(root, q)
    ensures Relpath(root, p) == Relpath(root, q) <==> p == q
  {
  }

  /** Relative paths come back from joining them onto the root. */
  lemma RelpathOfJoin(root: Path, r: Path)
    ensures Under(root, Join(root, r)) && Relpath(root, Join(root, r)) == r
  {
  }

  /** On a walked path the exclusion test is the prefix test `.pyvcs` on its
      relative form. */
  lemma ExcludedIffRelative(root: Path, p: Path)
    requires Under(root, p)
    ensures Excluded(root, p) <==> ".pyvcs" <= Relpath(root, p)
  {
  }

  /** Because the test is a raw prefix, a sibling directory whose name merely
      starts with `.pyvcs` (here `.pyvcsX`) is left out of every commit too,
      although it is not the repository's directory. */
  lemma SiblingOfPyvcsIsExcluded(root: Path)
    ensures Excluded(root, Join(root, ".pyvcsX/f"))
    ensures !InStoreDir(root, Join(root, ".pyvcsX/f"))
  {
    var d := DirPrefix(root);
    assert Join(root, ".pyvcsX/f") == (d + ".pyvcs") + "X/f";
    assert Join(root, ".pyvcsX/f")[|d| + 6] == 'X';
    assert (PyvcsDir(root) + "/")[|d| + 6] == '/';
  }
}
