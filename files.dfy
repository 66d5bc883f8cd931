/**
  The filesystem as the handler sees it: regular files (path to content)
  and directories, with paths written as sequences of components.
 */
module Files {

  type Bytes = seq<bv8>

  /** A path as its components, from the root: "/tmp/x/images" is ["tmp", "x", "images"]. */
  type Path = seq<string>

  datatype Tree = Tree(files: map<Path, Bytes>, dirs: set<Path>)

  /** `p` is `root` itself or lies somewhere below it. */
  predicate Within(p: Path, root: Path) {
    |root| <= |p| && p[..|root|] == root
  }

  /** `p` lies strictly below `root`. */
  predicate Below(p: Path, root: Path) {
    |root| < |p| && p[..|root|] == root
  }

  /** Nothing in the tree is at or below `root`: a fresh name for a new directory. */
  predicate Absent(t: Tree, root: Path) {
    (forall p :: p in t.files ==> !Within(p, root)) && (forall d :: d in t.dirs ==> !Within(d, root))
  }

  function Parent(p: Path): Path
    requires |p| > 0
  {
    p[..|p| - 1]
  }

  /** `open(p, "wb")` succeeds exactly when the parent is a directory and `p` is not one. */
  predicate CanWrite(t: Tree, p: Path) {
    |p| > 0 && Parent(p) in t.dirs && p !in t.dirs
  }

  /** The tree after `shutil.rmtree(root)`: everything at or below `root` is gone. */
  function Prune(t: Tree, root: Path): (r: Tree)
    ensures Absent(r, root)
    ensures forall p :: p in t.files && !Within(p, root) ==> p in r.files && r.files[p] == t.files[p]
    ensures forall d :: d in t.dirs && !Within(d, root) ==> d in r.dirs
    ensures r.files.Keys <= t.files.Keys && r.dirs <= t.dirs
  {
    Tree(map p | p in t.files && !Within(p, root) :: t.files[p],
         set d | d in t.dirs && !Within(d, root))
  }

  /** Writing a file at or below `root` is invisible once `root` is pruned. */
  lemma PruneAfterWrite(t: Tree, root: Path, p: Path, data: Bytes)
    requires Within(p, root)
    ensures Prune(Tree(t.files[p := data], t.dirs), root) == Prune(t, root)
  {
    var a := Prune(Tree(t.files[p := data], t.dirs), root);
    var b := Prune(t, root);
    assert a.files.Keys == b.files.Keys;
  }

  /** Renders a path the way Python prints an absolute one. */
  function Show(p: Path): string {
    if p == [] then "" else Show(p[..|p| - 1]) + "/" + p[|p| - 1]
  }
}
