/**
 The part of a file system the directory code sees: a finite tree of directories and
 regular files without links. A path is the list of names that the source joins with
 '/'; some entries may refuse to be removed.
 */
module FileTree {

  type Path = seq<string>

  function Parent(p: Path): (r: Path)
    requires p != []
  {
    p[..|p| - 1]
  }

  predicate Under(root: Path, p: Path) { root <= p }

  predicate IsName(name: string) { name != "" && '/' !in name }

  /** The string the source builds: each name appended with a '/'. */
  function PathText(p: Path): (r: string) {
    if p == [] then "" else PathText(p[..|p| - 1]) + "/" + p[|p| - 1]
  }

  lemma LastSlash(a: string, m: string, b: string, n: string)
    requires '/' !in m && '/' !in n && a + "/" + m == b + "/" + n
    ensures a == b && m == n
  {
    var s := a + "/" + m;
    assert s[|a|] == '/' && s[|b|] == '/';
    assert forall i :: |a| < i < |s| ==> s[i] == m[i - |a| - 1];
    assert forall i :: |b| < i < |s| ==> s[i] == n[i - |b| - 1];
    assert |a| == |b|;
    assert a == s[..|a|] && b == s[..|b|];
    assert m == s[|a| + 1..] && n == s[|b| + 1..];
  }

  /** Different lists of names are different path strings. */
  lemma {:induction false} PathTextInjective(p: Path, q: Path)
    requires (forall i :: 0 <= i < |p| ==> IsName(p[i])) && (forall i :: 0 <= i < |q| ==> IsName(q[i]))
    requires PathText(p) == PathText(q)
    ensures p == q
  {
    if p != [] && q != [] {
      LastSlash(PathText(p[..|p| - 1]), p[|p| - 1], PathText(q[..|q| - 1]), q[|q| - 1]);
      PathTextInjective(p[..|p| - 1], q[..|q| - 1]);
      assert p == p[..|p| - 1] + [p[|p| - 1]] && q == q[..|q| - 1] + [q[|q| - 1]];
    }
  }

  /** Directories, regular files, and what cannot be removed. */
  datatype Tree = Tree(dirs: set<Path>, files: set<Path>, stuck: set<Path>)

  /** Nothing is both, and everything but the root stands in a directory. */
  ghost predicate WellFormed(t: Tree) {
    && t.dirs !! t.files
    && forall p :: p in t.dirs + t.files && p != [] ==> Parent(p) in t.dirs
  }

  function Children(t: Tree, d: Path): (r: set<Path>) {
    set p | p in t.dirs + t.files && p != [] && Parent(p) == d
  }

  function SubDirs(t: Tree, d: Path): (r: set<Path>) {
    set p | p in t.dirs && p != [] && Parent(p) == d
  }

  function FilesIn(t: Tree, d: Path): (r: set<Path>) {
    set p | p in t.files && p != [] && Parent(p) == d
  }

  lemma ChildrenSplit(t: Tree, d: Path)
    ensures Children(t, d) == SubDirs(t, d) + FilesIn(t, d)
  {
  }

  lemma DirsNotFiles(t: Tree, d: Path)
    requires WellFormed(t)
    ensures SubDirs(t, d) !! FilesIn(t, d)
  {
  }

  /** Unlinking and removing an empty directory, when the entry allows it. */
  function Unlink(t: Tree, p: Path): (r: Tree) {
    if p in t.files && p !in t.stuck then t.(files := t.files - {p}) else t
  }

  function RmDir(t: Tree, d: Path): (r: Tree) {
    if d in t.dirs && d !in t.stuck && Children(t, d) == {} then t.(dirs := t.dirs - {d}) else t
  }

  /** Whatever stands below a directory comes down through one of its children. */
  lemma {:induction false} ChildBelow(t: Tree, d: Path, p: Path)
    requires WellFormed(t) && p in t.dirs + t.files && Under(d, p) && |p| > |d|
    ensures p in t.dirs || |p| > |d| + 1 ==> p[..|d| + 1] in SubDirs(t, d)
    ensures |p| == |d| + 1 ==> Parent(p) == d
  {
    if |p| == |d| + 1 {
      assert p[..|d| + 1] == p;
    } else {
      var q := Parent(p);
      assert d <= q && q[..|d| + 1] == p[..|d| + 1];
      ChildBelow(t, d, q);
    }
  }

  /** opendir and readdir: every entry once, in some order. */
  method ListDir(t: Tree, d: Path) returns (entries: seq<Path>)
    ensures forall i, j :: 0 <= i < j < |entries| ==> entries[i] != entries[j]
    ensures forall p :: p in entries <==> p in Children(t, d)
  {
    entries := [];
    var left := Children(t, d);
    while left != {}
      invariant forall i, j :: 0 <= i < j < |entries| ==> entries[i] != entries[j]
      invariant forall p :: p in entries ==> p !in left
      invariant forall p :: p in entries || p in left <==> p in Children(t, d)
      decreases |left|
    {
      var p :| p in left;
      entries := entries + [p];
      left := left - {p};
    }
  }
}
