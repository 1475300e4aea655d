/**
 Recursive removal with an explicit stack. A round looks at the directory on top: the
 first subdirectory found is pushed, and a directory without any is removed and popped,
 after which its parent is scanned again from the start.
 */
module DirRemove {
  import opened FileTree

  datatype Progress = Progress(tree: Tree, stack: seq<Path>, failed: bool)

  function Top(s: Progress): (r: Path)
    requires s.stack != []
  {
    s.stack[|s.stack| - 1]
  }

  /** Files are unlinked in listing order until a subdirectory turns up. */
  ghost predicate Descends(s: Progress, s': Progress, child: Path)
    requires s.stack != []
  {
    && child in SubDirs(s.tree, Top(s))
    && s'.stack == s.stack + [child]
    && s'.tree.dirs == s.tree.dirs && s'.tree.stuck == s.tree.stuck
    && s'.tree.files <= s.tree.files
    && s.tree.files - s'.tree.files <= FilesIn(s.tree, Top(s)) - s.tree.stuck
    && (s.failed ==> s'.failed)
    && (s'.failed ==> s.failed || FilesIn(s.tree, Top(s)) * s.tree.stuck != {})
  }

  function Emptied(t: Tree, d: Path): (r: Tree) {
    t.(files := t.files - (FilesIn(t, d) - t.stuck))
  }

  /** Without subdirectories every file is tried, then the directory itself. */
  ghost predicate Ascends(s: Progress, s': Progress)
    requires s.stack != []
  {
    var d := Top(s);
    && SubDirs(s.tree, d) == {}
    && s'.stack == s.stack[..|s.stack| - 1]
    && s'.tree == RmDir(Emptied(s.tree, d), d)
    && s'.failed == (s.failed || FilesIn(s.tree, d) * s.tree.stuck != {} || d in s'.tree.dirs || d !in s.tree.dirs)
  }

  ghost predicate Round(s: Progress, s': Progress) {
    s.stack != [] && (Ascends(s, s') || exists child :: Descends(s, s', child))
  }

  class FileSystem {
    var tree: Tree

    method UnlinkAt(p: Path) returns (ok: bool)
      modifies this
      ensures tree == FileTree.Unlink(old(tree), p) && ok == (p in old(tree).files && p !in old(tree).stuck)
    {
      ok := p in tree.files && p !in tree.stuck;
      if ok { tree := tree.(files := tree.files - {p}); }
    }

    method RmDirAt(d: Path) returns (ok: bool)
      modifies this
      ensures tree == FileTree.RmDir(old(tree), d)
      ensures ok == (d in old(tree).dirs && d !in tree.dirs)
    {
      ok := d in tree.dirs && d !in tree.stuck && Children(tree, d) == {};
      if ok { tree := tree.(dirs := tree.dirs - {d}); }
    }

    /** Goes through the entries of a directory, unlinking files, up to the first
        subdirectory. */
    method Scan(d: Path, failed: bool) returns (child: seq<Path>, failed': bool)
      requires WellFormed(tree) && d in tree.dirs
      modifies this
      ensures child == [] ==> SubDirs(old(tree), d) == {} && tree == Emptied(old(tree), d)
      ensures child == [] ==> failed' == (failed || FilesIn(old(tree), d) * old(tree).stuck != {})
      ensures child != [] ==>
                && |child| == 1 && child[0] in SubDirs(old(tree), d)
                && tree == old(tree).(files := tree.files) && tree.files <= old(tree).files
                && old(tree).files - tree.files <= FilesIn(old(tree), d) - old(tree).stuck
                && (failed ==> failed')
                && (failed' ==> failed || FilesIn(old(tree), d) * old(tree).stuck != {})
    {
      hide WellFormed;
      failed' := failed;
      ghost var t := tree;
      ghost var seen: set<Path> := {};
      var entries := ListDir(tree, d);
      ChildrenSplit(t, d);
      DirsNotFiles(t, d);
      for i := 0 to |entries|
        invariant seen <= FilesIn(t, d) && forall p :: p in entries[..i] <==> p in seen
        invariant tree == t.(files := t.files - (seen - t.stuck))
        invariant failed' == (failed || seen * t.stuck != {})
      {
        assert entries[i] in entries && entries[i] in Children(t, d);
        if entries[i] in tree.dirs { return [entries[i]], failed'; }
        assert entries[i] !in entries[..i];
        var ok := UnlinkAt(entries[i]);
        if !ok { failed' := true; }
        assert entries[..i + 1] == entries[..i] + [entries[i]];
        StuckMore(seen, entries[i], t.stuck);
        seen := seen + {entries[i]};
      }
      assert entries[..|entries|] == entries;
      assert seen == Children(t, d);
      assert SubDirs(t, d) == {};
      child := [];
    }

    /** The loop body. */
    method OneRound(stack: seq<Path>, failed: bool) returns (stack': seq<Path>, failed': bool)
      requires stack != [] && WellFormed(tree)
      modifies this
      ensures Round(Progress(old(tree), stack, failed), Progress(tree, stack', failed'))
    {
      hide WellFormed;
      var d := stack[|stack| - 1];
      failed' := failed;
      ghost var s := Progress(tree, stack, failed);
      if d in tree.dirs {
        var child;
        child, failed' := Scan(d, failed);
        if child != [] {
          stack' := stack + child;
          assert Descends(s, Progress(tree, stack', failed'), child[0]);
          return;
        }
      } else {
        NoChildren(tree, d);
      }
      var ok := RmDirAt(d);
      if !ok { failed' := true; }
      stack' := stack[..|stack| - 1];
      assert Ascends(s, Progress(tree, stack', failed'));
    }
  }

  lemma StuckMore(seen: set<Path>, p: Path, stuck: set<Path>)
    ensures (seen + {p}) * stuck != {} <==> seen * stuck != {} || p in stuck
  {
    if p in stuck { assert p in (seen + {p}) * stuck; }
    if seen * stuck != {} {
      var q :| q in seen * stuck;
      assert q in (seen + {p}) * stuck;
    }
  }

  lemma NoChildren(t: Tree, d: Path)
    requires WellFormed(t) && d !in t.dirs
    ensures SubDirs(t, d) == {} && FilesIn(t, d) == {} && Emptied(t, d) == t
  {
    assert SubDirs(t, d) == {} && FilesIn(t, d) == {};
  }

  // ----- what every round keeps -----

  /** An entry under the root that will not go. */
  ghost predicate Blocks(t: Tree, root: Path, p: Path) {
    p in t.stuck && p in t.dirs + t.files && Under(root, p)
  }

  /** Only the root itself or files directly in it may refuse to go. */
  ghost predicate Stoppable(t: Tree, root: Path) {
    forall p :: Blocks(t, root, p) ==> p == root || (p in t.files && Parent(p) == root)
  }

  /** Each stack entry is a directory in the one below it, the root at the bottom. */
  ghost predicate Chain(t: Tree, stack: seq<Path>, root: Path) {
    && (stack != [] ==> stack[0] == root)
    && (forall i :: 0 <= i < |stack| ==> stack[i] in t.dirs && Under(root, stack[i]) && |stack[i]| == |root| + i)
  }

  ghost predicate Shrunk(t0: Tree, t: Tree, root: Path) {
    && WellFormed(t) && t.stuck == t0.stuck
    && t.dirs <= t0.dirs && t.files <= t0.files
    && (forall p :: p in t0.dirs && p !in t.dirs ==> Under(root, p) && p !in t0.stuck)
    && (forall p :: p in t0.files && p !in t.files ==> Under(root, p) && p !in t0.stuck)
  }

  ghost predicate Inv(t0: Tree, s: Progress, root: Path) {
    && Shrunk(t0, s.tree, root)
    && Chain(s.tree, s.stack, root)
    && (s.failed ==> exists p :: Blocks(t0, root, p))
  }

  function DirsUnder(t: Tree, root: Path): (r: set<Path>) {
    set d | d in t.dirs && Under(root, d)
  }

  lemma {:induction false} DistinctSize(stack: seq<Path>, base: nat, within: set<Path>)
    requires forall i :: 0 <= i < |stack| ==> |stack[i]| == base + i && stack[i] in within
    ensures |stack| <= |within|
  {
    if stack != [] {
      var n := |stack| - 1;
      DistinctSize(stack[..n], base, within - {stack[n]});
    }
  }

  /** Twice the directories left, less the stack depth; zero when done. */
  function Measure(s: Progress, root: Path): (r: int) {
    if s.stack == [] then 0 else 1 + 2 * |DirsUnder(s.tree, root)| - |s.stack|
  }

  lemma MeasurePositive(s: Progress, root: Path)
    requires Chain(s.tree, s.stack, root) && s.stack != []
    ensures Measure(s, root) > 0
  {
    DistinctSize(s.stack, |root|, DirsUnder(s.tree, root));
  }

  lemma UnderChild(root: Path, d: Path, p: Path)
    requires Under(root, d) && p != [] && Parent(p) == d
    ensures Under(root, p) && |p| == |d| + 1 && p != root
  {
  }

  lemma UnderSelf(root: Path, p: Path)
    requires Under(root, p) && p != root
    ensures |p| > |root|
  {
  }

  lemma NotStuck(t: Tree, root: Path, p: Path)
    requires Stoppable(t, root) && p in t.dirs + t.files && Under(root, p) && |p| > |root|
    requires p in t.dirs || Parent(p) != root
    requires t.dirs !! t.files
    ensures p !in t.stuck
  {
    assert p in t.stuck ==> Blocks(t, root, p);
  }

  /** Taking removable files out of a directory under the root. */
  lemma FilesShrink(t0: Tree, t: Tree, root: Path, d: Path, gone: set<Path>)
    requires Shrunk(t0, t, root) && Under(root, d) && gone <= FilesIn(t, d) - t.stuck
    ensures Shrunk(t0, t.(files := t.files - gone), root)
  {
    var t' := t.(files := t.files - gone);
    forall p | p in t0.files && p !in t'.files ensures Under(root, p) && p !in t0.stuck {
      if p in gone { UnderChild(root, d, p); }
    }
    assert t'.dirs + t'.files <= t.dirs + t.files;
  }

  lemma DirShrinks(t0: Tree, t: Tree, root: Path, d: Path)
    requires Shrunk(t0, t, root) && Under(root, d) && d in t.dirs && d !in t.stuck && Children(t, d) == {}
    ensures Shrunk(t0, t.(dirs := t.dirs - {d}), root)
    ensures DirsUnder(t.(dirs := t.dirs - {d}), root) == DirsUnder(t, root) - {d}
    ensures |DirsUnder(t, root) - {d}| == |DirsUnder(t, root)| - 1
  {
    var t' := t.(dirs := t.dirs - {d});
    forall p | p in t'.dirs + t'.files && p != [] ensures Parent(p) in t'.dirs {
      assert p !in Children(t, d);
    }
    assert d in DirsUnder(t, root);
  }

  lemma DescendKeeps(t0: Tree, s: Progress, s': Progress, child: Path, root: Path)
    requires Inv(t0, s, root) && s.stack != [] && Descends(s, s', child)
    ensures Inv(t0, s', root) && Measure(s', root) == Measure(s, root) - 1
  {
    hide Shrunk;
    var d := Top(s);
    FilesShrink(t0, s.tree, root, d, s.tree.files - s'.tree.files);
    assert s'.tree == s.tree.(files := s.tree.files - (s.tree.files - s'.tree.files));
    UnderChild(root, d, child);
    assert DirsUnder(s'.tree, root) == DirsUnder(s.tree, root);
    if s'.failed && !s.failed { StuckBlocks(t0, s.tree, root, d); }
  }

  lemma StuckBlocks(t0: Tree, t: Tree, root: Path, d: Path)
    requires Shrunk(t0, t, root) && Under(root, d) && FilesIn(t, d) * t.stuck != {}
    ensures exists p :: Blocks(t0, root, p)
  {
    var p :| p in FilesIn(t, d) * t.stuck;
    UnderChild(root, d, p);
    assert Blocks(t0, root, p);
  }

  lemma NoStuckFiles(t0: Tree, t: Tree, root: Path, d: Path)
    requires Stoppable(t0, root) && Shrunk(t0, t, root) && t0.dirs !! t0.files && Under(root, d) && d != root
    ensures FilesIn(t, d) * t.stuck == {}
  {
    forall p | p in FilesIn(t, d) ensures p !in t.stuck {
      UnderChild(root, d, p);
      UnderSelf(root, d);
      NotStuck(t0, root, p);
    }
  }

  lemma EmptiedShrinks(t0: Tree, t: Tree, root: Path, d: Path)
    requires Stoppable(t0, root) && Shrunk(t0, t, root) && t0.dirs !! t0.files
    requires Under(root, d) && d != root && d in t.dirs && SubDirs(t, d) == {}
    ensures Shrunk(t0, Emptied(t, d), root) && Children(Emptied(t, d), d) == {}
    ensures d !in t.stuck && FilesIn(t, d) * t.stuck == {}
  {
    UnderSelf(root, d);
    NoStuckFiles(t0, t, root, d);
    NotStuck(t0, root, d);
    FilesShrink(t0, t, root, d, FilesIn(t, d) - t.stuck);
    var t' := Emptied(t, d);
    ChildrenSplit(t', d);
    assert FilesIn(t', d) == {} && SubDirs(t', d) == SubDirs(t, d);
  }

  /** A directory below the root is always emptied and removed. */
  lemma AscendKeeps(t0: Tree, s: Progress, s': Progress, root: Path)
    requires Stoppable(t0, root) && t0.dirs !! t0.files
    requires Inv(t0, s, root) && |s.stack| > 1 && Ascends(s, s')
    ensures Inv(t0, s', root) && Measure(s', root) == Measure(s, root) - 1
  {
    hide Shrunk, Stoppable;
    var d := Top(s);
    var t := Emptied(s.tree, d);
    EmptiedShrinks(t0, s.tree, root, d);
    DirShrinks(t0, t, root, d);
    assert DirsUnder(t, root) == DirsUnder(s.tree, root);
  }

  /** What is left of the subtree once the loop is over. */
  ghost predicate Removed(t0: Tree, t: Tree, root: Path) {
    var blocked := exists p :: Blocks(t0, root, p);
    && t.stuck == t0.stuck
    && t.files == (set p | p in t0.files && (Under(root, p) ==> p in t0.stuck))
    && t.dirs == (set p | p in t0.dirs && (Under(root, p) ==> blocked && p == root))
  }

  /** With no subdirectory left in it, the root holds at most files that will not go. */
  lemma OnlyRootLeft(t0: Tree, t: Tree, root: Path)
    requires Shrunk(t0, t, root) && SubDirs(t, root) == {} && root in t.dirs
    ensures forall p :: p in t.dirs && Under(root, p) ==> p == root
    ensures forall p :: p in t.files && Under(root, p) ==> p in FilesIn(t, root)
  {
    forall p | p in t.dirs && Under(root, p) ensures p == root {
      if p != root {
        UnderSelf(root, p);
        ChildBelow(t, root, p);
      }
    }
    forall p | p in t.files && Under(root, p) ensures p in FilesIn(t, root) {
      assert p != root;
      UnderSelf(root, p);
      ChildBelow(t, root, p);
    }
  }

  lemma LastRound(t0: Tree, s: Progress, s': Progress, root: Path)
    requires Stoppable(t0, root) && Inv(t0, s, root) && |s.stack| == 1 && Ascends(s, s')
    ensures Removed(t0, s'.tree, root)
    ensures s'.failed <==> exists p :: Blocks(t0, root, p)
  {
    assert s.stack[0] == root == Top(s);
    OnlyRootLeft(t0, s.tree, root);
    var t := Emptied(s.tree, root);
    ChildrenSplit(t, root);
    assert SubDirs(t, root) == {};
    assert FilesIn(t, root) == FilesIn(s.tree, root) * t0.stuck;
    BlockedWhen(t0, s.tree, root);
  }

  /** The root round fails exactly when something under the root will not go. */
  lemma BlockedWhen(t0: Tree, t: Tree, root: Path)
    requires Shrunk(t0, t, root) && root in t.dirs
    requires forall p :: p in t.dirs && Under(root, p) ==> p == root
    requires forall p :: p in t.files && Under(root, p) ==> p in FilesIn(t, root)
    ensures (exists p :: Blocks(t0, root, p)) <==> root in t.stuck || FilesIn(t, root) * t.stuck != {}
  {
    if p :| Blocks(t0, root, p) {
      assert p in t.dirs + t.files;
      if p != root { assert p in FilesIn(t, root) * t.stuck; }
    }
    if root in t.stuck { assert Blocks(t0, root, root); }
    if FilesIn(t, root) * t.stuck != {} { StuckBlocks(t0, t, root, root); }
  }

  /** rmAbsPath. When nothing under the path refuses to go other than the path itself and
      files directly in it, the loop ends: it takes away everything under the path except
      what refuses, and then the path itself unless something did; nothing else changes; and
      the answer is whether all of it went. */
  method RemovePath(fs: FileSystem, root: Path) returns (ok: bool)
    requires WellFormed(fs.tree) && Stoppable(fs.tree, root)
    modifies fs
    ensures root !in old(fs.tree).dirs ==> !ok && fs.tree == old(fs.tree)
    ensures root in old(fs.tree).dirs ==>
              Removed(old(fs.tree), fs.tree, root) && (ok <==> forall p :: !Blocks(old(fs.tree), root, p))
  {
    hide Stoppable, Removed, Shrunk, Blocks;
    ghost var t0 := fs.tree;
    var stack, failed := [root], false;
    if root in fs.tree.dirs { Started(t0, root); }
    while stack != []
      invariant root !in t0.dirs ==> fs.tree == t0 && (stack == [root] || (stack == [] && failed))
      invariant root in t0.dirs && stack != [] ==> Inv(t0, Progress(fs.tree, stack, failed), root)
      invariant root in t0.dirs && stack == [] ==>
                  Removed(t0, fs.tree, root) && (failed <==> exists p :: Blocks(t0, root, p))
      invariant stack != [] ==> WellFormed(fs.tree)
      decreases if root in t0.dirs then Measure(Progress(fs.tree, stack, failed), root) else |stack|
    {
      ghost var s := Progress(fs.tree, stack, failed);
      stack, failed := fs.OneRound(stack, failed);
      ghost var s' := Progress(fs.tree, stack, failed);
      if root in t0.dirs {
        MeasurePositive(s, root);
        RoundKeeps(t0, s, s', root);
      } else {
        MissingRound(t0, root, s, s');
      }
    }
    ok := !failed;
  }

  lemma Started(t0: Tree, root: Path)
    requires WellFormed(t0) && root in t0.dirs
    ensures Inv(t0, Progress(t0, [root], false), root)
  {
  }

  lemma RoundKeeps(t0: Tree, s: Progress, s': Progress, root: Path)
    requires WellFormed(t0) && Stoppable(t0, root) && Inv(t0, s, root) && Round(s, s')
    ensures Measure(s', root) < Measure(s, root)
    ensures s'.stack != [] ==> Inv(t0, s', root) && WellFormed(s'.tree)
    ensures s'.stack == [] ==> Removed(t0, s'.tree, root) && (s'.failed <==> exists p :: Blocks(t0, root, p))
  {
    MeasurePositive(s, root);
    if Ascends(s, s') {
      if |s.stack| > 1 {
        AscendKeeps(t0, s, s', root);
      } else {
        LastRound(t0, s, s', root);
      }
    } else {
      var child :| Descends(s, s', child);
      DescendKeeps(t0, s, s', child, root);
    }
  }

  /** A path that is no directory cannot be opened or removed. */
  lemma MissingRound(t: Tree, root: Path, s: Progress, s': Progress)
    requires WellFormed(t) && root !in t.dirs && s.tree == t && s.stack == [root] && Round(s, s')
    ensures s'.tree == t && s'.stack == [] && s'.failed
  {
    NoChildren(t, root);
  }

  // ----- when it does not end -----

  /** Something under the path, other than itself and files directly in it, that will not
      go: the state of a run that holds it. */
  ghost predicate Jammed(s: Progress, root: Path, p: Path) {
    && WellFormed(s.tree) && Blocks(s.tree, root, p)
    && |p| > |root| && (p in s.tree.dirs || |p| > |root| + 1)
    && s.stack != [] && s.stack[0] == root
  }

  lemma JamStays(s: Progress, s': Progress, root: Path, p: Path)
    requires Jammed(s, root, p) && Round(s, s')
    ensures Jammed(s', root, p)
  {
    ChildBelow(s.tree, root, p);
    var d := Top(s);
    if Ascends(s, s') {
      assert d != root;
      var t := Emptied(s.tree, d);
      assert WellFormed(t) by { assert t.dirs + t.files <= s.tree.dirs + s.tree.files; }
      RmDirKeeps(t, d);
    } else {
      var child :| Descends(s, s', child);
      assert s'.tree.dirs + s'.tree.files <= s.tree.dirs + s.tree.files;
      assert p in s.tree.files ==> p in s'.tree.files;
    }
  }

  lemma RmDirKeeps(t: Tree, d: Path)
    requires WellFormed(t)
    ensures WellFormed(RmDir(t, d))
  {
    if Children(t, d) == {} {
      forall p | p in (t.dirs - {d}) + t.files && p != [] ensures Parent(p) in t.dirs - {d} {
        assert p !in Children(t, d);
      }
    }
  }

  ghost predicate Run(states: seq<Progress>) {
    forall i :: 0 < i < |states| ==> Round(states[i - 1], states[i])
  }

  /** The other half: with such an entry no run of any length ever empties the stack, so
      the call does not return. */
  lemma {:induction false} NeverEnds(t0: Tree, root: Path, states: seq<Progress>)
    requires WellFormed(t0) && !Stoppable(t0, root)
    requires Run(states) && states != [] && states[0] == Progress(t0, [root], false)
    ensures states[|states| - 1].stack != []
  {
    var p :| Blocks(t0, root, p) && p != root && !(p in t0.files && Parent(p) == root);
    UnderSelf(root, p);
    if p in t0.files && |p| == |root| + 1 { ChildBelow(t0, root, p); }
    AlwaysJammed(root, p, states);
  }

  lemma {:induction false} AlwaysJammed(root: Path, p: Path, states: seq<Progress>)
    requires Run(states) && states != [] && Jammed(states[0], root, p)
    ensures Jammed(states[|states| - 1], root, p)
  {
    var n := |states| - 1;
    if n > 0 {
      AlwaysJammed(root, p, states[..n]);
      assert states[..n][n - 1] == states[n - 1] && Round(states[n - 1], states[n]);
      JamStays(states[n - 1], states[n], root, p);
    }
  }
}
