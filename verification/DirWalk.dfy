/**
 Walking a directory tree: each fetch takes one directory off the stack, pushes its
 subdirectories and returns the names of the files whose names pass the suffix filters.
 */
module DirWalk {
  import opened CLocale
  import opened FileTree

  // ----- suffix filters -----

  predicate EndsWith(s: string, suffix: string) {
    |suffix| <= |s| && s[|s| - |suffix|..] == suffix
  }

  /** Some filter is a suffix of the lower-cased name; no filters let everything through. */
  ghost predicate Matches(name: string, filters: seq<string>) {
    filters == [] || exists i :: 0 <= i < |filters| && EndsWith(Lower(name), filters[i])
  }

  function LowerAll(filters: seq<string>): (r: seq<string>)
    ensures |r| == |filters|
    ensures forall i :: 0 <= i < |filters| ==> r[i] == Lower(filters[i])
  {
    seq(|filters|, i requires 0 <= i < |filters| => Lower(filters[i]))
  }

  method LowerCopy(name: string) returns (f: string)
    ensures f == Lower(name)
  {
    f := "";
    for i := 0 to |name|
      invariant f == Lower(name[..i])
    {
      f := f + [ToLower(name[i])];
      assert f == Lower(name[..i + 1]);
    }
    assert name[..|name|] == name;
  }

  method MatchSuffixFilters(name: string, filters: seq<string>) returns (found: bool)
    ensures found <==> Matches(name, filters)
  {
    if filters == [] { return true; }
    for i := 0 to |filters|
      invariant forall j :: 0 <= j < i ==> !EndsWith(Lower(name), filters[j])
    {
      if |filters[i]| > |name| { continue; }
      var f := LowerCopy(name);
      if f[|f| - |filters[i]|..] == filters[i] { return true; }
    }
    return false;
  }

  /** The last characters of the name are those of the filter, ignoring case. */
  ghost predicate EndsIgnoringCase(name: string, filter: string) {
    |filter| <= |name| &&
    forall i :: 0 <= i < |filter| ==> SameLetter(name[|name| - |filter| + i], filter[i])
  }

  ghost predicate Wanted(name: string, filters: seq<string>) {
    filters == [] || exists i :: 0 <= i < |filters| && EndsIgnoringCase(name, filters[i])
  }

  lemma SuffixLaw(name: string, filter: string)
    ensures EndsWith(Lower(name), Lower(filter)) <==> EndsIgnoringCase(name, filter)
  {
    hide SameLetter, ToLower, Lower;
    if |filter| <= |name| {
      var d := |name| - |filter|;
      var n, f := Lower(name), Lower(filter);
      TailEqual(n, f, d);
      forall i | 0 <= i < |filter| ensures n[d + i] == f[i] <==> SameLetter(name[d + i], filter[i]) {
        LowerEqual(name[d + i], filter[i]);
      }
    }
  }

  lemma TailEqual(a: string, b: string, d: nat)
    requires d + |b| == |a|
    ensures a[d..] == b <==> forall i :: 0 <= i < |b| ==> a[d + i] == b[i]
  {
    var t := a[d..];
    assert forall i :: 0 <= i < |b| ==> t[i] == a[d + i];
  }

  /** The test against lower-cased filters, told by the letters themselves. */
  lemma FilterLaw(name: string, filters: seq<string>)
    ensures Matches(name, LowerAll(filters)) <==> Wanted(name, filters)
  {
    hide EndsWith, EndsIgnoringCase;
    forall i | 0 <= i < |filters|
      ensures EndsWith(Lower(name), LowerAll(filters)[i]) <==> EndsIgnoringCase(name, filters[i])
    {
      SuffixLaw(name, filters[i]);
    }
  }

  // ----- what a walk reaches -----

  /** The root, or a directory under it with every directory above, from the root on,
      readable. */
  ghost predicate Reached(t: Tree, readable: set<Path>, root: Path, d: Path) {
    (d == root || d in t.dirs) && Under(root, d) && forall k :: |root| <= k < |d| ==> d[..k] in readable
  }

  /** One fetch: the directory, whether it could be read, and the names it returned. */
  datatype Visit = Visit(dir: Path, listed: bool, names: seq<string>)

  /** The names are those of the matching files, each once; an unreadable directory gives none. */
  ghost predicate Faithful(t: Tree, readable: set<Path>, filters: seq<string>, v: Visit) {
    && v.listed == (v.dir in readable)
    && Distinct(v.names)
    && (forall n :: n in v.names <==>
          v.listed && v.dir + [n] in t.files && Matches(n, filters))
  }

  /** The same for filters as they were given, case ignored. */
  ghost predicate Returns(t: Tree, readable: set<Path>, filters: seq<string>, v: Visit) {
    && v.listed == (v.dir in readable)
    && Distinct(v.names)
    && (forall n :: n in v.names <==> v.listed && v.dir + [n] in t.files && Wanted(n, filters))
  }

  class Walker {
    var digStack: seq<Path>
    var suffixFilters: seq<string>

    method BeginWalking(root: Path, filters: seq<string>)
      modifies this
      ensures digStack == [root] && suffixFilters == LowerAll(filters)
    {
      digStack, suffixFilters := [], [];
      for i := 0 to |filters|
        invariant digStack == [] && suffixFilters == LowerAll(filters[..i])
      {
        var f := LowerCopy(filters[i]);
        suffixFilters := suffixFilters + [f];
        assert suffixFilters == LowerAll(filters[..i + 1]);
      }
      assert filters[..|filters|] == filters;
      digStack := digStack + [root];
    }

    /** fetchListFromWalker; `visit` is empty when the stack is. `pushed` is what the
        fetch put on the stack. The caller's path moves only to a directory that could be
        read. */
    method Fetch(t: Tree, readable: set<Path>, curPath: Path)
      returns (visit: seq<Visit>, curPath': Path, ghost pushed: seq<Path>)
      requires WellFormed(t)
      modifies this
      ensures suffixFilters == old(suffixFilters)
      ensures old(digStack) == [] ==> visit == [] && digStack == [] && curPath' == curPath
      ensures old(digStack) != [] ==>
                var n := |old(digStack)| - 1;
                var d := old(digStack)[n];
                && |visit| == 1 && visit[0].dir == d && Faithful(t, readable, suffixFilters, visit[0])
                && curPath' == (if d in readable then d else curPath)
                && digStack == old(digStack)[..n] + pushed
                && Distinct(pushed)
                && (forall p :: p in pushed <==> d in readable && p in SubDirs(t, d))
    {
      if digStack == [] { return [], curPath, []; }
      var n := |digStack| - 1;
      var d := digStack[n];
      digStack := digStack[..n];
      if d !in readable {
        return [Visit(d, false, [])], curPath, [];
      }
      var subDirs, names := ScanDir(t, d, suffixFilters);
      digStack := digStack + subDirs;
      return [Visit(d, true, names)], d, subDirs;
    }
  }

  ghost predicate Distinct<T>(s: seq<T>) {
    forall i, j :: 0 <= i < j < |s| ==> s[i] != s[j]
  }

  lemma DistinctSnoc<T>(s: seq<T>, x: T)
    requires Distinct(s) && x !in s
    ensures Distinct(s + [x])
  {
  }

  ghost predicate Listed(t: Tree, d: Path, filters: seq<string>, entries: seq<Path>, names: seq<string>) {
    forall m :: m in names <==> d + [m] in entries && d + [m] in t.files && Matches(m, filters)
  }

  lemma ListedSnoc(t: Tree, d: Path, filters: seq<string>, entries: seq<Path>, names: seq<string>, name: string)
    requires Listed(t, d, filters, entries, names)
    ensures Listed(t, d, filters, entries + [d + [name]],
                   if d + [name] in t.files && Matches(name, filters) then names + [name] else names)
  {
    hide Matches;
    forall m ensures d + [m] == d + [name] <==> m == name {
      assert (d + [m])[|d|] == m && (d + [name])[|d|] == name;
    }
  }

  /** The readdir loop: subdirectories to push, and the names of the files that match. */
  method ScanDir(t: Tree, d: Path, filters: seq<string>) returns (subDirs: seq<Path>, names: seq<string>)
    requires WellFormed(t)
    ensures Distinct(subDirs) && forall p :: p in subDirs <==> p in SubDirs(t, d)
    ensures Distinct(names) && forall m :: m in names <==> d + [m] in t.files && Matches(m, filters)
  {
    hide Matches, Listed, WellFormed;
    DirsNotFiles(t, d);
    var entries := ListDir(t, d);
    ChildrenSplit(t, d);
    subDirs, names := [], [];
    NothingListed(t, d, filters);
    for i := 0 to |entries|
      invariant Distinct(subDirs) && forall p :: p in subDirs <==> p in entries[..i] && p in SubDirs(t, d)
      invariant Distinct(names) && Listed(t, d, filters, entries[..i], names)
    {
      var p := entries[i];
      assert p in entries && p !in entries[..i];
      assert entries[..i + 1] == entries[..i] + [p];
      var name := p[|p| - 1];
      assert p == d + [name];
      ListedSnoc(t, d, filters, entries[..i], names, name);
      if p in t.dirs {
        assert p in SubDirs(t, d);
        DistinctSnoc(subDirs, p);
        subDirs := subDirs + [p];
      } else {
        var found := MatchSuffixFilters(name, filters);
        if found {
          NotYetListed(t, d, filters, entries[..i], names, name);
          DistinctSnoc(names, name);
          names := names + [name];
        }
      }
    }
    assert entries[..|entries|] == entries;
    AllListed(t, d, filters, entries, names);
  }

  lemma NothingListed(t: Tree, d: Path, filters: seq<string>)
    ensures Listed(t, d, filters, [], [])
  {
  }

  lemma NotYetListed(t: Tree, d: Path, filters: seq<string>, entries: seq<Path>, names: seq<string>, name: string)
    requires Listed(t, d, filters, entries, names) && d + [name] !in entries
    ensures name !in names
  {
  }

  lemma AllListed(t: Tree, d: Path, filters: seq<string>, entries: seq<Path>, names: seq<string>)
    requires Listed(t, d, filters, entries, names)
    requires forall p :: p in entries <==> p in Children(t, d)
    ensures forall m :: m in names <==> d + [m] in t.files && Matches(m, filters)
  {
    hide Matches;
    forall m | d + [m] in t.files ensures d + [m] in entries {
      assert Parent(d + [m]) == d;
    }
  }

  // ----- whole walks -----

  /** What is on the stack covers what is still to come, without overlap. */
  ghost predicate Pending(t: Tree, readable: set<Path>, root: Path, visited: seq<Path>, stack: seq<Path>) {
    && (forall d :: d in visited ==> Reached(t, readable, root, d))
    && (forall i :: 0 <= i < |stack| ==> Reached(t, readable, root, stack[i]))
    && (forall d :: Reached(t, readable, root, d) ==> d in visited || Covered(stack, d))
    && (forall d :: d in visited ==> !Covered(stack, d))
    && (forall i, j :: 0 <= i < |stack| && 0 <= j < |stack| && i != j ==> !Under(stack[i], stack[j]))
  }

  ghost predicate Covered(stack: seq<Path>, d: Path) {
    exists i :: 0 <= i < |stack| && Under(stack[i], d)
  }

  lemma UnderTrans(a: Path, b: Path, c: Path)
    requires Under(a, b) && Under(b, c)
    ensures Under(a, c)
  {
  }

  lemma UnderSame(a: Path, b: Path)
    requires Under(a, b) && |a| == |b|
    ensures a == b
  {
  }

  /** Two paths above the same one are one above the other. */
  lemma UnderLinear(a: Path, b: Path, c: Path)
    requires Under(a, c) && Under(b, c)
    ensures Under(a, b) || Under(b, a)
  {
    assert |a| <= |b| ==> a == b[..|a|];
    assert |b| <= |a| ==> b == a[..|b|];
  }

  lemma ChildReached(t: Tree, readable: set<Path>, root: Path, d: Path, c: Path)
    requires Reached(t, readable, root, d) && d in readable && c in SubDirs(t, d)
    ensures Reached(t, readable, root, c)
  {
    forall k | |root| <= k < |c| ensures c[..k] in readable {
      if k < |d| { assert c[..k] == d[..k]; } else { assert c[..k] == d; }
    }
  }

  /** A reached directory below `d` lies in one of its subdirectories, and `d` is readable. */
  lemma ReachedThrough(t: Tree, readable: set<Path>, root: Path, d: Path, e: Path)
    requires WellFormed(t) && Reached(t, readable, root, d) && Reached(t, readable, root, e)
    requires Under(d, e) && d != e
    ensures d in readable && e[..|d| + 1] in SubDirs(t, d) && Under(e[..|d| + 1], e)
  {
    assert |d| < |e|;
    assert e[..|d|] == d;
    ChildBelow(t, d, e);
  }

  lemma CoverAfter(t: Tree, readable: set<Path>, root: Path, stack: seq<Path>, pushed: seq<Path>, e: Path)
    requires WellFormed(t) && stack != [] && Covered(stack, e)
    requires Reached(t, readable, root, stack[|stack| - 1]) && Reached(t, readable, root, e)
    requires forall p :: p in pushed <==> stack[|stack| - 1] in readable && p in SubDirs(t, stack[|stack| - 1])
    ensures e == stack[|stack| - 1] || Covered(stack[..|stack| - 1] + pushed, e)
  {
    hide WellFormed, Reached, SubDirs;
    var n := |stack| - 1;
    var stack' := stack[..n] + pushed;
    var i :| 0 <= i < |stack| && Under(stack[i], e);
    if i < n {
      assert stack'[i] == stack[i];
    } else if e != stack[n] {
      ReachedThrough(t, readable, root, stack[n], e);
      var c := e[..|stack[n]| + 1];
      assert c in pushed;
      var j :| 0 <= j < |pushed| && pushed[j] == c;
      assert stack'[n + j] == c;
    }
  }

  /** What the new stack covers, the old one did. */
  lemma CoverBefore(t: Tree, stack: seq<Path>, pushed: seq<Path>, e: Path)
    requires stack != [] && (forall p :: p in pushed ==> p in SubDirs(t, stack[|stack| - 1]))
    requires Covered(stack[..|stack| - 1] + pushed, e)
    ensures Covered(stack, e)
    ensures e == stack[|stack| - 1] ==> Covered(stack[..|stack| - 1], e)
  {
    var n := |stack| - 1;
    var stack' := stack[..n] + pushed;
    var i :| 0 <= i < |stack'| && Under(stack'[i], e);
    if i < n {
      assert stack[i] == stack'[i] && stack[..n][i] == stack[i];
    } else {
      var c := stack'[i];
      assert c == pushed[i - n] && c in pushed;
      UnderTrans(stack[n], c, e);
    }
  }

  lemma ApartAfter(t: Tree, stack: seq<Path>, pushed: seq<Path>, i: nat, j: nat)
    requires stack != [] && Distinct(pushed) && (forall p :: p in pushed ==> p in SubDirs(t, stack[|stack| - 1]))
    requires forall i, j :: 0 <= i < |stack| && 0 <= j < |stack| && i != j ==> !Under(stack[i], stack[j])
    requires i < |stack| - 1 + |pushed| && j < |stack| - 1 + |pushed| && i != j
    ensures var s := stack[..|stack| - 1] + pushed; !Under(s[i], s[j])
  {
    var n := |stack| - 1;
    var s := stack[..n] + pushed;
    var d := stack[n];
    if i >= n { assert s[i] == pushed[i - n] && s[i] in pushed; }
    if j >= n { assert s[j] == pushed[j - n] && s[j] in pushed; }
    if Under(s[i], s[j]) {
      if i < n && j < n {
        assert false;
      } else if i >= n && j >= n {
        UnderSame(s[i], s[j]);
        assert false;
      } else if i >= n {
        UnderTrans(d, s[i], s[j]);
      } else {
        UnderLinear(s[i], d, s[j]);
      }
    }
  }

  /** One fetch keeps the walk on course. */
  lemma WalkStep(t: Tree, readable: set<Path>, root: Path, visited: seq<Path>, stack: seq<Path>, pushed: seq<Path>)
    requires WellFormed(t) && Pending(t, readable, root, visited, stack) && stack != [] && Distinct(pushed)
    requires forall p :: p in pushed <==> stack[|stack| - 1] in readable && p in SubDirs(t, stack[|stack| - 1])
    ensures stack[|stack| - 1] !in visited
    ensures Pending(t, readable, root, visited + [stack[|stack| - 1]], stack[..|stack| - 1] + pushed)
  {
    hide Reached, WellFormed;
    var n := |stack| - 1;
    var d, stack' := stack[n], stack[..n] + pushed;
    var visited' := visited + [d];
    assert Covered(stack, d);
    assert !Covered(stack[..n], d);
    forall i | 0 <= i < |stack'| ensures Reached(t, readable, root, stack'[i]) {
      if i < n {
        assert stack'[i] == stack[i];
      } else {
        assert stack'[i] == pushed[i - n] && stack'[i] in pushed;
        ChildReached(t, readable, root, d, stack'[i]);
      }
    }
    forall e | Reached(t, readable, root, e) ensures e in visited' || Covered(stack', e) {
      if e !in visited { CoverAfter(t, readable, root, stack, pushed, e); }
    }
    forall e | e in visited' ensures !Covered(stack', e) {
      if Covered(stack', e) {
        CoverBefore(t, stack, pushed, e);
      }
    }
    forall i, j | 0 <= i < |stack'| && 0 <= j < |stack'| && i != j ensures !Under(stack'[i], stack'[j]) {
      ApartAfter(t, stack, pushed, i, j);
    }
  }

  /** Everything that was reached has been visited once the stack is empty. */
  lemma WalkDone(t: Tree, readable: set<Path>, root: Path, visited: seq<Path>)
    requires Pending(t, readable, root, visited, [])
    ensures forall d :: d in visited <==> Reached(t, readable, root, d)
  {
    hide Reached;
    forall d | Reached(t, readable, root, d) ensures d in visited {
      assert !Covered([], d);
    }
  }

  lemma WalkStart(t: Tree, readable: set<Path>, root: Path)
    ensures Pending(t, readable, root, [], [root])
  {
    forall d | Reached(t, readable, root, d) ensures Covered([root], d) {
      assert Under([root][0], d);
    }
  }

  lemma {:induction false} DistinctWithin(visited: seq<Path>, within: set<Path>)
    requires Distinct(visited) && forall d :: d in visited ==> d in within
    ensures |visited| <= |within|
  {
    if visited != [] {
      var n := |visited| - 1;
      DistinctWithin(visited[..n], within - {visited[n]});
    }
  }

  ghost function Dirs(visits: seq<Visit>): (r: seq<Path>) {
    seq(|visits|, i requires 0 <= i < |visits| => visits[i].dir)
  }

  /** beginWalking and fetches until the walker says it is done: every directory that can
      be reached is visited exactly once, and each visit returns exactly the names of the
      regular files that end, ignoring case, in one of the filters. */
  method WalkAll(walker: Walker, t: Tree, readable: set<Path>, root: Path, filters: seq<string>)
    returns (visits: seq<Visit>)
    requires WellFormed(t)
    modifies walker
    ensures Distinct(Dirs(visits))
    ensures forall d :: d in Dirs(visits) <==> Reached(t, readable, root, d)
    ensures forall i :: 0 <= i < |visits| ==> Returns(t, readable, filters, visits[i])
  {
    hide Reached, Pending, WellFormed, Faithful, Returns;
    walker.BeginWalking(root, filters);
    visits := [];
    WalkStart(t, readable, root);
    var more, curPath := true, root;
    while more
      invariant walker.suffixFilters == LowerAll(filters)
      invariant Pending(t, readable, root, Dirs(visits), walker.digStack)
      invariant Distinct(Dirs(visits)) && (forall d :: d in Dirs(visits) ==> d in t.dirs + {root})
      invariant forall i :: 0 <= i < |visits| ==> Faithful(t, readable, LowerAll(filters), visits[i])
      invariant !more ==> walker.digStack == []
      decreases more, |t.dirs + {root}| - |visits|
    {
      ghost var stack, visited := walker.digStack, Dirs(visits);
      var visit;
      ghost var pushed;
      visit, curPath, pushed := walker.Fetch(t, readable, curPath);
      if visit == [] {
        more := false;
      } else {
        WalkStep(t, readable, root, visited, stack, pushed);
        visits := visits + visit;
        assert Dirs(visits) == visited + [stack[|stack| - 1]];
        DistinctSnoc(visited, stack[|stack| - 1]);
        PendingDirs(t, readable, root, Dirs(visits), walker.digStack);
        DistinctWithin(Dirs(visits), t.dirs + {root});
      }
    }
    WalkDone(t, readable, root, Dirs(visits));
    forall i | 0 <= i < |visits| ensures Returns(t, readable, filters, visits[i]) {
      FaithfulReturns(t, readable, filters, visits[i]);
    }
  }

  lemma FaithfulReturns(t: Tree, readable: set<Path>, filters: seq<string>, v: Visit)
    requires Faithful(t, readable, LowerAll(filters), v)
    ensures Returns(t, readable, filters, v)
  {
    hide Matches, Wanted;
    forall n ensures n in v.names <==> v.listed && v.dir + [n] in t.files && Wanted(n, filters) {
      FilterLaw(n, filters);
    }
  }

  lemma PendingDirs(t: Tree, readable: set<Path>, root: Path, visited: seq<Path>, stack: seq<Path>)
    requires Pending(t, readable, root, visited, stack)
    ensures forall d :: d in visited ==> d in t.dirs + {root}
  {
  }

  /** On a readable tree that is every directory under the root and no other. */
  lemma AllReached(t: Tree, root: Path, d: Path)
    requires WellFormed(t) && root in t.dirs
    ensures Reached(t, t.dirs, root, d) <==> d in t.dirs && Under(root, d)
  {
    if d in t.dirs {
      forall k | |root| <= k < |d| ensures d[..k] in t.dirs { AncestorDir(t, d, k); }
    }
  }

  lemma {:induction false} AncestorDir(t: Tree, d: Path, k: nat)
    requires WellFormed(t) && d in t.dirs && k <= |d|
    ensures d[..k] in t.dirs
    decreases |d|
  {
    if k < |d| {
      AncestorDir(t, Parent(d), k);
      assert Parent(d)[..k] == d[..k];
    } else {
      assert d[..k] == d;
    }
  }
}
