/** What the walk of `FileEnumerator` returns, by the flags, the names and the pattern alone. */
module ReachedFiles {
  import opened Search
  import opened FilePaths
  import opened FileEnumerators
  import opened EnumeratedFiles

  /** An entry that passes is neither "." nor, unless asked for, "..", and matches the pattern. */
  lemma PassesExactly(w: Walk, dir: string, e: Entry)
    requires CleanName(e.name) && Strip(dir) == dir
    ensures Passes(w, dir, e) <==>
      && e.name != "." && (e.name == ".." ==> w.includeDotDot)
      && (w.pattern == "" || w.matches(w.pattern, AppendPath(dir, e.name)))
  {
    hide Strip, AppendPath, BaseNameOf;
    EntryPath(dir, e.name);
  }

  lemma WantedExactly(w: Walk, dir: string, e: Entry)
    requires CleanName(e.name) && Strip(dir) == dir
    ensures Wanted(w, dir, e) <==>
      && (e.isDirectory ==> w.directories) && (!e.isDirectory ==> w.files)
      && e.name != "." && (e.name == ".." ==> w.includeDotDot)
      && (w.pattern == "" || w.matches(w.pattern, AppendPath(dir, e.name)))
  {
    hide Strip, AppendPath, Passes;
    PassesExactly(w, dir, e);
  }

  /** `child` is the path of a directory that is listed in `dir` under a name that passes. */
  ghost predicate LeadsTo(w: Walk, dir: string, child: string) {
    dir in w.fs && w.recursive &&
    exists i :: 0 <= i < |w.fs[dir]| && child == AppendPath(dir, w.fs[dir][i].name) &&
      var e := w.fs[dir][i];
      e.isDirectory && e.name != "." && (e.name == ".." ==> w.includeDotDot) &&
      (w.pattern == "" || w.matches(w.pattern, child))
  }

  /** A way down from the root: each directory can be opened and leads to the next. */
  ghost predicate IsWay(w: Walk, dirs: seq<string>) {
    && dirs != []
    && (forall k :: 0 <= k < |dirs| ==> dirs[k] in w.fs)
    && (forall k :: 0 <= k < |dirs| - 1 ==> LeadsTo(w, dirs[k], dirs[k + 1]))
  }

  ghost predicate Reached(w: Walk, root: string, dir: string) {
    exists dirs :: IsWay(w, dirs) && dirs[0] == Strip(root) && dirs[|dirs| - 1] == dir
  }

  lemma {:induction false} DescendedEntries(w: Walk, dir: string, listing: seq<Entry>, path: string)
    ensures path in Descended(w, dir, listing) <==>
      exists i :: 0 <= i < |listing| && IsDescended(w, dir, listing[i]) && path == AppendPath(dir, listing[i].name)
    decreases |listing|
  {
    hide AppendPath, IsDescended;
    if listing != [] {
      var n := |listing| - 1;
      DescendedEntries(w, dir, listing[..n], path);
      assert forall i :: 0 <= i < n ==> listing[..n][i] == listing[i];
    }
  }

  lemma SubdirectoriesExactly(w: Walk, root: string, path: string)
    requires CleanNames(w) && Strip(root) in w.fs
    ensures path in Subdirectories(w, root) <==> LeadsTo(w, Strip(root), path)
  {
    hide Strip, AppendPath, Passes, Descended;
    var dir := Strip(root);
    StripIdempotent(root);
    DescendedEntries(w, dir, w.fs[dir], path);
    forall i | 0 <= i < |w.fs[dir]|
      ensures Passes(w, dir, w.fs[dir][i]) <==>
        var e := w.fs[dir][i];
        && e.name != "." && (e.name == ".." ==> w.includeDotDot)
        && (w.pattern == "" || w.matches(w.pattern, AppendPath(dir, e.name)))
    {
      PassesExactly(w, dir, w.fs[dir][i]);
    }
  }

  /** A directory in a listing has a path that nothing is stripped from. */
  lemma LedToIsStripped(w: Walk, root: string, path: string)
    requires CleanNames(w) && LeadsTo(w, Strip(root), path)
    ensures Strip(path) == path
  {
    hide Strip, AppendPath;
    var dir := Strip(root);
    StripIdempotent(root);
    var i :| 0 <= i < |w.fs[dir]| && path == AppendPath(dir, w.fs[dir][i].name);
    EntryPath(dir, w.fs[dir][i].name);
  }

  lemma {:induction false} VisitedIsReached(w: Walk, root: string, dir: string)
    requires CleanNames(w) && Visited(w, root, dir)
    ensures Reached(w, root, dir)
    decreases Height(w, root)
  {
    hide Strip, LeadsTo, Subdirectories;
    var first := Strip(root);
    if dir == first {
      assert IsWay(w, [first]);
    } else {
      DescendedLower(w, root, Listing(w, root));
      var i :| 0 <= i < |Subdirectories(w, root)| && Visited(w, Subdirectories(w, root)[i], dir);
      var child := Subdirectories(w, root)[i];
      HeightOfSubdirectory(w, root, i);
      VisitedIsReached(w, child, dir);
      SubdirectoriesExactly(w, root, child);
      LedToIsStripped(w, root, child);
      var dirs :| IsWay(w, dirs) && dirs[0] == Strip(child) && dirs[|dirs| - 1] == dir;
      LongerWay(w, first, dirs);
    }
  }

  lemma HeightOfSubdirectory(w: Walk, root: string, i: nat)
    requires CleanNames(w) && Strip(root) in w.fs && i < |Subdirectories(w, root)|
    ensures Height(w, Subdirectories(w, root)[i]) < Height(w, root)
  {
    hide Strip, Height, Descended;
    DescendedLower(w, root, Listing(w, root));
  }

  lemma LongerWay(w: Walk, first: string, dirs: seq<string>)
    requires IsWay(w, dirs) && first in w.fs && LeadsTo(w, first, dirs[0])
    ensures IsWay(w, [first] + dirs) && ([first] + dirs)[|dirs|] == dirs[|dirs| - 1]
  {
    hide LeadsTo;
    var longer := [first] + dirs;
    forall k | 0 <= k < |longer| - 1
      ensures LeadsTo(w, longer[k], longer[k + 1])
    {
      if k > 0 {
        assert longer[k] == dirs[k - 1] && longer[k + 1] == dirs[k - 1 + 1];
      }
    }
  }

  lemma {:induction false} ReachedIsVisited(w: Walk, root: string, dirs: seq<string>)
    requires CleanNames(w) && IsWay(w, dirs) && dirs[0] == Strip(root)
    ensures Visited(w, root, dirs[|dirs| - 1])
    decreases |dirs|
  {
    hide Strip, LeadsTo, Subdirectories, Height;
    if |dirs| > 1 {
      var child, rest := dirs[1], dirs[1..];
      assert LeadsTo(w, dirs[0], dirs[0 + 1]);
      SubdirectoriesExactly(w, root, child);
      LedToIsStripped(w, root, child);
      ShorterWay(w, dirs);
      ReachedIsVisited(w, child, rest);
      var i :| 0 <= i < |Subdirectories(w, root)| && Subdirectories(w, root)[i] == child;
      VisitedBelow(w, root, i, rest[|rest| - 1]);
    }
  }

  lemma ShorterWay(w: Walk, dirs: seq<string>)
    requires IsWay(w, dirs) && |dirs| > 1
    ensures IsWay(w, dirs[1..])
  {
    hide LeadsTo;
    var rest := dirs[1..];
    forall k | 0 <= k < |rest| - 1
      ensures LeadsTo(w, rest[k], rest[k + 1])
    {
      assert LeadsTo(w, dirs[k + 1], dirs[k + 1 + 1]);
    }
  }

  lemma VisitedBelow(w: Walk, root: string, i: nat, dir: string)
    requires CleanNames(w) && Strip(root) in w.fs && i < |Subdirectories(w, root)|
    requires Visited(w, Subdirectories(w, root)[i], dir)
    ensures Visited(w, root, dir)
  {
    hide Strip, Descended, Height;
    DescendedLower(w, root, Listing(w, root));
  }

  /** A path is returned exactly if it is that of an entry of a reached directory which has a type that
      is asked for, is not ".", nor ".." unless that is asked for, and matches the pattern, if any. */
  lemma {:induction false} ReturnedIff(w: Walk, root: string, path: string)
    requires CleanNames(w)
    ensures path in Subtree(w, root) <==>
      exists dir, i :: Reached(w, root, dir) && dir in w.fs && 0 <= i < |w.fs[dir]| &&
        path == AppendPath(dir, w.fs[dir][i].name) &&
        (w.fs[dir][i].isDirectory ==> w.directories) && (!w.fs[dir][i].isDirectory ==> w.files) &&
        w.fs[dir][i].name != "." && (w.fs[dir][i].name == ".." ==> w.includeDotDot) &&
        (w.pattern == "" || w.matches(w.pattern, path))
  {
    hide Subtree, Visited, Strip, AppendPath, Wanted, Reached;
    ReturnsExactlyTheWanted(w, root, path);
    if path in Subtree(w, root) {
      var dir :| Visited(w, root, dir) && IsEntryOf(w, dir, path);
      VisitedIsReached(w, root, dir);
      ReachedIsStripped(w, root, dir);
      var i :| 0 <= i < |w.fs[dir]| && Wanted(w, dir, w.fs[dir][i]) && path == AppendPath(dir, w.fs[dir][i].name);
      WantedExactly(w, dir, w.fs[dir][i]);
    }
    forall dir, i | Reached(w, root, dir) && dir in w.fs && 0 <= i < |w.fs[dir]| &&
        path == AppendPath(dir, w.fs[dir][i].name) &&
        (w.fs[dir][i].isDirectory ==> w.directories) && (!w.fs[dir][i].isDirectory ==> w.files) &&
        w.fs[dir][i].name != "." && (w.fs[dir][i].name == ".." ==> w.includeDotDot) &&
        (w.pattern == "" || w.matches(w.pattern, path))
      ensures path in Subtree(w, root)
    {
      ReachedIsStripped(w, root, dir);
      WantedExactly(w, dir, w.fs[dir][i]);
      WayIsVisited(w, root, dir);
      assert IsEntryOf(w, dir, path);
    }
  }

  lemma WayIsVisited(w: Walk, root: string, dir: string)
    requires CleanNames(w) && Reached(w, root, dir)
    ensures Visited(w, root, dir)
  {
    hide LeadsTo, Visited, Strip;
    var dirs :| IsWay(w, dirs) && dirs[0] == Strip(root) && dirs[|dirs| - 1] == dir;
    ReachedIsVisited(w, root, dirs);
  }

  lemma ReachedIsStripped(w: Walk, root: string, dir: string)
    requires CleanNames(w) && Reached(w, root, dir)
    ensures Strip(dir) == dir
  {
    hide Strip, LeadsTo;
    StripIdempotent(root);
    var dirs :| IsWay(w, dirs) && dirs[0] == Strip(root) && dirs[|dirs| - 1] == dir;
    WayIsStripped(w, root, dirs, |dirs| - 1);
  }

  lemma {:induction false} WayIsStripped(w: Walk, root: string, dirs: seq<string>, k: nat)
    requires CleanNames(w) && IsWay(w, dirs) && dirs[0] == Strip(root) && k < |dirs|
    ensures Strip(dirs[k]) == dirs[k]
  {
    hide Strip, LeadsTo;
    StripIdempotent(root);
    if k > 0 {
      WayIsStripped(w, root, dirs, k - 1);
      assert LeadsTo(w, dirs[k - 1], dirs[k - 1 + 1]);
      LedToIsStripped(w, dirs[k - 1], dirs[k]);
    }
  }

  /** A walk that is not recursive reaches the root only. */
  lemma OnlyTheRoot(w: Walk, root: string, dir: string)
    requires !w.recursive && Reached(w, root, dir)
    ensures dir == Strip(root)
  {
    hide Strip;
    var dirs :| IsWay(w, dirs) && dirs[0] == Strip(root) && dirs[|dirs| - 1] == dir;
    assert |dirs| > 1 ==> LeadsTo(w, dirs[0], dirs[0 + 1]);
  }
}
