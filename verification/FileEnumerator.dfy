/** The directory walk of kwctoolkit/file/file_enumerator.cc: a stack of directories still to be read
    and the listing of the current one, handed out entry by entry. */
module FileEnumerators {
  import opened Basics
  import opened Search
  import opened FilePaths

  datatype Entry = Entry(name: string, isDirectory: bool)

  /** What an enumerator is asked for, and the tree it walks: `fs` lists the directories that can be
      opened, by path, and `matches` is `fnmatch`.  A finite map has no endless chain of
      directories, so links back up and an endless "../.." are excluded. */
  datatype Walk = Walk(
    fs: map<string, seq<Entry>>, matches: (string, string) -> bool,
    recursive: bool, files: bool, directories: bool, includeDotDot: bool, pattern: string)

  // ---------- One listing ----------

  predicate Skipped(w: Walk, path: string) {
    BaseNameOf(path) == "." || (BaseNameOf(path) == ".." && !w.includeDotDot)
  }

  /** Entries that are skipped or do not match are neither returned nor descended into. */
  predicate Passes(w: Walk, dir: string, e: Entry) {
    var path := AppendPath(dir, e.name);
    !Skipped(w, path) && (w.pattern == "" || w.matches(w.pattern, path))
  }

  predicate Wanted(w: Walk, dir: string, e: Entry) {
    Passes(w, dir, e) && if e.isDirectory then w.directories else w.files
  }

  predicate IsDescended(w: Walk, dir: string, e: Entry) {
    w.recursive && Passes(w, dir, e) && e.isDirectory
  }

  function Shown(w: Walk, dir: string, listing: seq<Entry>): seq<Entry> {
    if listing == [] then []
    else
      var n := |listing| - 1;
      Shown(w, dir, listing[..n]) + (if Wanted(w, dir, listing[n]) then [listing[n]] else [])
  }

  function Descended(w: Walk, dir: string, listing: seq<Entry>): seq<string> {
    if listing == [] then []
    else
      var n := |listing| - 1;
      Descended(w, dir, listing[..n])
      + (if IsDescended(w, dir, listing[n]) then [AppendPath(dir, listing[n].name)] else [])
  }

  function Paths(dir: string, entries: seq<Entry>): seq<string> {
    seq(|entries|, i requires 0 <= i < |entries| => AppendPath(dir, entries[i].name))
  }

  function From(entries: seq<Entry>, i: nat): seq<Entry> {
    if i < |entries| then entries[i..] else []
  }

  function Listing(w: Walk, path: string): seq<Entry> {
    if Strip(path) in w.fs then w.fs[Strip(path)] else []
  }

  // ---------- Names and heights ----------

  /** A name as a directory lists it. */
  predicate CleanName(name: string) {
    name != "" && SEPARATOR !in name && '\0' !in name
  }

  ghost predicate CleanNames(w: Walk) {
    forall p, i :: p in w.fs && 0 <= i < |w.fs[p]| ==> CleanName(w.fs[p][i].name)
  }

  ghost function Bound(paths: set<string>): (b: nat)
    ensures forall p :: p in paths ==> Rank(p) <= b
  {
    if paths == {} then 0
    else
      var p :| p in paths;
      var b := Bound(paths - {p});
      if Rank(p) <= b then b else Rank(p)
  }

  /** How far below a path there can still be directories. */
  ghost function Height(w: Walk, path: string): nat {
    if Strip(path) in w.fs then Bound(w.fs.Keys) + 1 - Rank(Strip(path)) else 0
  }

  // ---------- Paths of entries ----------

  /** What stands before the name in the path of an entry. */
  function Prefix(dir: string): string {
    if dir == "." || dir == "" then ""
    else if dir[|dir| - 1] == SEPARATOR then dir
    else dir + "/"
  }

  lemma {:induction false} LastSeparatorBefore(s: string, k: nat)
    requires k < |s| && s[k] == SEPARATOR && SEPARATOR !in s[k + 1..]
    ensures LastSeparator(s) == Some(k)
    decreases |s|
  {
    if k < |s| - 1 {
      assert s[|s| - 1] in s[k + 1..];
      assert s[..|s| - 1][k + 1..] == s[k + 1..|s| - 1];
      LastSeparatorBefore(s[..|s| - 1], k);
    }
  }

  lemma EntryPath(dir: string, name: string)
    requires CleanName(name) && Strip(dir) == dir
    ensures AppendPath(dir, name) == Prefix(dir) + name
    ensures Strip(Prefix(dir) + name) == Prefix(dir) + name && BaseNameOf(Prefix(dir) + name) == name
  {
    hide *;
    CleanNameFacts(dir, name);
    CStringNoNul(name);
    AppendIsPrefix(dir, name);
    StripNothing(Prefix(dir) + name);
    BaseAfterPrefix(Prefix(dir), name);
  }

  /** The pattern that paths are matched against: the caller's, appended to the root. */
  function FullPattern(root: string, pattern: string): string {
    if pattern == "" then "" else AppendPath(root, pattern)
  }

  /** It starts like the paths of the entries of the root, unless the root is a "." that was written
      with separators behind it: these are stripped for the paths, but not for the pattern. */
  lemma PatternStartsLikePaths(root: string, pattern: string)
    requires pattern != "" && '\0' !in pattern
    ensures FullPattern(root, pattern) == Prefix(Strip(root)) + pattern <==> Strip(root) != "." || root == "."
  {
    hide Strip;
    CStringNoNul(pattern);
    StripIdempotent(root);
    if root == "." {
      StripNothing(root);
    } else if Strip(root) == "." {
      assert |AppendPath(root, pattern)| == 2 + |pattern|;
    }
  }

  lemma CleanNameFacts(dir: string, name: string)
    requires CleanName(name)
    ensures '\0' !in name && Prefix(dir) + name != "" && (Prefix(dir) + name)[|Prefix(dir) + name| - 1] != SEPARATOR
    ensures Prefix(dir) == "" || Prefix(dir)[|Prefix(dir)| - 1] == SEPARATOR
  {
    var path := Prefix(dir) + name;
    assert path[|path| - 1] == name[|name| - 1] && name[|name| - 1] in name;
  }

  lemma AppendIsPrefix(dir: string, name: string)
    requires CString(name) == name && Strip(dir) == dir && CleanName(name)
    ensures AppendPath(dir, name) == Prefix(dir) + name
  {
    hide Strip, CString;
  }

  lemma BaseAfterPrefix(prefix: string, name: string)
    requires CleanName(name) && (prefix == "" || prefix[|prefix| - 1] == SEPARATOR)
    requires Strip(prefix + name) == prefix + name
    ensures BaseNameOf(prefix + name) == name
  {
    hide Strip, LastSeparator;
    var path := prefix + name;
    if prefix == "" {
      assert path == name;
      NoSeparator(name);
    } else {
      assert path[|prefix|..] == name;
      LastSeparatorBefore(path, |prefix| - 1);
    }
  }

  lemma {:induction false} NoSeparator(s: string)
    requires SEPARATOR !in s
    ensures LastSeparator(s) == None
    decreases |s|
  {
    if s != "" {
      assert s[|s| - 1] in s;
      NoSeparator(s[..|s| - 1]);
    }
  }

  /** A directory is always lower than the one that lists it. */
  lemma ChildIsLower(w: Walk, path: string, e: Entry)
    requires Strip(path) in w.fs && CleanName(e.name) && Passes(w, Strip(path), e)
    ensures Height(w, AppendPath(Strip(path), e.name)) < Height(w, path)
  {
    var dir := Strip(path);
    StripIdempotent(path);
    EntryPath(dir, e.name);
    var child := Prefix(dir) + e.name;
    assert child != "." by { assert e.name != "."; assert Prefix(dir) != "" ==> |child| >= 2; }
    assert Rank(dir) < Rank(child);
    assert child in w.fs ==> child in w.fs.Keys;
    assert Rank(dir) <= Bound(w.fs.Keys);
  }

  // ---------- The whole walk ----------

  ghost function MaxHeight(w: Walk, stack: seq<string>): nat {
    if stack == [] then 0
    else
      var h := MaxHeight(w, stack[..|stack| - 1]);
      if Height(w, stack[|stack| - 1]) <= h then h else Height(w, stack[|stack| - 1])
  }

  lemma {:induction false} MaxHeightBelow(w: Walk, stack: seq<string>, h: nat)
    requires h > 0 && forall i :: 0 <= i < |stack| ==> Height(w, stack[i]) < h
    ensures MaxHeight(w, stack) < h
    decreases |stack|
  {
    if stack != [] {
      MaxHeightBelow(w, stack[..|stack| - 1], h);
    }
  }

  lemma {:induction false} DescendedLower(w: Walk, path: string, listing: seq<Entry>)
    requires Strip(path) in w.fs && forall i :: 0 <= i < |listing| ==> CleanName(listing[i].name)
    ensures forall i :: 0 <= i < |Descended(w, Strip(path), listing)| ==>
      Height(w, Descended(w, Strip(path), listing)[i]) < Height(w, path)
    decreases |listing|
  {
    if listing != [] {
      var e := listing[|listing| - 1];
      DescendedLower(w, path, listing[..|listing| - 1]);
      if IsDescended(w, Strip(path), e) {
        ChildIsLower(w, path, e);
      }
    }
  }

  lemma MaxHeightLower(w: Walk, path: string)
    requires CleanNames(w) && Strip(path) in w.fs
    ensures MaxHeight(w, Descended(w, Strip(path), Listing(w, path))) < Height(w, path)
  {
    DescendedLower(w, path, Listing(w, path));
    assert Rank(Strip(path)) <= Bound(w.fs.Keys);
    MaxHeightBelow(w, Subdirectories(w, path), Height(w, path));
  }

  /** The directories that reading `path` leaves to be read. */
  function Subdirectories(w: Walk, path: string): seq<string> {
    Descended(w, Strip(path), Listing(w, path))
  }

  /** What the walk returns from a directory on, and from a stack of directories on. */
  ghost function Subtree(w: Walk, path: string): seq<string>
    requires CleanNames(w)
    decreases Height(w, path), 1, 0
  {
    if Strip(path) !in w.fs then []
    else
      MaxHeightLower(w, path);
      Paths(Strip(path), Shown(w, Strip(path), Listing(w, path))) + SubtreeAll(w, Subdirectories(w, path))
  }

  ghost function SubtreeAll(w: Walk, stack: seq<string>): seq<string>
    requires CleanNames(w)
    decreases MaxHeight(w, stack), 2, |stack|
  {
    if stack == [] then []
    else Subtree(w, stack[|stack| - 1]) + SubtreeAll(w, stack[..|stack| - 1])
  }

  /** The number of directories still to be tried. */
  ghost function Weight(w: Walk, path: string): nat
    requires CleanNames(w)
    decreases Height(w, path), 1, 0
  {
    if Strip(path) !in w.fs then 1
    else
      MaxHeightLower(w, path);
      1 + WeightAll(w, Subdirectories(w, path))
  }

  ghost function WeightAll(w: Walk, stack: seq<string>): nat
    requires CleanNames(w)
    decreases MaxHeight(w, stack), 2, |stack|
  {
    if stack == [] then 0
    else Weight(w, stack[|stack| - 1]) + WeightAll(w, stack[..|stack| - 1])
  }

  lemma {:induction false} AllConcat(w: Walk, s: seq<string>, t: seq<string>)
    requires CleanNames(w)
    ensures SubtreeAll(w, s + t) == SubtreeAll(w, t) + SubtreeAll(w, s)
    ensures WeightAll(w, s + t) == WeightAll(w, t) + WeightAll(w, s)
    decreases |t|
  {
    if t == [] {
      assert s + t == s;
    } else {
      var n := |t| - 1;
      assert (s + t)[..|s + t| - 1] == s + t[..n];
      AllConcat(w, s, t[..n]);
    }
  }

  // ---------- The program ----------

  class FileEnumerator {
    const walk: Walk
    var dirEntries: seq<Entry>
    var currentDirEntry: nat
    var rootPath: string
    /** A stack; its top is the last element. */
    var pendingPaths: seq<string>

    constructor WithoutPattern(rootPath: string, walk: Walk)
      requires CleanNames(walk)
      ensures this.walk == walk.(pattern := "") && CleanNames(this.walk)
      ensures Remaining() == Subtree(this.walk, rootPath)
    {
      this.walk, this.rootPath := walk.(pattern := ""), rootPath;
      dirEntries, currentDirEntry, pendingPaths := [], 0, [rootPath];
      new;
      OneInStack(this.walk, rootPath);
    }

    constructor (rootPath: string, walk: Walk, pattern: string)
      requires CleanNames(walk)
      ensures this.walk == walk.(pattern := FullPattern(rootPath, pattern)) && CleanNames(this.walk)
      ensures pattern == "" ==> this.walk.pattern == ""
      ensures Remaining() == Subtree(this.walk, rootPath)
    {
      var full := AppendPath(rootPath, pattern);
      if pattern == "" {
        full := "";
      }
      this.walk, this.rootPath := walk.(pattern := full), rootPath;
      dirEntries, currentDirEntry, pendingPaths := [], 0, [rootPath];
      new;
      OneInStack(this.walk, rootPath);
    }

    /** What is still to be returned. */
    ghost function Remaining(): seq<string>
      requires CleanNames(walk)
      reads this
    {
      Paths(rootPath, From(dirEntries, currentDirEntry + 1)) + SubtreeAll(walk, pendingPaths)
    }

    /** Returns the next path, or the empty path when there is none, then and ever after. */
    method Next() returns (r: string)
      requires CleanNames(walk)
      modifies this
      ensures old(Remaining()) == [] ==> r == "" && Remaining() == []
      ensures old(Remaining()) != [] ==> r == old(Remaining())[0] && Remaining() == old(Remaining())[1..]
    {
      hide SubtreeAll, WeightAll, AppendPath, Paths;
      NoPaths();
      EmptyStack(walk);
      ghost var todo := Remaining();
      currentDirEntry := currentDirEntry + 1;
      while currentDirEntry >= |dirEntries|
        invariant todo == Ahead()
        decreases WeightAll(walk, pendingPaths)
      {
        if pendingPaths == [] {
          return "";
        }
        ReadNext();
      }
      r := AppendPath(rootPath, dirEntries[currentDirEntry].name);
      FirstPath(rootPath, dirEntries, currentDirEntry);
      assert Ahead() == [r] + Remaining();
    }

    /** What is to be returned from the current entry on. */
    ghost function Ahead(): seq<string>
      requires CleanNames(walk)
      reads this
    {
      Paths(rootPath, From(dirEntries, currentDirEntry)) + SubtreeAll(walk, pendingPaths)
    }

    /** The body of the loop: takes a directory off the stack and reads it, if it can be opened. */
    method ReadNext()
      requires CleanNames(walk) && currentDirEntry >= |dirEntries| && pendingPaths != []
      modifies this
      ensures Ahead() == old(Ahead())
      ensures WeightAll(walk, pendingPaths) < old(WeightAll(walk, pendingPaths))
    {
      hide Strip, Descended, Shown, SubtreeAll, Subtree, WeightAll, Paths;
      NoPaths();
      var top, rest := pendingPaths[|pendingPaths| - 1], pendingPaths[..|pendingPaths| - 1];
      PopStack(walk, pendingPaths);
      rootPath := Strip(top);
      pendingPaths := rest;
      if rootPath !in walk.fs {
        return;
      }
      var entries := walk.fs[rootPath];
      ReadEntries(entries, rest);
      assert From(dirEntries, 0) == dirEntries;
      AllConcat(walk, rest, Descended(walk, rootPath, entries));
    }

    /** Sorts the entries of a listing into those to return and those to read. */
    method ReadEntries(entries: seq<Entry>, ghost rest: seq<string>)
      requires pendingPaths == rest
      modifies `dirEntries, `currentDirEntry, `pendingPaths
      ensures dirEntries == Shown(walk, rootPath, entries) && currentDirEntry == 0
      ensures pendingPaths == rest + Descended(walk, rootPath, entries)
    {
      hide AppendPath, Skipped, Shown, Descended;
      NoEntries(walk, rootPath);
      dirEntries, currentDirEntry := [], 0;
      for i := 0 to |entries|
        invariant dirEntries == Shown(walk, rootPath, entries[..i]) && currentDirEntry == 0
        invariant pendingPaths == rest + Descended(walk, rootPath, entries[..i])
      {
        OneMoreEntry(walk, rootPath, entries, i);
        var fullPath := AppendPath(rootPath, entries[i].name);
        if Skipped(walk, fullPath) {
          continue;
        }
        if walk.pattern != "" && !walk.matches(walk.pattern, fullPath) {
          continue;
        }
        if walk.recursive && entries[i].isDirectory {
          pendingPaths := pendingPaths + [fullPath];
        }
        if (entries[i].isDirectory && walk.directories) || (!entries[i].isDirectory && walk.files) {
          dirEntries := dirEntries + [entries[i]];
        }
      }
      assert entries[..|entries|] == entries;
    }
  }

  lemma NoPaths()
    ensures forall d :: Paths(d, []) == []
  {
  }

  /** The top of the stack comes first. */
  lemma PopStack(w: Walk, stack: seq<string>)
    requires CleanNames(w) && stack != []
    ensures var top, rest, dir := stack[|stack| - 1], stack[..|stack| - 1], Strip(stack[|stack| - 1]);
      && (dir !in w.fs ==> SubtreeAll(w, stack) == SubtreeAll(w, rest) && WeightAll(w, stack) == 1 + WeightAll(w, rest))
      && (dir in w.fs ==>
            var down := Descended(w, dir, w.fs[dir]);
            && SubtreeAll(w, stack)
               == Paths(dir, Shown(w, dir, w.fs[dir])) + (SubtreeAll(w, down) + SubtreeAll(w, rest))
            && WeightAll(w, stack) == 1 + WeightAll(w, down) + WeightAll(w, rest))
  {
    hide Descended, Shown, Paths, Height, MaxHeight;
  }

  lemma NoEntries(w: Walk, dir: string)
    ensures Shown(w, dir, []) == [] && Descended(w, dir, []) == []
  {
  }

  lemma OneMoreEntry(w: Walk, dir: string, listing: seq<Entry>, i: nat)
    requires i < |listing|
    ensures Shown(w, dir, listing[..i + 1])
         == Shown(w, dir, listing[..i]) + (if Wanted(w, dir, listing[i]) then [listing[i]] else [])
    ensures Descended(w, dir, listing[..i + 1]) == Descended(w, dir, listing[..i])
      + (if IsDescended(w, dir, listing[i]) then [AppendPath(dir, listing[i].name)] else [])
  {
    hide Wanted, Passes, AppendPath;
    assert listing[..i + 1][..i] == listing[..i];
  }

  lemma EmptyStack(w: Walk)
    requires CleanNames(w)
    ensures SubtreeAll(w, []) == []
  {
  }

  lemma FirstPath(dir: string, entries: seq<Entry>, i: nat)
    requires i < |entries|
    ensures Paths(dir, From(entries, i)) == [AppendPath(dir, entries[i].name)] + Paths(dir, From(entries, i + 1))
  {
  }

  lemma OneInStack(w: Walk, path: string)
    requires CleanNames(w)
    ensures SubtreeAll(w, [path]) == Subtree(w, path)
  {
    assert [path][..0] == [];
  }
}
