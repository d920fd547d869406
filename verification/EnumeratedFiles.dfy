/** What the walk of `FileEnumerator` returns: every wanted entry of every directory it gets to, and
    each of them once. */
module EnumeratedFiles {
  import opened Basics
  import opened Search
  import opened FilePaths
  import opened FileEnumerators

  // ---------- Every wanted entry ----------

  /** The walk from `root` gets to `dir`: through directories that are not skipped and match. */
  ghost predicate Visited(w: Walk, root: string, dir: string)
    requires CleanNames(w)
    decreases Height(w, root)
  {
    Strip(root) in w.fs &&
    (dir == Strip(root) ||
     (DescendedLower(w, root, Listing(w, root));
      exists i :: 0 <= i < |Subdirectories(w, root)| && Visited(w, Subdirectories(w, root)[i], dir)))
  }

  ghost predicate IsEntryOf(w: Walk, dir: string, path: string) {
    dir in w.fs &&
    exists i :: 0 <= i < |w.fs[dir]| && Wanted(w, dir, w.fs[dir][i]) && path == AppendPath(dir, w.fs[dir][i].name)
  }

  lemma {:induction false} ShownEntries(w: Walk, dir: string, listing: seq<Entry>, path: string)
    ensures path in Paths(dir, Shown(w, dir, listing)) <==>
      exists i :: 0 <= i < |listing| && Wanted(w, dir, listing[i]) && path == AppendPath(dir, listing[i].name)
    decreases |listing|
  {
    hide AppendPath, Wanted;
    if listing != [] {
      var n := |listing| - 1;
      var before, e := listing[..n], listing[n];
      ShownEntries(w, dir, before, path);
      assert forall i :: 0 <= i < n ==> before[i] == listing[i];
      PathsConcat(dir, Shown(w, dir, before), if Wanted(w, dir, e) then [e] else []);
      OnePath(dir, e);
    }
  }

  lemma PathsConcat(dir: string, s: seq<Entry>, t: seq<Entry>)
    ensures Paths(dir, s + t) == Paths(dir, s) + Paths(dir, t)
  {
  }

  lemma OnePath(dir: string, e: Entry)
    ensures Paths(dir, [e]) == [AppendPath(dir, e.name)] && Paths(dir, []) == []
  {
  }

  lemma {:induction false} InStack(w: Walk, stack: seq<string>, path: string)
    requires CleanNames(w)
    ensures path in SubtreeAll(w, stack) <==> exists i :: 0 <= i < |stack| && path in Subtree(w, stack[i])
    decreases |stack|
  {
    hide Subtree;
    if stack != [] {
      var n := |stack| - 1;
      InStack(w, stack[..n], path);
      assert forall i :: 0 <= i < n ==> stack[..n][i] == stack[i];
    }
  }

  ghost predicate IsResult(w: Walk, root: string, path: string)
    requires CleanNames(w)
  {
    exists dir :: Visited(w, root, dir) && IsEntryOf(w, dir, path)
  }

  /** A path is returned if and only if it is a wanted entry of a visited directory. */
  lemma {:induction false} ReturnsExactlyTheWanted(w: Walk, root: string, path: string)
    requires CleanNames(w)
    ensures path in Subtree(w, root) <==> IsResult(w, root, path)
    decreases Height(w, root)
  {
    hide AppendPath, Wanted, Strip, Descended, Shown;
    var dir := Strip(root);
    if dir in w.fs {
      var down := Subdirectories(w, root);
      ShownEntries(w, dir, w.fs[dir], path);
      InStack(w, down, path);
      DescendedLower(w, root, Listing(w, root));
      forall i | 0 <= i < |down|
        ensures path in Subtree(w, down[i]) <==> IsResult(w, down[i], path)
      {
        ReturnsExactlyTheWanted(w, down[i], path);
      }
      assert path in Paths(dir, Shown(w, dir, w.fs[dir])) <==> IsEntryOf(w, dir, path);
      ResultStep(w, root, path);
    }
  }

  lemma ResultStep(w: Walk, root: string, path: string)
    requires CleanNames(w) && Strip(root) in w.fs
    ensures IsResult(w, root, path) <==>
      IsEntryOf(w, Strip(root), path) ||
      exists i :: 0 <= i < |Subdirectories(w, root)| && IsResult(w, Subdirectories(w, root)[i], path)
  {
    hide IsEntryOf, Strip, Descended;
    var down := Subdirectories(w, root);
    if IsResult(w, root, path) {
      var dir :| Visited(w, root, dir) && IsEntryOf(w, dir, path);
      if dir != Strip(root) {
        var i :| 0 <= i < |down| && Visited(w, down[i], dir);
        assert IsResult(w, down[i], path);
      }
    }
    if IsEntryOf(w, Strip(root), path) {
      assert Visited(w, root, Strip(root));
    }
    if i :| 0 <= i < |down| && IsResult(w, down[i], path) {
      var dir :| Visited(w, down[i], dir) && IsEntryOf(w, dir, path);
      assert Visited(w, root, dir);
    }
  }

  // ---------- Once ----------

  ghost predicate DistinctNames(listing: seq<Entry>) {
    forall i, j :: 0 <= i < j < |listing| ==> listing[i].name != listing[j].name
  }

  ghost predicate AllDistinct(w: Walk) {
    forall p :: p in w.fs ==> DistinctNames(w.fs[p])
  }

  ghost predicate NoRepeats<T>(s: seq<T>) {
    forall i, j :: 0 <= i < j < |s| ==> s[i] != s[j]
  }

  lemma NoRepeatsConcat<T>(s: seq<T>, t: seq<T>)
    requires NoRepeats(s) && NoRepeats(t) && forall x :: x in s ==> x !in t
    ensures NoRepeats(s + t)
  {
    var u := s + t;
    forall i, j | 0 <= i < j < |u|
      ensures u[i] != u[j]
    {
      if i < |s| <= j {
        assert u[i] == s[i] && s[i] in s && u[j] == t[j - |s|] && t[j - |s|] in t;
      }
    }
  }

  /** The first component of a relative path. */
  function FirstName(path: string): string {
    match FindChar(path, SEPARATOR, 0)
    case None => path
    case Some(k) => path[..k]
  }

  lemma {:induction false} FirstNameIs(name: string, from: nat, rest: string)
    requires SEPARATOR !in name && from <= |name|
    ensures FindChar(name + "/" + rest, SEPARATOR, from) == Some(|name|)
    decreases |name| - from
  {
    if from < |name| {
      assert (name + "/" + rest)[from] == name[from] && name[from] in name;
      FirstNameIs(name, from + 1, rest);
    }
  }

  /** `path` lies below the entry `name` of `dir`. */
  predicate Below(dir: string, name: string, path: string) {
    Prefix(dir) <= path && FirstName(path[|Prefix(dir)|..]) == name && |path| > |Prefix(dir) + name|
  }

  lemma BelowEntry(dir: string, name: string, path: string)
    requires CleanName(name) && Prefix(dir) + name + "/" <= path
    ensures Below(dir, name, path)
  {
    var p := Prefix(dir) + name + "/";
    var rest := path[|p|..];
    assert path == p + rest;
    assert path[|Prefix(dir)|..] == name + "/" + rest;
    FirstNameIs(name, 0, rest);
    assert (name + "/" + rest)[..|name|] == name;
  }

  /** What is below an entry is not an entry. */
  lemma EntryNotBelow(dir: string, name: string, other: string)
    requires CleanName(name)
    ensures !Below(dir, other, Prefix(dir) + name)
  {
    var path := Prefix(dir) + name;
    assert path[|Prefix(dir)|..] == name;
    assert forall i :: 0 <= i < |name| ==> name[i] in name;
  }

  /** The child of an entry, as pushed on the stack. */
  lemma ChildPrefix(w: Walk, path: string, e: Entry)
    requires CleanName(e.name) && Passes(w, Strip(path), e)
    ensures var c := AppendPath(Strip(path), e.name);
      c == Prefix(Strip(path)) + e.name && Strip(c) == c && Prefix(c) == c + "/"
  {
    hide Strip, LastSeparator, AppendPath, BaseNameOf;
    var dir := Strip(path);
    StripIdempotent(path);
    EntryPath(dir, e.name);
    var c := Prefix(dir) + e.name;
    assert BaseNameOf(c) != ".";
    assert c[|c| - 1] == e.name[|e.name| - 1] && e.name[|e.name| - 1] in e.name;
    DotIsItsBase();
  }

  lemma DotIsItsBase()
    ensures BaseNameOf(".") == "."
  {
    CoreIs(".", 1);
  }

  /** Every path returned from a directory on starts with that directory. */
  lemma {:induction false} ResultsStartWith(w: Walk, root: string)
    requires CleanNames(w)
    ensures forall x :: x in Subtree(w, root) ==> Prefix(Strip(root)) <= x
    decreases Height(w, root), 1
  {
    hide AppendPath, Strip, Wanted, Passes, Height;
    var dir := Strip(root);
    if dir in w.fs {
      var listing := w.fs[dir];
      StripIdempotent(root);
      forall x | x in Paths(dir, Shown(w, dir, listing))
        ensures Prefix(dir) <= x
      {
        ShownEntries(w, dir, listing, x);
        var i :| 0 <= i < |listing| && Wanted(w, dir, listing[i]) && x == AppendPath(dir, listing[i].name);
        EntryPath(dir, listing[i].name);
      }
      DownBelow(w, root, |listing|);
      assert listing[..|listing|] == listing && Down(w, root, |listing|) == Subdirectories(w, root);
    }
  }

  /** The directories of the first `k` entries of a listing. */
  ghost function Down(w: Walk, root: string, k: nat): seq<string>
    requires CleanNames(w) && Strip(root) in w.fs && k <= |w.fs[Strip(root)]|
  {
    Descended(w, Strip(root), w.fs[Strip(root)][..k])
  }

  lemma {:induction false} DownBelow(w: Walk, root: string, k: nat)
    requires CleanNames(w) && Strip(root) in w.fs && k <= |w.fs[Strip(root)]|
    ensures forall x :: x in SubtreeAll(w, Down(w, root, k)) ==>
      exists i :: 0 <= i < k && Below(Strip(root), w.fs[Strip(root)][i].name, x)
    ensures forall x :: x in SubtreeAll(w, Down(w, root, k)) ==> Prefix(Strip(root)) <= x
    decreases Height(w, root), 0, k
  {
    hide AppendPath, Strip, Passes, Height, Below, Subtree;
    if k > 0 {
      var dir := Strip(root);
      var listing, e := w.fs[dir], w.fs[dir][k - 1];
      DownBelow(w, root, k - 1);
      DownStep(w, root, k);
      if IsDescended(w, dir, e) {
        ChildIsLower(w, root, e);
        ChildPrefix(w, root, e);
        var c := AppendPath(dir, e.name);
        ResultsStartWith(w, c);
        forall x | x in Subtree(w, c)
          ensures Below(dir, e.name, x) && Prefix(dir) <= x
        {
          BelowEntry(dir, e.name, x);
          assert Prefix(dir) <= Prefix(dir) + e.name + "/" <= x;
        }
      }
    }
  }

  lemma DownStep(w: Walk, root: string, k: nat)
    requires CleanNames(w) && Strip(root) in w.fs && 0 < k <= |w.fs[Strip(root)]|
    ensures var e, dir := w.fs[Strip(root)][k - 1], Strip(root);
      SubtreeAll(w, Down(w, root, k)) ==
        (if IsDescended(w, dir, e) then Subtree(w, AppendPath(dir, e.name)) else [])
        + SubtreeAll(w, Down(w, root, k - 1))
  {
    hide AppendPath, Strip, Passes, Subtree, Height;
    var listing := w.fs[Strip(root)];
    assert listing[..k][..k - 1] == listing[..k - 1] && listing[..k][k - 1] == listing[k - 1];
    var e, before := listing[k - 1], Down(w, root, k - 1);
    if IsDescended(w, Strip(root), e) {
      var c := AppendPath(Strip(root), e.name);
      AllConcat(w, before, [c]);
      OneInStack(w, c);
    } else {
      assert before + [] == before;
    }
  }

  lemma {:induction false} ShownOnce(w: Walk, dir: string, listing: seq<Entry>)
    requires Strip(dir) == dir && DistinctNames(listing)
    requires forall i :: 0 <= i < |listing| ==> CleanName(listing[i].name)
    ensures NoRepeats(Paths(dir, Shown(w, dir, listing)))
    decreases |listing|
  {
    hide AppendPath, Strip, Wanted, Paths;
    if listing == [] {
      OnePath(dir, Entry("", false));
    } else {
      var n := |listing| - 1;
      var before, e := listing[..n], listing[n];
      ShownOnce(w, dir, before);
      PathsConcat(dir, Shown(w, dir, before), if Wanted(w, dir, e) then [e] else []);
      OnePath(dir, e);
      forall x | x in Paths(dir, Shown(w, dir, before))
        ensures x != AppendPath(dir, e.name)
      {
        ShownEntries(w, dir, before, x);
        var i :| 0 <= i < n && Wanted(w, dir, before[i]) && x == AppendPath(dir, before[i].name);
        EntryPath(dir, e.name);
        EntryPath(dir, before[i].name);
        assert before[i] == listing[i];
        assert (Prefix(dir) + e.name)[|Prefix(dir)|..] == e.name;
        assert (Prefix(dir) + before[i].name)[|Prefix(dir)|..] == before[i].name;
      }
      NoRepeatsConcat(Paths(dir, Shown(w, dir, before)), if Wanted(w, dir, e) then [AppendPath(dir, e.name)] else []);
    }
  }

  lemma {:induction false} DownOnce(w: Walk, root: string, k: nat)
    requires CleanNames(w) && AllDistinct(w) && Strip(root) in w.fs && k <= |w.fs[Strip(root)]|
    ensures NoRepeats(SubtreeAll(w, Down(w, root, k)))
    decreases Height(w, root), 0, k
  {
    hide AppendPath, Strip, Passes, Height, Below, Subtree, Descended, Prefix;
    if k == 0 {
      assert w.fs[Strip(root)][..0] == [];
      NothingDown(w, root);
    } else {
      var dir := Strip(root);
      var listing, e := w.fs[dir], w.fs[dir][k - 1];
      DownOnce(w, root, k - 1);
      DownStep(w, root, k);
      if IsDescended(w, dir, e) {
        var c := AppendPath(dir, e.name);
        ChildIsLower(w, root, e);
        ReturnsOnce(w, c);
        ChildPrefix(w, root, e);
        ResultsStartWith(w, c);
        DownBelow(w, root, k - 1);
        forall x | x in Subtree(w, c)
          ensures x !in SubtreeAll(w, Down(w, root, k - 1))
        {
          BelowEntry(dir, e.name, x);
          OnlyOneName(dir, listing, k, x);
        }
        NoRepeatsConcat(Subtree(w, c), SubtreeAll(w, Down(w, root, k - 1)));
      } else {
        assert [] + SubtreeAll(w, Down(w, root, k - 1)) == SubtreeAll(w, Down(w, root, k - 1));
      }
    }
  }

  lemma OnlyOneName(dir: string, listing: seq<Entry>, k: nat, x: string)
    requires DistinctNames(listing) && 0 < k <= |listing| && Below(dir, listing[k - 1].name, x)
    ensures forall i :: 0 <= i < k - 1 ==> !Below(dir, listing[i].name, x)
  {
  }

  lemma NothingDown(w: Walk, root: string)
    requires CleanNames(w) && Strip(root) in w.fs
    ensures SubtreeAll(w, Down(w, root, 0)) == []
  {
  }

  /** No path is returned twice. */
  lemma {:induction false} ReturnsOnce(w: Walk, root: string)
    requires CleanNames(w) && AllDistinct(w)
    ensures NoRepeats(Subtree(w, root))
    decreases Height(w, root), 1
  {
    hide AppendPath, Strip, Wanted, Passes, Height, Descended, Shown, Below, SubtreeAll;
    var dir := Strip(root);
    if dir in w.fs {
      var listing := w.fs[dir];
      StripIdempotent(root);
      ShownOnce(w, dir, listing);
      DownOnce(w, root, |listing|);
      DownBelow(w, root, |listing|);
      assert listing[..|listing|] == listing;
      forall x | x in Paths(dir, Shown(w, dir, listing))
        ensures x !in SubtreeAll(w, Subdirectories(w, root))
      {
        ShownEntries(w, dir, listing, x);
        var i :| 0 <= i < |listing| && Wanted(w, dir, listing[i]) && x == AppendPath(dir, listing[i].name);
        EntryPath(dir, listing[i].name);
        forall other
          ensures !Below(dir, other, x)
        {
          EntryNotBelow(dir, listing[i].name, other);
        }
      }
      NoRepeatsConcat(Paths(dir, Shown(w, dir, listing)), SubtreeAll(w, Subdirectories(w, root)));
    }
  }
}
