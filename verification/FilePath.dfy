/** The path algebra of kwctoolkit/file/file_path.cc, on systems with the separator '/'. */
module FilePaths {
  import opened Basics
  import opened Search

  const SEPARATOR: char := '/'
  const CURRENT_DIRECTORY: string := "."

  // ---------- The operations as functions of path strings ----------

  /** The path without any trailing separator. */
  function Core(p: string): (r: string)
    ensures |r| <= |p| && r == p[..|r|] && (forall i :: |r| <= i < |p| ==> p[i] == SEPARATOR)
    ensures r != "" ==> r[|r| - 1] != SEPARATOR
  {
    if p == "" || p[|p| - 1] != SEPARATOR then p else Core(p[..|p| - 1])
  }

  /** A path of separators only is a root: "//" is kept, since it may mean something else than "/". */
  function Strip(p: string): string {
    if Core(p) != "" then Core(p) else if |p| > 2 then "/" else p
  }

  function LastSeparator(p: string): (r: Option<nat>)
    ensures r.Some? ==> r.value < |p| && p[r.value] == SEPARATOR && SEPARATOR !in p[r.value + 1..]
    ensures r.None? ==> SEPARATOR !in p
  {
    if p == "" then None
    else if p[|p| - 1] == SEPARATOR then Some(|p| - 1)
    else LastSeparator(p[..|p| - 1])
  }

  function AppendPath(p: string, component: string): string {
    var appended := CString(component);
    if p == CURRENT_DIRECTORY then appended
    else
      var q := Strip(p);
      var separator := if appended != "" && q != "" && q[|q| - 1] != SEPARATOR then "/" else "";
      q + separator + appended
  }

  function BaseNameOf(p: string): string {
    var q := Strip(p);
    match LastSeparator(q)
    case None => q
    case Some(k) => if k < |q| - 1 then q[k + 1..] else q
  }

  /** What is left of a stripped path without its last component. */
  function Parent(q: string): string {
    match LastSeparator(q)
    case None => ""
    case Some(k) => if k == 0 then q[..1] else if k == 1 && q[0] == SEPARATOR then q[..2] else q[..k]
  }

  function DirectoryNameOf(p: string): string {
    var q := Strip(Parent(Strip(p)));
    if q == "" then CURRENT_DIRECTORY else q
  }

  lemma {:induction false} CoreIs(p: string, n: nat)
    requires n <= |p| && (forall i :: n <= i < |p| ==> p[i] == SEPARATOR) && (n == 0 || p[n - 1] != SEPARATOR)
    ensures Core(p) == p[..n]
    decreases |p|
  {
    if n < |p| {
      CoreIs(p[..|p| - 1], n);
    } else {
      assert p[..n] == p;
    }
  }

  /** Where the loop of the program stops, except on "//". */
  lemma StripIs(p: string, n: nat)
    requires n <= |p| && (forall i :: n <= i < |p| ==> p[i] == SEPARATOR) && p != "//"
    requires n > 1 ==> p[n - 1] != SEPARATOR
    requires n == 0 ==> p == ""
    ensures Strip(p) == p[..n]
  {
    CoreIs(p, if n > 0 && p[n - 1] == SEPARATOR then n - 1 else n);
  }

  // ---------- Stripping ----------

  lemma StripIdempotent(p: string)
    ensures Strip(Strip(p)) == Strip(p)
  {
    if Core(p) != "" {
      CoreIs(Core(p), |Core(p)|);
      assert Core(p)[..|Core(p)|] == Core(p);
    } else if |p| > 2 {
      CoreIs("/", 0);
    }
  }

  /** Only trailing separators go. */
  lemma StripOnlySeparators(p: string)
    ensures Strip(p) <= p && forall i :: |Strip(p)| <= i < |p| ==> p[i] == SEPARATOR
    ensures Strip(p) == "" <==> p == ""
    ensures Strip(p) != "" && Strip(p)[|Strip(p)| - 1] == SEPARATOR ==> Strip(p) == "/" || Strip(p) == "//"
  {
    var c := Core(p);
    if c == "" && p != "" {
      assert p[0] == SEPARATOR;
      assert |p| == 1 ==> p == "/";
      assert |p| == 2 ==> p == "//";
    }
  }

  lemma StripNothing(p: string)
    requires p != "" && p[|p| - 1] != SEPARATOR
    ensures Strip(p) == p
  {
    CoreIs(p, |p|);
    assert p[..|p|] == p;
  }

  // ---------- Going up ----------

  predicate IsTop(p: string) {
    p == CURRENT_DIRECTORY || p == "/" || p == "//"
  }

  /** Decreases from every path that is not a top to its directory. */
  function Rank(p: string): nat {
    if p == CURRENT_DIRECTORY then 0 else |p| + 1
  }

  lemma ParentShorter(q: string)
    ensures |Parent(q)| <= |q| && Parent(q) <= q
    ensures |Parent(q)| == |q| ==> q == "" || q == "/" || q == "//"
  {
    var k := LastSeparator(q);
    if k.Some? && |Parent(q)| == |q| {
      assert k.value == 0 ==> q == "/";
      assert k.value == 1 ==> q == "//";
    }
  }

  /** The tops are their own directories; every other path is above its directory in rank. */
  lemma DirectoryNameGoesUp(p: string)
    ensures DirectoryNameOf(p) == p <==> IsTop(p)
    ensures DirectoryNameOf(p) != p ==> Rank(DirectoryNameOf(p)) < Rank(p)
  {
    var q := Strip(p);
    var r := Parent(q);
    StripOnlySeparators(p);
    ParentShorter(q);
    StripOnlySeparators(r);
    if IsTop(p) {
      TopIsFixed(p);
    }
  }

  lemma TopIsFixed(p: string)
    requires IsTop(p)
    ensures DirectoryNameOf(p) == p
  {
    CoreIs("/", 0);
    CoreIs("//", 0);
    CoreIs(".", 1);
    CoreIs("", 0);
  }

  // ---------- Taking apart and putting together ----------

  /** No trailing separator; and the last component is directly under a root, or its separator
      follows neither another one nor a lone ".". */
  predicate Rejoins(p: string) {
    p == "" ||
    (p[|p| - 1] != SEPARATOR &&
     match LastSeparator(p)
     case None => true
     case Some(k) => k == 0 || (k == 1 && p[0] == SEPARATOR) || (p[k - 1] != SEPARATOR && p[..k] != CURRENT_DIRECTORY))
  }

  function Rejoined(p: string): string {
    AppendPath(DirectoryNameOf(p), BaseNameOf(p))
  }

  /** Directory and base name make up the path again exactly for these paths. */
  lemma {:induction false} RejoinIff(p: string)
    requires '\0' !in p
    ensures Rejoined(p) == p <==> Rejoins(p)
  {
    hide Core, Strip, LastSeparator, CString, AppendPath, DirectoryNameOf, BaseNameOf, Rejoined;
    var s := Strip(p);
    StripOnlySeparators(p);
    StripIdempotent(p);
    if p == "" {
      RejoinNothing();
    } else if s[|s| - 1] == SEPARATOR {
      RejoinRoot(p);
    } else {
      StripNothing(s);
      RejoinedOfStripped(p);
      RejoinStripped(s);
      if p[|p| - 1] != SEPARATOR {
        StripNothing(p);
      }
    }
  }

  lemma RejoinNothing()
    ensures Rejoined("") == ""
  {
    CoreIs("", 0);
  }

  /** Trailing separators make no difference to the parts. */
  lemma RejoinedOfStripped(p: string)
    ensures Rejoined(p) == Rejoined(Strip(p))
  {
    hide Strip, Parent, LastSeparator, AppendPath;
    StripIdempotent(p);
  }

  lemma RejoinRoot(p: string)
    requires Strip(p) == "/" || Strip(p) == "//"
    ensures Rejoined(p) != p && !Rejoins(p)
  {
    StripOnlySeparators(p);
    TopIsFixed("/");
    TopIsFixed("//");
    CoreIs("/", 0);
    CoreIs("//", 0);
    assert LastSeparator("/") == Some(0) && LastSeparator("//") == Some(1);
    assert CString("/") == "/" by { CStringNoNul("/"); }
    assert CString("//") == "//" by { CStringNoNul("//"); }
  }

  /** The parts of a path whose last separator is at `k`. */
  lemma Parts(s: string, k: nat)
    requires k + 1 < |s| && s[k] == '/'
    ensures s == s[..k] + "/" + s[k + 1..] && s[k + 1..] != ""
  {
    assert s == s[..k] + ([s[k]] + s[k + 1..]);
  }

  lemma BaseOfParts(s: string, k: nat)
    requires s != "" && s[|s| - 1] != SEPARATOR && LastSeparator(s) == Some(k)
    ensures BaseNameOf(s) == s[k + 1..]
  {
    hide Strip, LastSeparator;
    StripNothing(s);
  }

  lemma DirectoryOfParts(s: string, k: nat)
    requires s != "" && s[|s| - 1] != SEPARATOR && LastSeparator(s) == Some(k)
    ensures DirectoryNameOf(s) == if k == 0 then "/" else if k == 1 && s[0] == SEPARATOR then "//" else Strip(s[..k])
  {
    hide Strip, LastSeparator;
    StripNothing(s);
    StripRoots();
    assert k == 0 ==> s[..1] == "/";
    assert k == 1 && s[0] == SEPARATOR ==> s[..2] == "//";
    StripOnlySeparators(s[..k]);
  }

  lemma StripRoots()
    ensures Strip("/") == "/" && Strip("//") == "//"
  {
    CoreIs("/", 0);
    CoreIs("//", 0);
  }

  lemma AppendBase(dir: string, base: string)
    requires '\0' !in base && base != "" && dir != ""
    ensures AppendPath(dir, base) ==
      if dir == CURRENT_DIRECTORY then base
      else Strip(dir) + (if Strip(dir)[|Strip(dir)| - 1] == SEPARATOR then "" else "/") + base
  {
    CStringNoNul(base);
    StripOnlySeparators(dir);
  }

  lemma RejoinStripped(s: string)
    requires s != "" && s[|s| - 1] != SEPARATOR && '\0' !in s
    ensures if Rejoins(s) then Rejoined(s) == s else |Rejoined(s)| < |s|
  {
    hide Strip, DirectoryNameOf, BaseNameOf, AppendPath;
    match LastSeparator(s)
    case None => RejoinAlone(s);
    case Some(k) =>
      Parts(s, k);
      BaseOfParts(s, k);
      DirectoryOfParts(s, k);
      if k == 0 || (k == 1 && s[0] == SEPARATOR) {
        RejoinUnderRoot(s, k, s[k + 1..]);
      } else {
        RejoinInside(s[..k], s[k + 1..]);
      }
  }

  lemma RejoinInside(dir: string, base: string)
    requires dir != "" && dir != "/" && base != "" && '\0' !in base
    ensures var r := AppendPath(Strip(dir), base);
      if dir[|dir| - 1] != SEPARATOR && dir != CURRENT_DIRECTORY then r == dir + "/" + base
      else |r| < |dir| + 1 + |base|
  {
    hide Strip, AppendPath;
    StripOnlySeparators(dir);
    StripIdempotent(dir);
    AppendBase(Strip(dir), base);
    if dir[|dir| - 1] != SEPARATOR {
      StripNothing(dir);
    }
  }

  lemma RejoinAlone(s: string)
    requires SEPARATOR !in s && s != "" && '\0' !in s
    ensures Rejoined(s) == s
  {
    StripNothing(s);
    CStringNoNul(s);
    CoreIs("", 0);
    assert LastSeparator(s).None?;
  }

  lemma RejoinUnderRoot(s: string, k: nat, base: string)
    requires k <= 1 && k < |s| && s[k] == SEPARATOR && (k == 1 ==> s[0] == SEPARATOR) && base == s[k + 1..]
    requires '\0' !in base && base != ""
    ensures AppendPath(if k == 0 then "/" else "//", base) == s
  {
    CoreIs("/", 0);
    CoreIs("//", 0);
    CStringNoNul(base);
    assert s == (if k == 0 then "/" else "//") + base;
  }

  // ---------- What the parts are ----------

  predicate AllSeparators(p: string) {
    forall i :: 0 <= i < |p| ==> p[i] == '/'
  }

  /** A path of separators only is stripped to at most two of them; any other to where it last does
      not end with one. */
  lemma StripExactly(p: string)
    ensures AllSeparators(p) ==> Strip(p) == if p == "" then "" else if |p| == 2 then "//" else "/"
    ensures !AllSeparators(p) ==>
      var s := Strip(p);
      s != "" && s <= p && s[|s| - 1] != '/' && AllSeparators(p[|s|..])
  {
    StripOnlySeparators(p);
    if AllSeparators(p) {
      assert Core(p) == "";
      assert |p| == 1 ==> p == "/";
      assert |p| == 2 ==> p == "//";
    } else {
      assert Core(p) != "";
    }
  }

  /** The base name of such a path is what is left of it; that of any other is not empty, holds no
      separator, and is what follows the last one of the stripped path. */
  lemma BaseNameExactly(p: string)
    ensures AllSeparators(p) ==> BaseNameOf(p) == Strip(p)
    ensures !AllSeparators(p) ==>
      var s, b := Strip(p), BaseNameOf(p);
      var k := |s| - |b|;
      b != "" && '/' !in b && k >= 0 && s[k..] == b && (k == 0 || s[k - 1] == '/')
  {
    hide Strip;
    StripExactly(p);
  }

  /** The directory of a path that has no separator is ".", as is that of the empty path; a root is its
      own directory; any other ends before the last separator, if that is not a root's. */
  lemma DirectoryNameExactly(p: string)
    ensures p == "" ==> DirectoryNameOf(p) == "."
    ensures p != "" && AllSeparators(p) ==> DirectoryNameOf(p) == Strip(p)
    ensures !AllSeparators(p) ==>
      var s := Strip(p);
      var k := |s| - |BaseNameOf(p)|;
      DirectoryNameOf(p) ==
        if k <= 0 then "." else if k == 1 then "/" else if k == 2 && s[0] == '/' then "//" else Strip(s[..k - 1])
  {
    hide Core, LastSeparator, Strip;
    StripExactly(p);
    StripIdempotent(p);
    if AllSeparators(p) {
      RootsAndNothing();
    } else {
      DirectoryOfStripped(Strip(p));
      assert DirectoryNameOf(Strip(p)) == DirectoryNameOf(p) && BaseNameOf(Strip(p)) == BaseNameOf(p);
    }
  }

  lemma RootsAndNothing()
    ensures DirectoryNameOf("") == "." && DirectoryNameOf("/") == "/" && DirectoryNameOf("//") == "//"
  {
    TopIsFixed("/");
    TopIsFixed("//");
    CoreIs("", 0);
  }

  lemma DirectoryOfStripped(s: string)
    requires s != "" && s[|s| - 1] != '/'
    ensures var k := |s| - |BaseNameOf(s)|;
      DirectoryNameOf(s) ==
        if k <= 0 then "." else if k == 1 then "/" else if k == 2 && s[0] == '/' then "//" else Strip(s[..k - 1])
  {
    hide Core, LastSeparator, Strip, DirectoryNameOf, BaseNameOf;
    match LastSeparator(s)
    case None => NameAlone(s);
    case Some(k) =>
      BaseOfParts(s, k);
      DirectoryOfParts(s, k);
  }

  lemma NameAlone(s: string)
    requires s != "" && s[|s| - 1] != '/' && LastSeparator(s).None?
    ensures BaseNameOf(s) == s && DirectoryNameOf(s) == "."
  {
    StripNothing(s);
    CoreIs("", 0);
  }

  /** Appending nothing strips a path; what follows a NUL is not appended. */
  lemma AppendPrefix(p: string, component: string, more: string)
    requires '\0' !in component
    ensures AppendPath(p, component + "\0" + more) == AppendPath(p, component)
    ensures AppendPath(p, "") == if p == "." then "" else Strip(p)
  {
    CStringNoNul(component);
    CStringStops(component, more);
  }

  lemma {:induction false} CStringStops(s: string, more: string)
    requires '\0' !in s
    ensures CString(s + "\0" + more) == s
    decreases |s|
  {
    if s != "" {
      assert (s + "\0" + more)[1..] == s[1..] + "\0" + more;
      CStringStops(s[1..], more);
    } else {
      assert (s + "\0" + more)[0] == '\0';
    }
  }

  /** Appending two names one after the other is appending them with a separator between, unless the
      first one makes the path ".". */
  lemma AppendTwo(p: string, a: string, b: string)
    requires a != "" && '/' !in a && '\0' !in a && b != "" && '\0' !in b
    ensures AppendPath(AppendPath(p, a), b) == AppendPath(p, a + "/" + b) <==> AppendPath(p, a) != "."
  {
    hide Core, Strip, CString;
    CStringNoNul(a);
    CStringNoNul(b);
    CStringNoNul(a + "/" + b);
    var q := AppendPath(p, a);
    assert q[|q| - 1] == a[|a| - 1] && a[|a| - 1] in a;
    StripNothing(q);
    assert AppendPath(p, a + "/" + b) == q + "/" + b;
    assert q == "." ==> |AppendPath(q, b)| == |b|;
  }

  // ---------- The program ----------

  class FilePath {
    var path: string

    constructor (path: string)
      ensures this.path == CString(path)
    {
      this.path := CString(path);
    }

    constructor Copy(other: FilePath)
      ensures path == other.path
    {
      path := other.path;
    }

    method StripTrailingSeparatorsInternal()
      modifies this
      ensures path == Strip(old(path))
    {
      ghost var was := path;
      var pos, lastStripped := |path|, -1;
      while pos > 1 && path[pos - 1] == SEPARATOR
        invariant 0 <= pos <= |path| <= |was| && path == was[..|path|] && (pos == 0 ==> was == "")
        invariant forall i :: pos <= i < |was| ==> was[i] == SEPARATOR
        invariant |path| == pos || (pos == 1 && was == "//")
        invariant was == "//" ==> path == was
        invariant lastStripped == if |path| == |was| then -1 else pos + 1
        decreases pos
      {
        if pos != 2 || lastStripped == 3 || path[0] != SEPARATOR {
          path := path[..pos - 1];
          lastStripped := pos;
        }
        pos := pos - 1;
      }
      if path == "//" {
        assert was == "//";
      } else {
        StripIs(was, pos);
      }
    }

    method StripTrailingSeparators() returns (r: FilePath)
      ensures fresh(r) && r.path == Strip(path)
    {
      r := new FilePath.Copy(this);
      r.StripTrailingSeparatorsInternal();
    }

    method Append(component: string) returns (r: FilePath)
      ensures fresh(r) && r.path == AppendPath(path, component)
    {
      hide Strip;
      var appended := CString(component);
      if path == CURRENT_DIRECTORY {
        CStringNoNul(appended);
        r := new FilePath(appended);
        return;
      }
      r := new FilePath.Copy(this);
      r.StripTrailingSeparatorsInternal();
      if |appended| > 0 && |r.path| > 0 {
        if r.path[|r.path| - 1] != SEPARATOR {
          r.path := r.path + "/";
        }
      }
      r.path := r.path + appended;
    }

    method BaseName() returns (r: FilePath)
      ensures fresh(r) && r.path == BaseNameOf(path)
    {
      r := new FilePath.Copy(this);
      r.StripTrailingSeparatorsInternal();
      var lastSep := LastSeparator(r.path);
      if lastSep.Some? && lastSep.value < |r.path| - 1 {
        r.path := r.path[lastSep.value + 1..];
      }
    }

    method DirectoryName() returns (r: FilePath)
      ensures fresh(r) && r.path == DirectoryNameOf(path)
    {
      r := new FilePath.Copy(this);
      r.StripTrailingSeparatorsInternal();
      var lastSep := LastSeparator(r.path);
      if lastSep.None? {
        r.path := "";
      } else if lastSep.value == 0 {
        r.path := r.path[..1];
      } else if lastSep.value == 1 && r.path[0] == SEPARATOR {
        r.path := r.path[..2];
      } else {
        r.path := r.path[..lastSep.value];
      }
      r.StripTrailingSeparatorsInternal();
      if r.path == "" {
        r.path := CURRENT_DIRECTORY;
      }
    }
  }
}
