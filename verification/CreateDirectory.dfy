/** `CreateDirectory` of kwctoolkit/file/file_utils.cc on a file system whose mkdir needs an existing
    parent directory. */
module CreateDirectories {
  import opened FilePaths

  /** The file system: paths that differ in trailing separators name the same entry, and the empty
      path names none. */
  class FileSystem {
    var dirs: set<string>
    const others: set<string>
    /** Whether the process may create this entry. */
    const permitted: string -> bool

    constructor (dirs: set<string>, others: set<string>, permitted: string -> bool)
      ensures this.dirs == dirs && this.others == others && this.permitted == permitted
    {
      this.dirs, this.others, this.permitted := dirs, others, permitted;
    }

    predicate DirectoryExists(path: string)
      reads this
    {
      path != "" && Strip(path) in dirs
    }

    method MakeDirectory(path: string) returns (ok: bool)
      modifies this
      ensures ok == (path != "" && Strip(path) !in old(dirs) && Strip(path) !in others
                     && permitted(Strip(path)) && DirectoryNameOf(path) in old(dirs))
      ensures dirs == if ok then old(dirs) + {Strip(path)} else old(dirs)
    {
      ok := path != "" && Strip(path) !in dirs && Strip(path) !in others
        && permitted(Strip(path)) && DirectoryNameOf(path) in dirs;
      if ok {
        dirs := dirs + {Strip(path)};
      }
    }

    /** Nothing but the directory above it stands in the way of creating this entry. */
    predicate Creatable(path: string) {
      path != "" && !IsTop(path) && Strip(path) !in others && permitted(Strip(path))
    }

    /** Every directory that is not a top lies in a directory. */
    predicate Rooted()
      reads this
    {
      forall d :: d in dirs && !IsTop(d) ==> DirectoryNameOf(d) in dirs
    }

    /** Succeeds exactly when every path on the way up exists or can be created; then all of them are
        directories.  No directory is lost, and only paths on the way up are added. */
    method CreateDirectory(fullPath: string) returns (ok: bool)
      modifies this
      ensures ok <==> forall a :: a in SubPaths(fullPath) ==> old(DirectoryExists(a)) || Creatable(a)
      ensures ok ==> forall a :: a in SubPaths(fullPath) ==> DirectoryExists(a)
      ensures old(dirs) <= dirs
      ensures forall d :: d in dirs && d !in old(dirs) ==> exists a :: a in SubPaths(fullPath) && Strip(a) == d
      ensures old(Rooted()) ==> Rooted()
    {
      var subPaths := CollectSubPaths(fullPath);
      SubPathsChain(fullPath);
      ok := CreateMissing(subPaths);
    }

    /** The first loop, on the way up. */
    static method CollectSubPaths(fullPath: string) returns (subPaths: seq<string>)
      ensures subPaths == SubPaths(fullPath)
    {
      subPaths := [fullPath];
      var lastPath, path := fullPath, DirectoryNameOf(fullPath);
      while path != lastPath
        invariant path == DirectoryNameOf(lastPath)
        invariant SubPaths(fullPath) == subPaths + SubPaths(lastPath)[1..]
        decreases Rank(lastPath)
      {
        hide DirectoryNameOf, Rank;
        DirectoryNameGoesUp(lastPath);
        subPaths := subPaths + [path];
        lastPath := path;
        path := DirectoryNameOf(path);
      }
    }

    /** The second loop, from the top down. */
    method CreateMissing(subPaths: seq<string>) returns (ok: bool)
      requires IsChain(subPaths)
      modifies this
      ensures ok <==> forall a :: a in subPaths ==> old(DirectoryExists(a)) || Creatable(a)
      ensures ok ==> forall a :: a in subPaths ==> DirectoryExists(a)
      ensures old(dirs) <= dirs
      ensures forall d :: d in dirs && d !in old(dirs) ==> exists a :: a in subPaths && Strip(a) == d
      ensures old(Rooted()) ==> Rooted()
    {
      hide Strip, DirectoryNameOf, IsTop, Creatable, Rooted;
      var i := |subPaths|;
      while i > 0
        invariant 0 <= i <= |subPaths|
        invariant forall j :: i <= j < |subPaths| ==> DirectoryExists(subPaths[j])
        invariant forall j :: i <= j < |subPaths| ==> old(DirectoryExists(subPaths[j])) || Creatable(subPaths[j])
        invariant old(dirs) <= dirs
        invariant forall d :: d in dirs && d !in old(dirs) ==>
          exists j :: i <= j < |subPaths| && Strip(subPaths[j]) == d
        invariant old(Rooted()) ==> Rooted()
      {
        i := i - 1;
        var path := subPaths[i];
        assert i + 1 < |subPaths| ==> DirectoryExists(subPaths[i + 1]);
        if DirectoryExists(path) && !old(DirectoryExists(path)) {
          var j :| i < j < |subPaths| && Strip(subPaths[j]) == Strip(path);
          SameEntry(subPaths[j], path);
        }
        var done := CreateOne(path);
        if !done {
          assert path in subPaths && !(old(DirectoryExists(path)) || Creatable(path));
          return false;
        }
      }
      return true;
    }

    lemma SameEntry(a: string, b: string)
      requires Strip(a) == Strip(b) && Creatable(a) && b != "" && !IsTop(b)
      ensures Creatable(b)
    {
    }

    /** The body of that loop. */
    method CreateOne(path: string) returns (ok: bool)
      requires IsTop(path) || DirectoryExists(DirectoryNameOf(path))
      modifies this
      ensures ok <==> old(DirectoryExists(path)) || Creatable(path)
      ensures ok ==> DirectoryExists(path)
      ensures dirs == if ok then old(dirs) + {Strip(path)} else old(dirs)
      ensures old(Rooted()) ==> Rooted()
    {
      DirectoryNameGoesUp(path);
      DirectoryNameOfStripped(path);
      if DirectoryExists(path) {
        return true;
      }
      ok := MakeDirectory(path);
      if !ok {
        ok := DirectoryExists(path);
      }
    }
  }

  /** From a path up to a top, each the directory of the one before. */
  ghost predicate IsChain(paths: seq<string>) {
    && paths != [] && IsTop(paths[|paths| - 1])
    && forall i :: 0 <= i < |paths| - 1 ==> paths[i + 1] == DirectoryNameOf(paths[i]) && !IsTop(paths[i])
  }

  lemma DirectoryNameOfStripped(p: string)
    ensures Strip(DirectoryNameOf(p)) == DirectoryNameOf(p) && DirectoryNameOf(p) != ""
    ensures DirectoryNameOf(Strip(p)) == DirectoryNameOf(p)
    ensures IsTop(p) ==> Strip(p) == p
  {
    StripIdempotent(p);
    StripIdempotent(Parent(Strip(p)));
    CoreIs(".", 1);
    StripRoots();
  }

  /** A path and the directories above it, up to a top. */
  function SubPaths(p: string): (r: seq<string>)
    ensures r != [] && r[0] == p
    decreases Rank(p)
  {
    if DirectoryNameOf(p) == p then [p]
    else
      DirectoryNameGoesUp(p);
      [p] + SubPaths(DirectoryNameOf(p))
  }

  lemma {:induction false} SubPathsChain(p: string)
    ensures IsChain(SubPaths(p))
    decreases Rank(p)
  {
    hide DirectoryNameOf, Rank;
    DirectoryNameGoesUp(p);
    if DirectoryNameOf(p) != p {
      SubPathsChain(DirectoryNameOf(p));
    }
  }
}
