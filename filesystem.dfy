/** The part of the filesystem the daemon touches: which directories and files
    exist, and the two std::fs calls it makes, `read_dir` and `remove_dir`, each
    of which can fail. Paths held here are resolved (absolute) paths. */
module FileSystem {
  import opened Paths

  /** The failures std::fs, `Path::strip_prefix` and anyhow's `context` report. */
  datatype Error =
    | NoPath              // `context("No path")`: the notification has no path
    | NotUnderRoot        // `StripPrefixError`: the path is not under the root
    | NoParent            // `context("No parent")`: the relative path has no parent
    | NotFound            // io::ErrorKind::NotFound
    | NotADirectory       // io::ErrorKind::NotADirectory
    | PermissionDenied    // io::ErrorKind::PermissionDenied
    | DirectoryNotEmpty   // io::ErrorKind::DirectoryNotEmpty
    | ResourceBusy        // io::ErrorKind::ResourceBusy (removing "/")

  datatype Result<T> = Ok(value: T) | Err(error: Error)

  datatype Outcome = Pass | Fail(error: Error)

  /** A filesystem state. `noRead` are directories whose listing is refused,
      `noRemove` directories whose removal is refused (permissions, mounts). */
  datatype FS = FS(dirs: set<Path>, files: set<Path>, noRead: set<Path>, noRemove: set<Path>)

  /** A well-formed tree: "/" is a directory, nothing is both a file and a
      directory, and everything but "/" sits in an existing directory. */
  predicate Valid(fs: FS)
  {
    && [] in fs.dirs
    && fs.dirs !! fs.files
    && (forall d :: d in fs.dirs && d != [] ==> d[..|d| - 1] in fs.dirs)
    && (forall f :: f in fs.files && f != [] ==> f[..|f| - 1] in fs.dirs)
  }

  /** Some existing path has `d` as its parent. */
  predicate HasEntries(fs: FS, d: Path)
  {
    exists q :: q in fs.dirs + fs.files && IsChildOf(q, d)
  }

  /** The immediate entries of `d`. */
  function Entries(fs: FS, d: Path): set<Path>
  {
    set q | q in fs.dirs + fs.files && IsChildOf(q, d)
  }

  /** The listing of `d` is empty exactly when `d` has no entries. */
  lemma EntriesEmpty(fs: FS, d: Path)
    ensures Entries(fs, d) == {} <==> !HasEntries(fs, d)
  {
    if HasEntries(fs, d) {
      var q :| q in fs.dirs + fs.files && IsChildOf(q, d);
      assert q in Entries(fs, d);
    }
  }

  /** `p` is a file, or lies below one: opening it as a directory meets a
      component that is not a directory (ENOTDIR). */
  predicate ThroughFile(fs: FS, p: Path)
  {
    exists k :: 0 < k <= |p| && p[..k] in fs.files
  }

  /** In a well-formed tree every prefix of a directory is a directory. */
  lemma {:induction false} DirPrefixes(fs: FS, d: Path, k: nat)
    requires Valid(fs) && d in fs.dirs && k <= |d|
    ensures d[..k] in fs.dirs
    decreases |d| - k
  {
    if k < |d| {
      var up := d[..|d| - 1];
      assert up in fs.dirs;
      DirPrefixes(fs, up, k);
      assert up[..k] == d[..k];
    } else {
      assert d[..k] == d;
    }
  }

  /** In a well-formed tree no directory lies below a file (or is one). */
  lemma NoDirThroughFile(fs: FS, p: Path)
    requires Valid(fs) && ThroughFile(fs, p)
    ensures p !in fs.dirs
  {
    if p in fs.dirs {
      var k :| 0 < k <= |p| && p[..k] in fs.files;
      DirPrefixes(fs, p, k);
    }
  }

  /** `std::fs::read_dir`: the entries of an existing, readable directory. */
  function ReadDir(fs: FS, p: Path): (r: Result<set<Path>>)
    ensures r.Ok? <==> p in fs.dirs && p !in fs.noRead
    ensures r.Ok? ==> forall q :: q in r.value <==> q in fs.dirs + fs.files && IsChildOf(q, p)
    ensures r.Err? ==> r.error == (if p in fs.dirs then PermissionDenied
                                   else if ThroughFile(fs, p) then NotADirectory else NotFound)
  {
    if p !in fs.dirs then
      if ThroughFile(fs, p) then Err(NotADirectory) else Err(NotFound)
    else if p in fs.noRead then Err(PermissionDenied)
    else Ok(Entries(fs, p))
  }

  /** `std::fs::remove_dir`: removes one existing, empty directory and nothing else. */
  function RemoveDir(fs: FS, p: Path): (r: Result<FS>)
    ensures r.Ok? <==> p in fs.dirs && p != [] && p !in fs.noRemove && !HasEntries(fs, p)
    ensures r.Ok? ==> r.value == fs.(dirs := fs.dirs - {p})
    ensures r.Err? && p !in fs.dirs ==> r.error == (if ThroughFile(fs, p) then NotADirectory else NotFound)
    ensures r.Err? && p in fs.dirs && p == [] ==> r.error == ResourceBusy
    ensures r.Err? && p in fs.dirs && p != [] && p in fs.noRemove ==> r.error == PermissionDenied
    ensures r.Err? && p in fs.dirs && p != [] && p !in fs.noRemove ==> r.error == DirectoryNotEmpty
  {
    if p !in fs.dirs then
      if ThroughFile(fs, p) then Err(NotADirectory) else Err(NotFound)
    else if p == [] then Err(ResourceBusy)
    else if p in fs.noRemove then Err(PermissionDenied)
    else if HasEntries(fs, p) then Err(DirectoryNotEmpty)
    else Ok(fs.(dirs := fs.dirs - {p}))
  }

  /** A relative path opened from the working directory `cwd`; the empty path
      names nothing, so every call on it fails with NotFound. */
  function Resolve(cwd: Path, rel: Path): (r: Result<Path>)
    ensures r.Err? <==> rel == []
    ensures r.Err? ==> r.error == NotFound
    ensures r.Ok? ==> StripPrefix(r.value, cwd) == Some(rel)
  {
    if rel == [] then Err(NotFound)
    else
      StripPrefixJoin(cwd, rel);
      Ok(cwd + rel)
  }

  /** Removing a directory keeps the tree well formed: the directory had no
      entries, so nothing is left without its parent. */
  lemma RemoveDirValid(fs: FS, p: Path)
    requires Valid(fs)
    requires RemoveDir(fs, p).Ok?
    ensures Valid(RemoveDir(fs, p).value)
  {
    var fs' := RemoveDir(fs, p).value;
    forall q | q in fs'.dirs + fs'.files && q != []
      ensures q[..|q| - 1] in fs'.dirs
    {
      assert q[..|q| - 1] in fs.dirs;
      if q[..|q| - 1] == p {
        assert IsChildOf(q, p);
        assert HasEntries(fs, p);
      }
    }
  }

  /** Removing `p` does not change the entries of any directory other than
      `p`'s parent. */
  lemma RemoveDirOtherEntries(fs: FS, p: Path, d: Path)
    requires RemoveDir(fs, p).Ok?
    requires !IsChildOf(p, d)
    ensures HasEntries(RemoveDir(fs, p).value, d) == HasEntries(fs, d)
  {
    var fs' := RemoveDir(fs, p).value;
    if HasEntries(fs, d) {
      var q :| q in fs.dirs + fs.files && IsChildOf(q, d);
      assert q in fs'.dirs + fs'.files;
    }
  }

  /** A sequence that lists each element of a set exactly once. */
  ghost predicate Enumerates(s: seq<Path>, e: set<Path>)
  {
    && (forall i, j :: 0 <= i < j < |s| ==> s[i] != s[j])
    && (forall q :: q in s <==> q in e)
  }

  /** The mutable filesystem the process runs against. */
  class Disk {
    var fs: FS

    constructor (initial: FS)
      ensures fs == initial
    {
      fs := initial;
    }

    /** `read_dir` followed by iterating it: every entry once, in an order the
        filesystem chooses. */
    method List(p: Path) returns (r: Result<seq<Path>>)
      ensures ReadDir(fs, p).Err? ==> r == Err(ReadDir(fs, p).error)
      ensures ReadDir(fs, p).Ok? ==> r.Ok? && Enumerates(r.value, ReadDir(fs, p).value)
    {
      var listing := ReadDir(fs, p);
      if listing.Err? {
        return Err(listing.error);
      }
      var rest := listing.value;
      var out: seq<Path> := [];
      while rest != {}
        invariant rest <= listing.value
        invariant forall q :: q in out <==> q in listing.value && q !in rest
        invariant forall i, j :: 0 <= i < j < |out| ==> out[i] != out[j]
        decreases rest
      {
        var e :| e in rest;
        out := out + [e];
        rest := rest - {e};
      }
      r := Ok(out);
    }

    /** `remove_dir` applied to this filesystem. */
    method Remove(p: Path) returns (o: Outcome)
      modifies this
      ensures RemoveDir(old(fs), p).Ok? ==> o == Pass && fs == RemoveDir(old(fs), p).value
      ensures RemoveDir(old(fs), p).Err? ==> o == Fail(RemoveDir(old(fs), p).error) && fs == old(fs)
    {
      var r := RemoveDir(fs, p);
      if r.Ok? {
        fs := r.value;
        o := Pass;
      } else {
        o := Fail(r.error);
      }
    }
  }
}
