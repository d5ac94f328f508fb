/** The per-notification decision of the daemon (`handle_event`) and the
    sequential view of the loop that feeds it notifications. */
module Handler {
  import opened Paths
  import opened FileSystem

  /** notify's `EventKind`, without the sub-kinds the daemon never looks at. */
  datatype Kind = Any | Access | Create | Modify | Remove | Other

  /** One notification: its kind, the affected paths (a rename carries two)
      and the "events may have been lost" flag. */
  datatype Event = Event(kind: Kind, paths: seq<Path>, needRescan: bool)

  /** The one directory a notification may prune, stated on absolute paths:
      for a removal whose first path lies at least two components below the
      root, the directory holding that path. */
  function Candidate(ev: Event, root: Path): (r: Option<Path>)
    ensures r.Some? ==> IsPrefix(root, r.value) && |r.value| > |root|
    ensures r.Some? ==> ev.kind == Remove && |ev.paths| > 0 && IsChildOf(ev.paths[0], r.value)
    ensures ev.kind == Remove && |ev.paths| > 0 && IsPrefix(root, ev.paths[0]) && |ev.paths[0]| >= |root| + 2
      ==> r == Some(ev.paths[0][..|ev.paths[0]| - 1])
  {
    if ev.kind == Remove && |ev.paths| > 0 && IsPrefix(root, ev.paths[0]) && |ev.paths[0]| >= |root| + 2
    then
      var p := ev.paths[0];
      assert p[..|p| - 1][..|root|] == p[..|root|];
      Some(p[..|p| - 1])
    else None
  }

  /** `handle_event`: take the first path, strip the root from it, take the
      parent of what is left and, for a removal, remove that parent (resolved
      under the root, the working directory) when its listing is empty.
      `Err` leaves the filesystem as it was. The only change ever made is the
      removal of the candidate directory, and only when it has no entries. */
  function HandleEvent(ev: Event, root: Path, fs: FS): (r: Result<FS>)
    ensures r.Ok? && r.value != fs ==>
      && Candidate(ev, root).Some?
      && Candidate(ev, root).value in fs.dirs
      && !HasEntries(fs, Candidate(ev, root).value)
      && r.value == fs.(dirs := fs.dirs - {Candidate(ev, root).value})
  {
    if |ev.paths| == 0 then Err(NoPath)
    else HandlePath(ev.kind, ev.paths[0], root, fs)
  }

  /** `handle_event` from the first path on. */
  function HandlePath(kind: Kind, p: Path, root: Path, fs: FS): (r: Result<FS>)
    ensures r.Ok? && r.value != fs ==>
      && kind == Remove && IsPrefix(root, p) && |p| >= |root| + 2
      && p[..|p| - 1] in fs.dirs && !HasEntries(fs, p[..|p| - 1])
      && r.value == fs.(dirs := fs.dirs - {p[..|p| - 1]})
  {
    match StripPrefix(p, root)
    case None => Err(NotUnderRoot)
    case Some(rel) =>
      match Parent(rel)
      case None => Err(NoParent)
      case Some(relParent) =>
        if kind != Remove then Ok(fs)
        else
          match Resolve(root, relParent)
          case Err(e) => Err(e)
          case Ok(target) =>
            match ReadDir(fs, target)
            case Err(e) => Err(e)
            case Ok(entries) =>
              if entries == {} then
                ParentOfStripped(p, root, rel, relParent);
                RemoveDir(fs, target)
              else Ok(fs)
  }

  /** The filesystem after a notification has been handled; a failed
      notification is reported and changes nothing. */
  function Apply(ev: Event, root: Path, fs: FS): (r: FS)
    ensures r == fs || (HandleEvent(ev, root, fs).Ok? && r == HandleEvent(ev, root, fs).value)
    ensures r != fs ==>
      && Candidate(ev, root).Some?
      && Candidate(ev, root).value in fs.dirs
      && !HasEntries(fs, Candidate(ev, root).value)
      && r == fs.(dirs := fs.dirs - {Candidate(ev, root).value})
  {
    match HandleEvent(ev, root, fs)
    case Ok(fs') => fs'
    case Err(_) => fs
  }

  /** A notification without any path is refused with "No path". */
  lemma NoPathRefused(ev: Event, root: Path, fs: FS)
    requires ev.paths == []
    ensures HandleEvent(ev, root, fs) == Err(NoPath)
  {
  }

  /** A first path that is not component-wise under the root is refused. */
  lemma OutsideRootRefused(ev: Event, root: Path, fs: FS)
    requires |ev.paths| > 0 && !IsPrefix(root, ev.paths[0])
    ensures HandleEvent(ev, root, fs) == Err(NotUnderRoot)
  {
  }

  /** A notification about the root itself strips to the empty path, which
      has no parent. */
  lemma RootEventRefused(ev: Event, root: Path, fs: FS)
    requires |ev.paths| > 0 && ev.paths[0] == root
    ensures HandleEvent(ev, root, fs) == Err(NoParent)
  {
    StripPrefixEmpty(root, root);
  }

  /** Only the first path is consulted: a rename's second path, or any
      further ones, never change the outcome. */
  lemma OnlyFirstPathConsulted(ev: Event, root: Path, fs: FS, more: seq<Path>)
    requires |ev.paths| > 0
    ensures HandleEvent(ev.(paths := [ev.paths[0]] + more), root, fs) == HandleEvent(ev, root, fs)
  {
  }

  /** The rescan hint is only logged. */
  lemma RescanHintIgnored(ev: Event, root: Path, fs: FS, hint: bool)
    ensures HandleEvent(ev.(needRescan := hint), root, fs) == HandleEvent(ev, root, fs)
  {
  }

  /** A notification of any kind but removal never touches the filesystem:
      it succeeds exactly when its first path lies strictly under the root. */
  lemma NonRemovalInert(ev: Event, root: Path, fs: FS)
    requires ev.kind != Remove
    ensures HandleEvent(ev, root, fs) ==
      if ev.paths == [] then Err(NoPath)
      else if !IsPrefix(root, ev.paths[0]) then Err(NotUnderRoot)
      else if ev.paths[0] == root then Err(NoParent)
      else Ok(fs)
  {
    if ev.paths == [] {
    } else if !IsPrefix(root, ev.paths[0]) {
      OutsideRootRefused(ev, root, fs);
    } else if ev.paths[0] == root {
      RootEventRefused(ev, root, fs);
    } else {
      StripPrefixJoin(root, ev.paths[0][|root|..]);
      assert root + ev.paths[0][|root|..] == ev.paths[0];
      StripPrefixEmpty(ev.paths[0], root);
    }
  }

  /** A removal of a direct entry of the root yields the empty relative
      parent, whose listing fails: the root is never even inspected. */
  lemma DirectChildOfRootRefused(ev: Event, root: Path, fs: FS)
    requires ev.kind == Remove && |ev.paths| > 0
    requires IsPrefix(root, ev.paths[0]) && |ev.paths[0]| == |root| + 1
    ensures HandleEvent(ev, root, fs) == Err(NotFound)
  {
    var p := ev.paths[0];
    StripPrefixJoin(root, p[|root|..]);
    assert root + p[|root|..] == p;
  }

  /** What a removal notification below the root's entries does, on absolute
      paths: list the candidate, keep it when it has entries, else remove it. */
  lemma RemovalOutcome(ev: Event, root: Path, fs: FS)
    requires Candidate(ev, root).Some?
    ensures var t := Candidate(ev, root).value;
      HandleEvent(ev, root, fs) ==
        if t !in fs.dirs then Err(if ThroughFile(fs, t) then NotADirectory else NotFound)
        else if t in fs.noRead then Err(PermissionDenied)
        else if HasEntries(fs, t) then Ok(fs)
        else if t in fs.noRemove then Err(PermissionDenied)
        else Ok(fs.(dirs := fs.dirs - {t}))
  {
    var p := ev.paths[0];
    var t := Candidate(ev, root).value;
    var rel := p[|root|..];
    StripPrefixJoin(root, rel);
    assert root + rel == p;
    var relParent := rel[..|rel| - 1];
    assert root + relParent == t;
    EntriesEmpty(fs, t);
  }

  /** In a well-formed tree, a removal notification whose directory is a
      file or lies below one fails the listing with NotADirectory. */
  lemma RemovalBelowFile(ev: Event, root: Path, fs: FS)
    requires Valid(fs)
    requires Candidate(ev, root).Some? && ThroughFile(fs, Candidate(ev, root).value)
    ensures HandleEvent(ev, root, fs) == Err(NotADirectory)
  {
    NoDirThroughFile(fs, Candidate(ev, root).value);
    RemovalOutcome(ev, root, fs);
  }

  /** One instance: opening "/r/f/x" when "/r/f" is a file. */
  lemma RemovalBelowFileExample()
    ensures HandleEvent(Event(Remove, [["r", "f", "x", "y"]], false), ["r"], FS({[], ["r"]}, {["r", "f"]}, {}, {}))
      == Err(NotADirectory)
  {
    var fs := FS({[], ["r"]}, {["r", "f"]}, {}, {});
    var p: Path := ["r", "f", "x", "y"];
    var t: Path := ["r", "f", "x"];
    var ev := Event(Remove, [p], false);
    assert p[..1] == ["r"] && p[..3] == t;
    assert Candidate(ev, ["r"]) == Some(t);
    assert t[..2] == ["r", "f"];
    assert ThroughFile(fs, t);
    assert ["r", "f"][..1] == ["r"] && ["r"][..0] == [];
    RemovalBelowFile(ev, ["r"], fs);
  }

  /** The root and every directory above it survive any notification, and
      no file is ever removed. */
  lemma RootNeverRemoved(ev: Event, root: Path, fs: FS)
    ensures Apply(ev, root, fs).files == fs.files
    ensures forall d :: d in fs.dirs && IsPrefix(d, root) ==> d in Apply(ev, root, fs).dirs
  {
  }

  /** Handling a notification keeps the tree well formed. */
  lemma ApplyValid(ev: Event, root: Path, fs: FS)
    requires Valid(fs)
    ensures Valid(Apply(ev, root, fs))
  {
    var r := HandleEvent(ev, root, fs);
    if r.Ok? && r.value != fs {
      var t := Candidate(ev, root).value;
      RemovalOutcome(ev, root, fs);
      RemoveDirValid(fs, t);
    }
  }

  /** Two notifications whose candidates are not parent and child of each
      other may be handled in either order with the same result. */
  lemma ApplyCommutes(e1: Event, e2: Event, root: Path, fs: FS)
    requires Candidate(e1, root).Some? && Candidate(e2, root).Some? ==>
      && !IsChildOf(Candidate(e1, root).value, Candidate(e2, root).value)
      && !IsChildOf(Candidate(e2, root).value, Candidate(e1, root).value)
    ensures Apply(e2, root, Apply(e1, root, fs)) == Apply(e1, root, Apply(e2, root, fs))
  {
    var fs1 := Apply(e1, root, fs);
    var fs2 := Apply(e2, root, fs);
    if fs1 != fs && fs2 != fs {
      var t1 := Candidate(e1, root).value;
      var t2 := Candidate(e2, root).value;
      RemovalOutcome(e1, root, fs);
      RemovalOutcome(e2, root, fs);
      if t1 == t2 {
        RemovalOutcome(e1, root, fs2);
        RemovalOutcome(e2, root, fs1);
      } else {
        RemoveDirOtherEntries(fs, t1, t2);
        RemoveDirOtherEntries(fs, t2, t1);
        RemovalOutcome(e1, root, fs2);
        RemovalOutcome(e2, root, fs1);
      }
    } else if fs1 != fs {
      var t1 := Candidate(e1, root).value;
      RemovalOutcome(e1, root, fs);
      if Candidate(e2, root).Some? {
        var t2 := Candidate(e2, root).value;
        RemovalOutcome(e2, root, fs);
        RemovalOutcome(e2, root, fs1);
        if t1 != t2 { RemoveDirOtherEntries(fs, t1, t2); }
      } else {
        NonCandidateInert(e2, root, fs);
        NonCandidateInert(e2, root, fs1);
      }
    } else if fs2 != fs {
      var t2 := Candidate(e2, root).value;
      RemovalOutcome(e2, root, fs);
      if Candidate(e1, root).Some? {
        var t1 := Candidate(e1, root).value;
        RemovalOutcome(e1, root, fs);
        RemovalOutcome(e1, root, fs2);
        if t1 != t2 { RemoveDirOtherEntries(fs, t2, t1); }
      } else {
        NonCandidateInert(e1, root, fs);
        NonCandidateInert(e1, root, fs2);
      }
    }
  }

  /** A notification with no candidate changes nothing on any filesystem. */
  lemma NonCandidateInert(ev: Event, root: Path, fs: FS)
    requires Candidate(ev, root).None?
    ensures Apply(ev, root, fs) == fs
  {
  }

  /** What the dispatch loop delivers: a notification, or a delivery error. */
  datatype Delivery = Delivered(event: Event) | Undelivered

  /** The dispatch loop run sequentially: every delivered notification is
      handled, and neither a delivery error nor a handler error stops the
      ones after it. Whatever happens, files stay, directories are only ever
      removed, and only directories strictly below the root. */
  function Dispatch(ds: seq<Delivery>, root: Path, fs: FS): (r: FS)
    ensures r.files == fs.files && r.dirs <= fs.dirs
    ensures r.noRead == fs.noRead && r.noRemove == fs.noRemove
    ensures forall d :: d in fs.dirs - r.dirs ==> IsPrefix(root, d) && |d| > |root|
    decreases |ds|
  {
    if ds == [] then fs
    else
      var next := match ds[0]
        case Delivered(ev) => Apply(ev, root, fs)
        case Undelivered => fs;
      Dispatch(ds[1..], root, next)
  }

  /** Dispatching a stream in two pieces is dispatching it whole: the first
      piece's failures do not stop the second. */
  lemma {:induction false} DispatchSplit(ds1: seq<Delivery>, ds2: seq<Delivery>, root: Path, fs: FS)
    ensures Dispatch(ds1 + ds2, root, fs) == Dispatch(ds2, root, Dispatch(ds1, root, fs))
    decreases |ds1|
  {
    if ds1 == [] {
      assert ds1 + ds2 == ds2;
    } else {
      assert (ds1 + ds2)[1..] == ds1[1..] + ds2;
      var next := match ds1[0]
        case Delivered(ev) => Apply(ev, root, fs)
        case Undelivered => fs;
      DispatchSplit(ds1[1..], ds2, root, next);
    }
  }

  /** Error isolation: a delivery error, or a notification the handler
      refuses, drops out of the stream without affecting what comes after. */
  lemma DispatchSkipsFailure(before: seq<Delivery>, d: Delivery, after: seq<Delivery>, root: Path, fs: FS)
    requires d.Delivered? ==> HandleEvent(d.event, root, Dispatch(before, root, fs)).Err?
    ensures Dispatch(before + [d] + after, root, fs) == Dispatch(before + after, root, fs)
  {
    var mid := Dispatch(before, root, fs);
    DispatchSplit(before, [d] + after, root, fs);
    DispatchSplit(before, after, root, fs);
    assert before + [d] + after == before + ([d] + after);
    assert ([d] + after)[1..] == after;
  }

  /** Dispatching keeps the tree well formed. */
  lemma {:induction false} DispatchValid(ds: seq<Delivery>, root: Path, fs: FS)
    requires Valid(fs)
    ensures Valid(Dispatch(ds, root, fs))
    decreases |ds|
  {
    if ds != [] {
      var next := match ds[0]
        case Delivered(ev) => Apply(ev, root, fs)
        case Undelivered => fs;
      if ds[0].Delivered? { ApplyValid(ds[0].event, root, fs); }
      DispatchValid(ds[1..], root, next);
    }
  }

  /** A delivered removal notification for the single path `p`. */
  function RemovalOf(p: Path): Delivery
  {
    Delivered(Event(Remove, [p], false))
  }

  /** A removal notification prunes its candidate when that directory is
      there, may be listed and removed, and has no entries. */
  lemma PrunesEmptyCandidate(ev: Event, root: Path, fs: FS, t: Path)
    requires Candidate(ev, root) == Some(t)
    requires t in fs.dirs && t !in fs.noRead && t !in fs.noRemove && !HasEntries(fs, t)
    ensures Apply(ev, root, fs) == fs.(dirs := fs.dirs - {t})
  {
    RemovalOutcome(ev, root, fs);
  }

  /** A directory at the deepest level of the tree has no entries. */
  lemma DeepestHasNoEntries(fs: FS, t: Path)
    requires forall q :: q in fs.dirs + fs.files ==> |q| <= |t|
    ensures !HasEntries(fs, t)
  {
  }

  /** One step of the dispatch loop on a delivered notification. */
  lemma DispatchStep(ev: Event, rest: seq<Delivery>, root: Path, fs: FS)
    ensures Dispatch([Delivered(ev)] + rest, root, fs) == Dispatch(rest, root, Apply(ev, root, fs))
  {
    assert ([Delivered(ev)] + rest)[1..] == rest;
  }

  /** The filesystem of the cascade scenario, before and after each step. */
  function CascadeState(step: nat): FS
  {
    if step == 0 then FS({[], ["r"], ["r", "a"], ["r", "a", "b"]}, {}, {}, {})
    else if step == 1 then FS({[], ["r"], ["r", "a"]}, {}, {}, {})
    else FS({[], ["r"]}, {}, {}, {})
  }

  /** The deletion of "/r/a/b/file.txt" prunes "/r/a/b". */
  lemma CascadeFirst()
    ensures Apply(Event(Remove, [["r", "a", "b", "file.txt"]], false), ["r"], CascadeState(0)) == CascadeState(1)
  {
    var fs := CascadeState(0);
    var p: Path := ["r", "a", "b", "file.txt"];
    var t: Path := ["r", "a", "b"];
    assert p[..1] == ["r"] && p[..3] == t;
    assert forall q :: q in fs.dirs + fs.files ==> |q| <= 3;
    DeepestHasNoEntries(fs, t);
    PrunesEmptyCandidate(Event(Remove, [p], false), ["r"], fs, t);
    assert fs.dirs - {t} == CascadeState(1).dirs;
  }

  /** The removal of "/r/a/b" then prunes "/r/a". */
  lemma CascadeSecond()
    ensures Apply(Event(Remove, [["r", "a", "b"]], false), ["r"], CascadeState(1)) == CascadeState(2)
  {
    var fs := CascadeState(1);
    var p: Path := ["r", "a", "b"];
    var t: Path := ["r", "a"];
    assert p[..1] == ["r"] && p[..2] == t;
    assert forall q :: q in fs.dirs + fs.files ==> |q| <= 2;
    DeepestHasNoEntries(fs, t);
    PrunesEmptyCandidate(Event(Remove, [p], false), ["r"], fs, t);
    assert fs.dirs - {t} == CascadeState(2).dirs;
  }

  /** The cascade: with "/r/a/b/file.txt" deleted, its removal notification
      prunes "/r/a/b"; the notification for "/r/a/b" then prunes "/r/a"; the
      notification for "/r/a" stops at the root, which stays. */
  lemma Cascade()
    ensures
      Dispatch([RemovalOf(["r", "a", "b", "file.txt"]), RemovalOf(["r", "a", "b"]), RemovalOf(["r", "a"])], ["r"], CascadeState(0))
        == CascadeState(2)
  {
    var e1 := Event(Remove, [["r", "a", "b", "file.txt"]], false);
    var e2 := Event(Remove, [["r", "a", "b"]], false);
    var e3 := Event(Remove, [["r", "a"]], false);
    CascadeFirst();
    CascadeSecond();
    assert ["r", "a"][..1] == ["r"];
    DirectChildOfRootRefused(e3, ["r"], CascadeState(2));
    DispatchStep(e1, [Delivered(e2), Delivered(e3)], ["r"], CascadeState(0));
    DispatchStep(e2, [Delivered(e3)], ["r"], CascadeState(1));
    DispatchStep(e3, [], ["r"], CascadeState(2));
    assert [Delivered(e1)] + [Delivered(e2), Delivered(e3)] == [RemovalOf(["r", "a", "b", "file.txt"]), RemovalOf(["r", "a", "b"]), RemovalOf(["r", "a"])];
    assert [Delivered(e2)] + [Delivered(e3)] == [Delivered(e2), Delivered(e3)];
    assert [Delivered(e3)] + [] == [Delivered(e3)];
  }

  /** The filesystem of the siblings scenario: "/r/x" and "/r/y" have lost
      their only files; then one of them is pruned; then both. */
  function SiblingsState(step: nat): FS
  {
    if step == 0 then FS({[], ["r"], ["r", "x"], ["r", "y"]}, {}, {}, {})
    else if step == 1 then FS({[], ["r"], ["r", "y"]}, {}, {}, {})
    else FS({[], ["r"]}, {}, {}, {})
  }

  /** The removal notification for "/r/x/f1" prunes "/r/x". */
  lemma SiblingsFirst()
    ensures Apply(Event(Remove, [["r", "x", "f1"]], false), ["r"], SiblingsState(0)) == SiblingsState(1)
  {
    var fs := SiblingsState(0);
    var p: Path := ["r", "x", "f1"];
    var t: Path := ["r", "x"];
    assert p[..1] == ["r"] && p[..2] == t;
    assert forall q :: q in fs.dirs + fs.files ==> |q| <= 2;
    DeepestHasNoEntries(fs, t);
    PrunesEmptyCandidate(Event(Remove, [p], false), ["r"], fs, t);
    assert fs.dirs - {t} == SiblingsState(1).dirs;
  }

  /** The removal notification for "/r/y/f2" then prunes "/r/y". */
  lemma SiblingsSecond()
    ensures Apply(Event(Remove, [["r", "y", "f2"]], false), ["r"], SiblingsState(1)) == SiblingsState(2)
  {
    var fs := SiblingsState(1);
    var p: Path := ["r", "y", "f2"];
    var t: Path := ["r", "y"];
    assert p[..1] == ["r"] && p[..2] == t;
    assert forall q :: q in fs.dirs + fs.files ==> |q| <= 2;
    DeepestHasNoEntries(fs, t);
    PrunesEmptyCandidate(Event(Remove, [p], false), ["r"], fs, t);
    assert fs.dirs - {t} == SiblingsState(2).dirs;
  }

  /** Siblings: the removal notifications for the only files of "/r/x" and
      "/r/y" prune both directories, in either order. */
  lemma ConcurrentSiblings()
    ensures
      var e1 := Event(Remove, [["r", "x", "f1"]], false);
      var e2 := Event(Remove, [["r", "y", "f2"]], false);
      && Apply(e2, ["r"], Apply(e1, ["r"], SiblingsState(0))) == SiblingsState(2)
      && Apply(e1, ["r"], Apply(e2, ["r"], SiblingsState(0))) == SiblingsState(2)
  {
    var p1: Path := ["r", "x", "f1"];
    var p2: Path := ["r", "y", "f2"];
    var e1 := Event(Remove, [p1], false);
    var e2 := Event(Remove, [p2], false);
    SiblingsFirst();
    SiblingsSecond();
    assert p1[..1] == ["r"] && p2[..1] == ["r"];
    SameLengthNotChild(p1[..2], p2[..2]);
    SameLengthNotChild(p2[..2], p1[..2]);
    ApplyCommutes(e1, e2, ["r"], SiblingsState(0));
  }
}
