/** The startup sweep: one pass over the root's immediate entries that removes
    every directory among them that has no entries, before watching begins. */
module Sweep {
  import opened Paths
  import opened FileSystem

  /** How a sweep ended, and the filesystem it left behind. */
  datatype Swept = Swept(outcome: Outcome, fs: FS)

  /** An entry the sweep removes, judged on the filesystem it started from:
      a directory it can list and that has no entries. */
  predicate Prunable(fs: FS, c: Path)
  {
    c in fs.dirs && c !in fs.noRead && !HasEntries(fs, c)
  }

  /** An entry that stops the sweep: a directory it cannot list, or an empty
      one it cannot remove. */
  predicate Blocks(fs: FS, c: Path)
  {
    c in fs.dirs && (c in fs.noRead || (!HasEntries(fs, c) && c in fs.noRemove))
  }

  /** The loop body on one entry: skip anything that is not a directory, list
      a directory, remove it when the listing is empty. */
  function SweepEntry(fs: FS, c: Path): (r: Result<FS>)
    ensures r.Err? ==> c in fs.dirs
    ensures r.Ok? && r.value != fs ==>
      c in fs.dirs && !HasEntries(fs, c) && r.value == fs.(dirs := fs.dirs - {c})
  {
    if c !in fs.dirs then Ok(fs)
    else
      match ReadDir(fs, c)
      case Err(e) => Err(e)
      case Ok(entries) => if entries == {} then RemoveDir(fs, c) else Ok(fs)
  }

  /** The loop over the listed entries, in listing order; the first error
      ends it, keeping what was removed before. */
  function SweepFrom(fs: FS, cs: seq<Path>): (s: Swept)
    ensures s.fs.files == fs.files && s.fs.dirs <= fs.dirs
    ensures s.fs.noRead == fs.noRead && s.fs.noRemove == fs.noRemove
    ensures forall d :: d in fs.dirs - s.fs.dirs ==> d in cs
    decreases |cs|
  {
    if cs == [] then Swept(Pass, fs)
    else
      match SweepEntry(fs, cs[0])
      case Err(e) => Swept(Fail(e), fs)
      case Ok(fs') =>
        assert forall d :: d in cs[1..] ==> d in cs;
        SweepFrom(fs', cs[1..])
  }

  /** The whole sweep: list the root, then visit its entries in `order`. */
  function Sweep(fs: FS, root: Path, order: seq<Path>): (s: Swept)
    ensures ReadDir(fs, root).Err? ==> s == Swept(Fail(ReadDir(fs, root).error), fs)
    ensures s.fs.files == fs.files && s.fs.dirs <= fs.dirs
    ensures forall d :: d in fs.dirs - s.fs.dirs ==> d in order
  {
    match ReadDir(fs, root)
    case Err(e) => Swept(Fail(e), fs)
    case Ok(_) => SweepFrom(fs, order)
  }

  /** The loop body in terms of the two judgements: a blocking entry fails,
      a prunable entry is removed, anything else is left alone. */
  lemma SweepEntryCases(fs: FS, c: Path)
    requires c != []
    ensures SweepEntry(fs, c) ==
      if Blocks(fs, c) then Err(PermissionDenied)
      else if Prunable(fs, c) then Ok(fs.(dirs := fs.dirs - {c}))
      else Ok(fs)
  {
    EntriesEmpty(fs, c);
  }

  /** Where the sweep over `cs` stops: the first blocking entry, or `|cs|`. */
  function FirstBlocking(fs: FS, cs: seq<Path>): (k: nat)
    ensures k <= |cs|
    ensures forall i :: 0 <= i < k ==> !Blocks(fs, cs[i])
    ensures k < |cs| ==> Blocks(fs, cs[k])
    decreases |cs|
  {
    if cs == [] then 0
    else if Blocks(fs, cs[0]) then 0
    else 1 + FirstBlocking(fs, cs[1..])
  }

  /** Entries of one directory: distinct paths of one length. */
  ghost predicate Siblings(cs: seq<Path>)
  {
    && (forall i, j :: 0 <= i < j < |cs| ==> cs[i] != cs[j])
    && (forall i, j :: 0 <= i < |cs| && 0 <= j < |cs| ==> |cs[i]| == |cs[j]|)
  }

  /** Two filesystems that agree on which entries block stop at the same one. */
  lemma {:induction false} FirstBlockingAgree(fs: FS, fs': FS, cs: seq<Path>)
    requires forall c :: c in cs ==> Blocks(fs, c) == Blocks(fs', c)
    ensures FirstBlocking(fs, cs) == FirstBlocking(fs', cs)
    decreases |cs|
  {
    if cs != [] {
      assert cs[0] in cs;
      FirstBlockingAgree(fs, fs', cs[1..]);
    }
  }

  /** Removing one entry leaves how the sweep judges its siblings unchanged,
      since no sibling is an entry of another. */
  lemma SiblingUnaffected(fs: FS, c: Path, d: Path)
    requires RemoveDir(fs, c).Ok?
    requires d != c && |d| == |c|
    ensures Prunable(RemoveDir(fs, c).value, d) == Prunable(fs, d)
    ensures Blocks(RemoveDir(fs, c).value, d) == Blocks(fs, d)
  {
    SameLengthNotChild(c, d);
    RemoveDirOtherEntries(fs, c, d);
  }

  /** The entries the sweep over `cs` removes, judged on the state it started
      from: the prunable ones before the first blocking one. */
  ghost function Removed(fs: FS, cs: seq<Path>): set<Path>
  {
    set c | c in cs[..FirstBlocking(fs, cs)] && Prunable(fs, c)
  }

  /** What the sweep removes, unfolded by its first entry. */
  lemma RemovedCons(fs: FS, cs: seq<Path>)
    requires cs != [] && !Blocks(fs, cs[0])
    ensures Removed(fs, cs) == (if Prunable(fs, cs[0]) then {cs[0]} else {}) + Removed(fs, cs[1..])
  {
    var k := FirstBlocking(fs, cs);
    assert cs[..k] == [cs[0]] + cs[1..][..k - 1];
  }

  /** States that judge every entry alike remove the same entries. */
  lemma RemovedAgree(fs: FS, fs': FS, cs: seq<Path>)
    requires forall c :: c in cs ==> Prunable(fs, c) == Prunable(fs', c) && Blocks(fs, c) == Blocks(fs', c)
    ensures Removed(fs, cs) == Removed(fs', cs)
  {
    FirstBlockingAgree(fs, fs', cs);
    var k := FirstBlocking(fs, cs);
    assert forall c :: c in cs[..k] ==> c in cs;
  }

  /** What the sweep over the entries `cs` does, judged on the state it
      started from: it removes exactly the prunable entries before the first
      blocking one, touches nothing else, and fails exactly when some entry
      blocks. */
  lemma {:induction false} SweepFromSpec(fs: FS, cs: seq<Path>)
    requires Siblings(cs)
    requires forall c :: c in cs ==> c != []
    ensures var s := SweepFrom(fs, cs);
      && s.fs == fs.(dirs := fs.dirs - Removed(fs, cs))
      && (s.outcome == Pass <==> FirstBlocking(fs, cs) == |cs|)
      && (s.outcome != Pass ==> s.outcome == Fail(PermissionDenied))
    decreases |cs|
  {
    if cs == [] {
      assert Removed(fs, cs) == {};
    } else {
      var c := cs[0];
      var rest := cs[1..];
      assert c in cs;
      SweepEntryCases(fs, c);
      if Blocks(fs, c) {
        assert Removed(fs, cs) == {};
      } else {
        assert Siblings(rest) by {
          forall i, j | 0 <= i < |rest| && 0 <= j < |rest| ensures |rest[i]| == |rest[j]| {
            assert rest[i] == cs[i + 1] && rest[j] == cs[j + 1];
          }
        }
        assert forall d :: d in rest ==> d in cs;
        var fs' := SweepEntry(fs, c).value;
        SweepFromSpec(fs', rest);
        RemovedCons(fs, cs);
        if Prunable(fs, c) {
          HeadRemovedAgree(fs, cs);
        }
      }
    }
  }

  /** After the first entry is removed, the rest of the sweep judges its
      entries as it would have on the state it started from. */
  lemma HeadRemovedAgree(fs: FS, cs: seq<Path>)
    requires Siblings(cs) && cs != [] && cs[0] != []
    requires RemoveDir(fs, cs[0]).Ok?
    ensures var fs' := RemoveDir(fs, cs[0]).value;
      && FirstBlocking(fs', cs[1..]) == FirstBlocking(fs, cs[1..])
      && Removed(fs', cs[1..]) == Removed(fs, cs[1..])
  {
    var c := cs[0];
    var rest := cs[1..];
    var fs' := RemoveDir(fs, c).value;
    forall d | d in rest
      ensures Prunable(fs', d) == Prunable(fs, d) && Blocks(fs', d) == Blocks(fs, d)
    {
      var j :| 0 <= j < |rest| && rest[j] == d;
      assert cs[j + 1] == d;
      SiblingUnaffected(fs, c, d);
    }
    FirstBlockingAgree(fs, fs', rest);
    RemovedAgree(fs, fs', rest);
  }

  /** The startup sweep as a whole, for any order the listing comes in. It
      fails exactly when the root cannot be listed or some entry blocks; it
      then keeps what it removed before, a part of the prunable entries. When
      it passes it has removed exactly the root's entries that are
      directories without entries: no file, no non-empty directory, nothing
      deeper down, and never the root. The tree stays well formed. */
  lemma SweepTheorem(fs: FS, root: Path, order: seq<Path>)
    requires ReadDir(fs, root).Ok? ==> Enumerates(order, Entries(fs, root))
    ensures var s := Sweep(fs, root, order);
      && s.fs.files == fs.files && s.fs.dirs <= fs.dirs
      && s.fs.noRead == fs.noRead && s.fs.noRemove == fs.noRemove
      && (forall d :: d in fs.dirs - s.fs.dirs ==> IsChildOf(d, root) && Prunable(fs, d))
      && (s.outcome == Pass <==>
            ReadDir(fs, root).Ok? && forall c :: c in fs.dirs && IsChildOf(c, root) ==> !Blocks(fs, c))
      && (s.outcome == Pass ==>
            forall c :: IsChildOf(c, root) && Prunable(fs, c) ==> c !in s.fs.dirs)
      && (Valid(fs) ==> Valid(s.fs))
  {
    var s := Sweep(fs, root, order);
    if ReadDir(fs, root).Ok? {
      assert Siblings(order) by {
        forall i, j | 0 <= i < |order| && 0 <= j < |order| ensures |order[i]| == |order[j]| {
          assert order[i] in Entries(fs, root) && order[j] in Entries(fs, root);
        }
      }
      assert forall c :: c in order ==> IsChildOf(c, root);
      SweepFromSpec(fs, order);
      var k := FirstBlocking(fs, order);
      if s.outcome == Pass {
        forall c | IsChildOf(c, root) && Prunable(fs, c) ensures c !in s.fs.dirs {
          assert c in Entries(fs, root);
          assert order[..k] == order;
        }
        forall c | c in fs.dirs && IsChildOf(c, root) ensures !Blocks(fs, c) {
          assert c in Entries(fs, root);
          var i :| 0 <= i < |order| && order[i] == c;
        }
      } else {
        assert Blocks(fs, order[k]) && order[k] in Entries(fs, root);
      }
      assert forall d :: d in fs.dirs - s.fs.dirs ==> d in order[..k] && Prunable(fs, d);
    }
    if Valid(fs) {
      forall q | q in s.fs.dirs + s.fs.files && q != [] ensures q[..|q| - 1] in s.fs.dirs {
        var d := q[..|q| - 1];
        assert d in fs.dirs;
        if d !in s.fs.dirs {
          assert Prunable(fs, d);
          assert IsChildOf(q, d);
        }
      }
    }
  }

  /** The sweep at src/main.rs:37-46, on the filesystem `disk` with the root
      as working directory. The listing order is the filesystem's; `order`
      reports it. */
  method StartupSweep(disk: Disk, root: Path) returns (o: Outcome, ghost order: seq<Path>)
    modifies disk
    ensures ReadDir(old(disk.fs), root).Ok? ==> Enumerates(order, Entries(old(disk.fs), root))
    ensures Swept(o, disk.fs) == Sweep(old(disk.fs), root, order)
  {
    var listing := disk.List(root);
    if listing.Err? {
      return Fail(listing.error), [];
    }
    var children := listing.value;
    order := children;
    ghost var start := disk.fs;
    var i := 0;
    while i < |children|
      invariant 0 <= i <= |children|
      invariant SweepFrom(disk.fs, children[i..]) == SweepFrom(start, children)
    {
      var c := children[i];
      assert children[i..][1..] == children[i + 1..];
      if c in disk.fs.dirs {
        var entries := disk.List(c);
        if entries.Err? {
          return Fail(entries.error), order;
        }
        if |entries.value| == 0 {
          assert ReadDir(disk.fs, c).value == {} by {
            if q :| q in ReadDir(disk.fs, c).value {
              assert q in entries.value;
            }
          }
          var removed := disk.Remove(c);
          if removed.Fail? {
            return removed, order;
          }
        } else {
          assert entries.value[0] in ReadDir(disk.fs, c).value;
        }
      }
      i := i + 1;
    }
    o := Pass;
  }
}
