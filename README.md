# elin-mac-helper, modelled in Dafny

elin-mac-helper is a directory-pruning daemon. It watches a directory tree.
When a removal notification arrives, it looks at the directory that held the
removed path. If that directory is now empty, the daemon removes it. The
removal of that directory produces a notification of its own, so cleanup
cascades upward one level per notification. It stops below the watched root.
Before watching starts, one sweep removes the root's entries that are already
empty directories.

This project models the two pieces of logic in `src/main.rs`:

- `handle_event`, the per-notification decision;
- the startup sweep in `main`.

Both run against an abstract filesystem state.

- `paths.dfy` (module `Paths`): paths as sequences of components. It gives
  Rust's `Path::parent` and the component-wise `Path::strip_prefix`.
- `filesystem.dfy` (module `FileSystem`): the filesystem as a set of
  directories and a set of files. Two further sets name the directories whose
  listing is refused and those whose removal is refused. `read_dir` and
  `remove_dir` are fallible functions over this state. The `Disk` class holds
  the state that the sweep changes in place. Its `List` method enumerates a
  directory in an order the filesystem chooses.
- `handler.dfy` (module `Handler`): `HandleEvent` as a pure function from a
  notification, the root and the filesystem to `Result<FS>`. `Err` leaves the
  filesystem unchanged. `Dispatch` is the dispatch loop as a sequential fold,
  including its error isolation. The file closes with the cascade and
  sibling scenarios.
- `sweep.dfy` (module `Sweep`): the startup sweep as a method with a loop.
  It is proved against the fold `SweepFrom`. The lemmas state what the sweep
  removes, judged on the state it started from.

Modelling choices:

- The root is a parameter. It must have the form in which the watcher
  reports event paths.
- The relative parent that `handle_event` computes is resolved under the
  root, because the process's working directory was set to the target at
  `src/main.rs:35`. For a direct entry of the root, that parent is the empty
  path. Every filesystem call on the empty path fails with `NotFound`, so the
  root is never listed and never removed. The root is protected by that
  failure, not by an explicit check: each removal of a direct entry of the
  root ends in a reported `NotFound` error (`DirectChildOfRootRefused`).
- `remove_dir` checks, in this order: the path exists, it is a directory,
  it is not "/" (`ResourceBusy`), removal is permitted, it has no entries.
- The two permission sets are the only way a listing or removal of an
  existing, empty directory other than "/" can fail in a sequential model.
  They are what make the sweep's "first error aborts" path reachable.
- A path that is a file, or lies below a file, is reported as
  `NotADirectory`; any other missing path as `NotFound`.

## Model

| member | source | states |
|---|---|---|
| `Paths.Parent` | src/main.rs:11 | `None` exactly for the empty path; otherwise the parent with the last component appended gives back the path |
| `Paths.StripPrefix` | src/main.rs:10 | a result `rel` satisfies `base + rel == p`; `None` means no `rel` does, so matching is by whole components |
| `Paths.StripPrefixJoin` | src/main.rs:10 | stripping a prefix that was just prepended returns the suffix (the round trip of the join) |
| `Paths.StripPrefixWholeComponents` | src/main.rs:10 | "/r/ab" is not under "/r/a"; "/r/a/b" strips to "b" |
| `Paths.StripPrefixEmpty` | src/main.rs:10-11 | a path strips to the empty path exactly when it is the root itself |
| `Paths.ParentOfStripped` | src/main.rs:10-14 | the relative parent, resolved under the root, is the parent of the absolute event path |
| `FileSystem.ReadDir` | src/main.rs:14 | succeeds exactly on an existing readable directory, with exactly its immediate entries; otherwise `PermissionDenied`, `NotADirectory` (the path is or lies below a file) or `NotFound` |
| `FileSystem.RemoveDir` | src/main.rs:16 | succeeds exactly on an existing, removable, non-root directory without entries; then only that directory is gone; the error for a missing path, a file, "/" (`ResourceBusy`), a refused removal (`PermissionDenied`) and a non-empty directory |
| `FileSystem.Resolve` | src/main.rs:14-16 | a relative path under the working directory; the empty path fails with `NotFound`; otherwise the result strips back to the relative path |
| `FileSystem.EntriesEmpty` | src/main.rs:14 | an empty listing (`read_dir()?.next().is_none()`) is exactly "the directory has no entries" |
| `FileSystem.NoDirThroughFile` | src/main.rs:14 | in a well-formed tree no directory is a file or lies below one, so the `NotADirectory` case never meets an existing directory |
| `FileSystem.RemoveDirValid` | src/main.rs:16 | removing an empty directory keeps the tree well formed: nothing is left without its parent |
| `FileSystem.RemoveDirOtherEntries` | src/main.rs:16 | only the removed directory's parent can change its has-entries status |
| `FileSystem.Disk.List` | src/main.rs:37-38 | iterating `read_dir` yields every entry exactly once, in some order; the same error as `read_dir` otherwise |
| `FileSystem.Disk.Remove` | src/main.rs:42 | `remove_dir` applied in place: the new state is `RemoveDir`'s, or unchanged on error |
| `Handler.Candidate` | src/main.rs:10-16 | the only directory a notification can prune: for a removal, the parent of the first path when that path lies two or more components below the root; it is strictly inside the root |
| `Handler.HandleEvent` | src/main.rs:6-22 | a successful call that changes anything has removed exactly the candidate directory, which existed and had no entries; nothing else changes |
| `Handler.HandlePath` | src/main.rs:10-21 | the same guarantee stated on the first path: only a removal two or more levels below the root changes anything, and only by removing its empty parent |
| `Handler.Apply` | src/main.rs:57 | the `unwrap_or_else` boundary: a failed notification is reported and leaves the filesystem as it was; any change is the removal of the empty candidate |
| `Handler.RemovalBelowFile` | src/main.rs:14 | in a well-formed tree, a removal whose directory is a file or lies below one fails the listing with `NotADirectory` |
| `Handler.RemovalBelowFileExample` | src/main.rs:14 | one instance: the removal of "/r/f/x/y" with "/r/f" a file fails with `NotADirectory` |
| `Handler.NoPathRefused` | src/main.rs:10 | a notification without paths fails with "No path" |
| `Handler.OutsideRootRefused` | src/main.rs:10 | a first path not under the root fails with the strip-prefix error |
| `Handler.RootEventRefused` | src/main.rs:11 | a notification about the root itself fails with "No parent" |
| `Handler.OnlyFirstPathConsulted` | src/main.rs:10 | any paths after the first (a rename's target) never change the outcome |
| `Handler.RescanHintIgnored` | src/main.rs:7-9 | the rescan flag never changes the outcome |
| `Handler.NonRemovalInert` | src/main.rs:12-21 | a non-removal notification changes nothing; it succeeds exactly when its first path lies strictly below the root, and otherwise gives the matching error |
| `Handler.DirectChildOfRootRefused` | src/main.rs:11-14 | a removal of a direct entry of the root fails at `read_dir` of the empty path, whatever the filesystem holds |
| `Handler.RemovalOutcome` | src/main.rs:14-17 | for a removal with a candidate: the listing error, or `Ok` unchanged when the candidate has entries, or the removal error, or `Ok` with exactly the candidate removed |
| `Handler.PrunesEmptyCandidate` | src/main.rs:14-16 | an existing, listable, removable, empty candidate is removed |
| `Handler.RootNeverRemoved` | src/main.rs:11-16 | no file, and neither the root nor any directory above it, is ever removed by a notification |
| `Handler.ApplyValid` | src/main.rs:6-22 | handling a notification keeps the tree well formed |
| `Handler.NonCandidateInert` | src/main.rs:12-21 | a notification without a candidate leaves any filesystem unchanged |
| `Handler.ApplyCommutes` | src/main.rs:52-65 | two notifications whose candidates are not parent and child give the same state in either order |
| `Handler.Dispatch` | src/main.rs:53-63 | the sequential dispatch loop keeps every file, only removes directories, and only ones strictly inside the root |
| `Handler.DispatchSplit` | src/main.rs:53-63 | dispatching a stream in two pieces equals dispatching it whole: nothing in the first piece stops the second |
| `Handler.DispatchSkipsFailure` | src/main.rs:57-62 | a delivery error, or a refused notification, drops out of the stream without affecting anything after it |
| `Handler.DispatchValid` | src/main.rs:53-63 | dispatching keeps the tree well formed |
| `Handler.DispatchStep` | src/main.rs:55-58 | one delivered notification is handled, then the rest of the stream |
| `Handler.CascadeFirst` | src/main.rs:14-16 | with "/r/a/b/file.txt" gone, its removal notification prunes "/r/a/b" |
| `Handler.CascadeSecond` | src/main.rs:14-16 | the notification for "/r/a/b" then prunes "/r/a" |
| `Handler.Cascade` | src/main.rs:6-22 | the three removal notifications of the cascade leave "/" and "/r" only: "/r" itself stays |
| `Handler.SiblingsFirst` | src/main.rs:14-16 | the removal notification for "/r/x/f1" prunes "/r/x" |
| `Handler.SiblingsSecond` | src/main.rs:14-16 | the removal notification for "/r/y/f2" then prunes "/r/y" |
| `Handler.ConcurrentSiblings` | src/main.rs:52-65 | the removal notifications for the only files of "/r/x" and "/r/y" prune both, in either order |
| `Sweep.SweepEntry` | src/main.rs:40-44 | the loop body on one entry: it fails only on a directory, and any change is the removal of that entry, an existing directory without entries |
| `Sweep.SweepFrom` | src/main.rs:37-46 | the loop over the listed entries in order, stopping at the first error: files stay, and only listed entries are removed |
| `Sweep.Sweep` | src/main.rs:37-46 | the sweep as a whole: a failed listing of the root changes nothing; otherwise files stay and only entries in the listing order are removed |
| `Sweep.SweepEntryCases` | src/main.rs:40-44 | the loop body fails on a blocking entry, removes a prunable one, and leaves anything else alone |
| `Sweep.FirstBlocking` | src/main.rs:38-42 | the first entry where the sweep stops: every entry before it does not block, the one at it does |
| `Sweep.FirstBlockingAgree` | src/main.rs:37-46 | states that judge the entries alike stop the sweep at the same entry |
| `Sweep.SiblingUnaffected` | src/main.rs:41-42 | removing one entry leaves how its siblings are judged unchanged |
| `Sweep.RemovedCons` | src/main.rs:37-46 | what the sweep removes is the first entry, when prunable, plus what it removes from the rest |
| `Sweep.RemovedAgree` | src/main.rs:37-46 | states that judge the entries alike remove the same entries |
| `Sweep.HeadRemovedAgree` | src/main.rs:41-42 | after the first entry is removed, the rest of the sweep behaves as on the starting state |
| `Sweep.SweepFromSpec` | src/main.rs:37-46 | the loop removes exactly the prunable entries before the first blocking one, changes nothing else, and fails with that entry's error exactly when one blocks |
| `Sweep.SweepTheorem` | src/main.rs:37-46 | for any listing order: files stay, and only prunable direct entries of the root are removed; it passes exactly when the root can be listed and no entry blocks, and then every empty directory entry is gone; no recursion; the tree stays well formed |
| `Sweep.StartupSweep` | src/main.rs:37-46 | the loop over the root's listing does what `Sweep` says for the order the listing came in |

## Left out

- Logging (`env_logger` setup and every `info!`/`warn!`/`error!` call). It only formats output. This includes `path.strip_prefix(&path)` at `src/main.rs:43`, which only feeds a log line.
- Argument parsing and `set_current_dir` (`src/main.rs:31-35`). The root is a parameter of the model, and relative paths are resolved under it.
- Watcher creation, the channel and the notify library (`src/main.rs:47-51`). They are a foreign library and OS event delivery; notifications arrive as a sequence of `Delivery` values.
- Threads (`thread::scope`, `spawn`, `src/main.rs:52-65`). The dispatch loop is a sequential fold. Concurrency is covered only by the order-independence lemmas `ApplyCommutes` and `ConcurrentSiblings`.
- Races between the emptiness check and `remove_dir`. Each call is one step on one state; no interleavings are modelled.
- Errors while iterating the root's listing (`entry?` at `src/main.rs:38`). The listing is a snapshot, and iterating it never fails.
- Symbolic links and the fact that `is_dir` follows them; Rust path normalisation ("." components, trailing separators). A path is its sequence of normal components.
- The form of the root. `handle_event` strips `full_path`, the target as given on the command line or ".", while the watcher is registered on "." after the change of directory (`src/main.rs:32-36`, `src/main.rs:50`, `src/main.rs:57`). In the model the root and event paths share one form, and `[]` stands for "/", "" and "." alike. If the watcher reported absolute paths for a relative target, every notification would fail `strip_prefix`; the notify library is not part of this model, so that case is neither represented nor claimed.
- Liveness of the cascade. It depends on the event source emitting a removal notification for each pruned directory. The model proves only the steps of one concrete cascade (`Cascade`).
