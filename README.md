# syncdirs in Dafny

`syncdirs.py` keeps a replica directory in step with a source directory.
Its class `Utils` has two recursive tree walkers:

- `forward_copy` walks the source. It creates every directory the replica lacks, copies every regular file the replica lacks or holds with different content, and only warns about special entries.
- `backward_remove` walks the replica. It deletes regular files the source does not have as regular files. It deletes directories the source does not have as directories, but only when they are already empty at the moment they are examined.

The main loop runs one after the other forever.

## The model

Files:

- `filetree.dfy` (module `FileTree`) holds the filesystem.
  - A tree is a map from paths (sequences of entry names, relative to a root) to entries: `Dir`, `File(bytes)` or `Special`. `Special` stands for anything `os.path.isdir` and `os.path.isfile` both reject.
  - `Wf` says the tree is prefix closed: the root is a directory, and so is every ancestor of every path.
  - `Children` is `os.listdir`.
  - `Event` is what the passes log, as a kind plus a path.
- `forward.dfy` (module `Forward`) and `backward.dfy` (module `Backward`) define what each pass leaves behind as functions of the tree it starts from:
  - `Forwarded(src, rep, p, names)` is the replica once the entries `names` of source directory `p` have been handled.
  - `Pruned(src, rep, p, names)` is the same for the replica entries `names` of replica directory `p`.
  
  These modules also prove the per-entry steps and the properties of the finished pass.
- `syncdirs.dfy` (module `SyncDirs`) holds the class `Utils`, with a `const source` tree and a `var replica` tree.
  - `ForwardCopy(p)` and `BackwardRemove(p)` are the two methods. A relative path `p` stands for `source/p` and `replica/p`.
  - Each method loops over the name set taken once at loop entry, in an arbitrary order (`:|`). It hands each entry to `ForwardEntry` / `BackwardEntry`, which recurse into subdirectories.
  - Each method updates `replica` in place and returns the events it logs.
  - Each loop invariant ties the replica to `Forwarded` / `Pruned` of the names handled so far.
  - `Cycle` is one turn of the main loop.
- `convergence.dfy` (module `Convergence`) covers what repeated passes and cycles do.

Two points about the source's behaviour:

- **The only modelled error is `os.mkdir` failing.** When a source directory's replica path exists but is not a directory, `os.mkdir` raises (syncdirs.py:29-30). The exception aborts the whole pass, and the main loop with it. `ForwardCopy` returns `ok == false` exactly when such a clash exists below `p`.
- **A non-empty stale directory survives the pass.** The docstring of `backward_remove` (syncdirs.py:43-45) says directories missing from the source are deleted. The code, however, checks emptiness before recursing and never after (syncdirs.py:56-60). A stale directory that is not empty when examined is emptied of its stale files but survives the pass. The model follows the code. As a result, one cycle does not in general make the replica equal to the source:
  - `Convergence.OneCycleNotEnough` gives a replica with a stale directory holding a stale file. It needs two cycles.
  - `Convergence.CyclesConverge` shows that a replica converges once the number of cycles exceeds the number of stale entries it started with. This needs both trees to hold only plain files and directories, and needs the replica's entries to have the same kind as the source's wherever both trees hold one. Otherwise a replica file where the source has a directory makes `os.mkdir` fail, and the loop ends.
  - `Convergence.PlainStaleCleared` shows that backward passes alone delete any stale subtree with no special entry inside it, even when a special entry elsewhere keeps another stale directory alive (`Convergence.SpecialKeepsStaleDir`).
  - `Convergence.OneCycleConverges` shows that one cycle suffices when no stale directory has anything inside it.

## Model

| member | source | states |
|---|---|---|
| FileTree.Children | syncdirs.py:24 | the names listed for p are exactly the n with p/n in the tree |
| FileTree.ChildrenEmpty | syncdirs.py:56 | in a well-formed tree, the listing of p is empty exactly when nothing lies below p |
| FileTree.WfInsert | syncdirs.py:29-30 | creating an entry inside an existing directory keeps the tree well formed, unless a directory with contents is replaced |
| FileTree.WfRemove | syncdirs.py:58-59 | removing an entry with nothing below it keeps the tree well formed |
| Forward.ForwardedSpec | syncdirs.py:24-40 | after handling some source entries, every source directory or file below them is in the replica with the source's content. Every other replica entry is unchanged, and nothing is removed |
| Forward.ForwardedUntouched | syncdirs.py:24-26 | an entry not yet handled has nothing changed at or below it |
| Forward.ForwardMkdir | syncdirs.py:28-31 | creating the missing directory c is a mirrored change, and nothing below c has changed yet |
| Forward.ForwardDirStep | syncdirs.py:28-32 | creating a source directory in the replica and recursing into it adds exactly that entry to the handled ones |
| Forward.ForwardLeafStep | syncdirs.py:34-40 | handling a source file writes the source file at its replica path. Handling a special entry changes nothing |
| Forward.ClashFreeLift | syncdirs.py:28-32 | no clash at c and none in the recursion into c means no clash anywhere inside c |
| Forward.ClashLift | syncdirs.py:29-32 | a failing os.mkdir inside the recursion into c is a failure of the pass over the parent |
| Forward.LeafClashFree | syncdirs.py:34-40 | below a source file or special entry, no os.mkdir can fail |
| Forward.LiftJustifiedEvents | syncdirs.py:31-32 | events of the recursion into c are events the pass over the parent may report |
| Forward.ForwardedMirrors | syncdirs.py:24-37 | once every source entry of p is handled, every source directory and file below p has an equal counterpart in the replica |
| Forward.MirrorsFixpoint | syncdirs.py:28-37 | on a replica that already mirrors the source, the pass changes nothing |
| Forward.ForwardIdempotent | syncdirs.py:15-19 | a second forward pass with nothing changed in between leaves the replica as it is |
| Forward.NoActionWhenMirrored | syncdirs.py:29-37 | on a mirroring replica, the only event the pass may report is a skipped special entry (no mkdir, no copy) |
| Forward.MirrorsClashFree | syncdirs.py:29-30 | on a mirroring replica, no os.mkdir fails |
| Forward.QuietWhenMirrored | syncdirs.py:29-37 | on a mirroring replica, every event the pass may report is a skipped special entry |
| Forward.ChangesReportedTrans | syncdirs.py:24-40 | if each of two passes reports every entry it created or changed, the two together report every entry changed between start and end |
| Forward.SpecialsReportedUnion | syncdirs.py:24-26 | special entries reported for the handled names and for the next name are reported for both together |
| Forward.SpecialsReportedLift | syncdirs.py:28-32 | special entries the recursion into c reports are every special entry below c |
| Forward.LeafSpecialsReported | syncdirs.py:34-40 | handling a file or special entry reports every special entry at or below it |
| Backward.PrunedSpec | syncdirs.py:50-67 | the pass only deletes. A handled regular file goes exactly when the source has no regular file there. A stale directory goes exactly when it was empty. Live directories and special entries stay |
| Backward.PrunedUntouched | syncdirs.py:50-52 | an entry not yet handled has nothing changed at or below it |
| Backward.PruneRecurseStep | syncdirs.py:54-62 | recursing into a live directory, or into a non-empty stale one, removes exactly what the pass over the parent removes inside it, and keeps the directory |
| Backward.PruneLeafStep | syncdirs.py:54-67 | handling a stale file or an empty stale directory removes exactly it. Anything else not recursed into stays |
| Backward.JustifiedRemovalLift | syncdirs.py:57-62 | a removal reported by the recursion into c is one the pass over the parent may report |
| Backward.LiftRemovals | syncdirs.py:57-62 | every removal the recursion reports is one the pass over the parent may report |
| Backward.PrunedWf | syncdirs.py:58-67 | the backward pass keeps the replica well formed |
| Backward.RemovalsReportedTrans | syncdirs.py:50-67 | if each of two passes reports every entry it removed, the two together report every entry removed between start and end |
| SyncDirs.Utils.ForwardCopy | syncdirs.py:14-40 | the pass succeeds exactly when no os.mkdir below p meets a non-directory. On success the replica is Forwarded over all source entries of p. In any case the replica changed only by mirrored source entries below p. Every event is a creation of a missing directory, a copy of a missing or differing file, or a skipped special entry. Every created or changed replica entry is reported, and on success every special source entry below p is reported as skipped. On a replica that already mirrors the source it changes nothing and reports no creation or copy |
| SyncDirs.Utils.ForwardEntry | syncdirs.py:25-40 | one loop turn: handles source entry n, extending the replica from Forwarded over the handled names to Forwarded over those names plus n, or aborting exactly on a clash inside n. The log so far grows by justified events, every change is reported, and on success every special entry handled so far is reported |
| SyncDirs.Utils.ForwardDir | syncdirs.py:28-32 | for a source directory n: creates it when missing, aborts exactly when a non-directory sits there or a clash lies inside, and otherwise leaves the replica Forwarded over the handled names plus n. Every change is reported, and on success every special entry inside n |
| SyncDirs.Utils.ForwardLeaf | syncdirs.py:34-40 | for a source file or special entry n: the replica becomes Forwarded over the handled names plus n, a copy is reported exactly when the file was missing or differed, and a special entry is reported as skipped |
| SyncDirs.Utils.BackwardRemove | syncdirs.py:42-67 | the replica becomes Pruned over all replica entries of p, taken from the listing at loop entry. Every event removes a stale file, or a stale directory that was empty. Every removed entry is reported |
| SyncDirs.Utils.BackwardEntry | syncdirs.py:51-67 | one loop turn: handles replica entry n, extending the replica from Pruned over the handled names to Pruned over those names plus n, and reports every entry it removes |
| SyncDirs.Utils.Cycle | syncdirs.py:95-97 | one loop turn succeeds exactly when forward_copy finds no clash, and then leaves the replica as AfterCycle of the old one. An aborted turn has only written mirrored source entries and removed nothing. Every event is a justified forward event, or on success a justified removal from the forwarded replica. On success the log is also complete: every created or copied entry, every special source entry and every removed entry is reported |
| Convergence.RootPassRemoves | syncdirs.py:50-67 | the pass over the roots removes an entry exactly when it is a stale file or an empty stale directory |
| Convergence.DeepestStaleIsEmpty | syncdirs.py:55-59 | a deepest stale directory with no special entry inside it is empty, whatever lies elsewhere in the replica |
| Convergence.PassShrinks | syncdirs.py:54-67 | a backward pass never adds a stale entry. It removes at least one when there is one and no special entry sits inside a stale directory |
| Convergence.PassKeeps | syncdirs.py:58-67 | a backward pass keeps the replica well formed, and keeps special entries out of stale directories |
| Convergence.PassesClearStale | syncdirs.py:54-67 | when no special entry sits inside a stale directory, after as many backward passes as there were stale entries none is left |
| Convergence.PassesKeepWf | syncdirs.py:54-67 | repeated backward passes keep the replica well formed |
| Convergence.PassesKeys | syncdirs.py:54-67 | repeated backward passes never add a path |
| Convergence.PassesGone | syncdirs.py:54-67 | an entry removed by the first pass, or by the passes after it, is absent after the whole run |
| Convergence.PlainStaleWithin | syncdirs.py:55-65 | everything at or below a stale entry with no special entry inside it is itself stale, with no special entry inside it |
| Convergence.StaleSubtreeShrinks | syncdirs.py:54-67 | one backward pass removes at least one entry of a stale subtree with no special entry inside it, whatever the rest of the replica holds |
| Convergence.PlainStaleStep | syncdirs.py:54-67 | such a stale entry that survives a pass is still stale with no special entry inside it, in a strictly smaller subtree |
| Convergence.PlainStaleGone | syncdirs.py:54-67 | a stale entry with no special entry at or below it is gone after as many backward passes as its subtree has entries |
| Convergence.PlainStaleCleared | syncdirs.py:54-67 | a stale entry with no special entry inside it is gone, with everything below it, after as many backward passes as its subtree has entries, even when a special entry elsewhere keeps another stale directory alive |
| Convergence.MixedStale | syncdirs.py:54-67 | with only the root in the source, and a replica holding a stale a/f beside a stale directory b that holds a special entry b/s, two backward passes delete a and a/f and keep b and b/s |
| Convergence.SpecialKeepsStaleDir | syncdirs.py:54-60 | a stale directory with a special entry inside it, and that entry, survive any number of backward passes |
| Convergence.KindsAgreeNoClash | syncdirs.py:28-36 | when every path both trees hold has the same kind and the replica has no special entries, no os.mkdir fails and no file is copied onto a non-file |
| Convergence.ForwardedWf | syncdirs.py:28-37 | on plain trees the forward pass over the roots keeps the replica well formed |
| Convergence.ForwardedStale | syncdirs.py:28-37 | on plain trees the forward pass neither creates nor clears a stale entry |
| Convergence.CycleKeeps | syncdirs.py:95-97 | a cycle on plain trees keeps them plain, leaves a replica that mirrors the source, and strictly shrinks the stale set when it is not empty |
| Convergence.MirrorsNoStaleEqual | syncdirs.py:14-67 | a plain replica that mirrors the source and has no stale entry equals the source |
| Convergence.CycleProgress | syncdirs.py:95-97 | a cycle on plain trees keeps them plain, never adds a stale entry, removes one when there is one, and makes the replica the source when none was stale |
| Convergence.CyclesStep | syncdirs.py:95-98 | after one turn on plain trees the remaining turns still outnumber the stale entries, and k turns are one turn followed by the rest |
| Convergence.CyclesConverge | syncdirs.py:95-98 | on plain trees, more cycles than initial stale entries make the replica equal to the source |
| Convergence.OneCycleConverges | syncdirs.py:95-97 | on plain trees where no stale directory has contents, one cycle makes the replica equal to the source |
| Convergence.NestedFirstCycle | syncdirs.py:55-60 | for a stale directory a holding a stale file a/b, the first cycle removes a/b but keeps a |
| Convergence.OneCycleNotEnough | syncdirs.py:55-60 | that replica is plain, one cycle leaves it different from the source, and two cycles make it equal |
| Convergence.ScenarioOneCycle | syncdirs.py:95-97 | with source {docs/readme.txt = "v1", config.ini = "x"} and replica {docs/readme.txt = "v0", old.log = "y"}, one cycle makes the replica equal to the source |

## Left out

- The `__main__` block (syncdirs.py:70-101) is left out: argument parsing, logging configuration, the banner, the endless loop with `sleep`, and `KeyboardInterrupt` handling. One turn of the loop is `Utils.Cycle`. Repeated turns are the ghost function `Cycles`.
- Log message text is not modelled. Each log call is an `Event` of a kind and a path.
- `os.path.isdir` / `os.path.isfile` following symbolic links is not modelled. Entries are classified abstractly as Dir, File or Special.
- `filecmp.cmp`'s shallow comparison of stat signatures is not modelled, nor `shutil.copy2`'s metadata and `follow_symlinks=False` behaviour. A file is its bytes: "equal" is equality of entries, and a copy makes the replica entry equal to the source entry.
- `shutil.copy2` onto a replica directory or special entry is not modelled. It writes inside the directory or follows library rules. `ForwardCopy` requires (`CopyTargetsOk`) that a source file's replica path is absent or a regular file.
- I/O failures other than the `os.mkdir` clash are not modelled: permissions, full disks, and failing `copy2` / `rmdir` / `remove`. Each would abort the pass just as the clash does.
- Concurrent changes to either tree during a pass are not modelled. Nor are roots that overlap, such as a replica inside the source: the two trees are independent maps.
- Roots that are missing or not directories are excluded by precondition rather than handled.
- SyncDirs.Utils.ForwardCopy: the events are stated to be justified and complete (every created or changed entry, and on success every special entry, is reported), but not their order. The order follows `os.listdir`, which the model takes as arbitrary.
- SyncDirs.Utils.ForwardCopy: after an abort, the special entries reported so far are not stated, because which entries were handled before the clash depends on the listing order.
- SyncDirs.Utils.ForwardCopy: after an abort, the replica is stated only to have changed by mirrored source entries below p. The contract does not say which entries were handled before the clash, because that depends on the arbitrary listing order.
- SyncDirs.Utils.BackwardRemove: the events are stated to be justified and complete (every removed entry is reported), but not their order, which follows `os.listdir`.
