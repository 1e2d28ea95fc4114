# Verified models of programs from The Linux Programming Interface

The repository holds the example programs of a book on Linux system programming. Most are short, but some carry a real
algorithm or protocol. This project models those and proves what they are for:

- **The recursive directory watcher** (`tlpi-book/inotify/inotify_dtree.c`). `Paths`, `DirTree` and `DirView` describe a
  changing directory tree whose pathnames are derived from one named edge per directory. `WatchModel` says on values what
  the watcher computes, `WatchSimulation` and `WatchRuns` prove that its cache follows the tree over whole runs,
  `WatchCache` is the program itself: an array of slots, a list of roots and the event loops, changed in place, each method
  proved equal to the value-level operation, and `WatchProgram` puts the two together.
  `WatchAnomalies` is about the events that no single change queues: lost events, refused removals, unmounts.
- **Seccomp filters** (`tlpi-book/seccomp/`). `Bpf` is an interpreter for classic BPF; `SeccompFilters` holds the
  instruction tables and proves that each is its policy, written in the numbers of the Linux ABI, for every system call.
- **Namespace hierarchies** (`namespaces_of.go`, `ns_capable.c`). `Namespaces` is the recursive builder over a map that is
  changed in place, `NamespaceScan` the scan over all processes, `NamespaceWalk` the display, `WrapText` the text wrapper,
  `UserNamespaces` the ancestor search and the capability decision.
- **Protocols that must not lose a wake-up.** `MqNotify`, `SigchldReap` and `PingPong` are interleaved step systems with
  theorems about every run (`Runs`).
- **Tables and strings changed in place.** `Environment` (setenv and unsetenv), `AclText`, `AclMeaning`, `AclParse`,
  `AclUpdate` and `AclEditor` (the access control list editor), `Splitting` and `PathSearch` (the PATH search of execlp).

`dafny verify dfyconfig.toml` checks everything.

## What is modelled as given

The kernel and the C library appear only through what the programs rely on. An inotify mark sits on an i-node and survives
renames; a descriptor is not used twice in one instance; a change queues its events in the order MOVED_FROM, MOVED_TO,
MOVE_SELF, or DELETE_SELF, IGNORED; `nftw` reports exactly the directories at and below its starting point, among other files and directories
that have gone meanwhile (`WatchSimulation.FaithfulWalk`, shown to be possible for every tree by `SomeFaithfulWalk`). Read sizes are left to the
kernel. Namespace hierarchies are finite and acyclic. The answers of `execve` to each attempt, the user and group databases, the validity test of an ACL
and the availability of memory are parameters.

## Where the code does not do what one would expect

- A root that is renamed into another monitored directory is lost: its new place is announced while its old watches are
  still in the cache, so nothing is added, and the following MOVE_SELF removes those watches (`WatchRuns.RootIntoTreeLost`).
  `WatchRuns.RootIntoTreeExample` is a concrete case and `WatchRuns.FollowsUnlessRootIntoTree` proves that this is the only
  kind of change, among all those the model has, that the program does not follow.
- The namespace display shows every entry exactly once if and only if exactly one root was met. With several, it shows the
  tree of the newest root and what the invisible entry holds, once, and nothing of the others; with none, it starts from
  the initial value of `rootNS`, which equals the key of the invisible entry, and shows everything twice. Since the user
  links are scanned with the others, a scan meets no root only if the kernel has no user namespaces or a process goes
  away before its user link is opened
  (`NamespaceWalk.ScanThenDisplay`, `OtherRootHidden`; `TwoRootsExample` and `NoRootExample` are the program in both cases).
- `setenv` removes the old entries before it allocates the new one. A call that fails leaves the environment as it was if
  and only if its arguments are refused or getenv does not find the name (`Environment.Environ.Setenv`);
  `Environment.LostVariable` is a call that loses the variable.
- A decimal identifier stands for itself if and only if it is below 2^32 - 1. Up to LONG_MAX larger ones wrap around to 32
  bits; 2^32 - 1, whatever wraps around to it, and everything above LONG_MAX, which is clamped to it, are refused
  (`AclText.NumberIsItsId`, `NumberIsReadAs`, `NarrowedRanges`; `NumbersNotTheirIds` has the two smallest cases). So an
  entry is read back as printed exactly in that range (`AclText.EntryReadsBack`).
- A comment in execlp (line 153) calls an empty prefix the last one; the code treats any empty prefix as ".".

## Model

| member | source | states |
|---|---|---|
| WatchRuns.WatcherFollowsFileSystem | tlpi-book/inotify/inotify_dtree.c:726-1026 | From any state in step with the tree, after every run of creations, deletions and renames in, out, within and of the monitored trees, with left-over IN_IGNORED events in between: the program has never rebuilt, has exited only if no root is left, and otherwise its cache is exactly the map from watch descriptors to the current pathnames of the monitored directories |
| WatchProgram.Run | tlpi-book/inotify/inotify_dtree.c:726-1152 | The same for the program in place: after any run it has exited if and only if no root is left, has never rebuilt, and otherwise its used slots are exactly the watch map of the tree as it then is |
| WatchProgram.FollowRun | tlpi-book/inotify/inotify_dtree.c:726-1152 | Change after change, the program is in the state of the run on values and ends as it does |
| WatchProgram.StartUp | tlpi-book/inotify/inotify_dtree.c:677-717 | From the roots it was given, the program builds a cache whose slots are the watch map of the tree |
| WatchRuns.FollowsUnlessRootIntoTree | tlpi-book/inotify/inotify_dtree.c:762-1017 | A possible change is followed if and only if it does not rename a root into a monitored directory |
| WatchRuns.StepFollows | tlpi-book/inotify/inotify_dtree.c:762-1017 | One legal change whose events are processed before the next leaves the watcher in step, or stops it exactly when no root is left |
| WatchRuns.RootIntoTreeLost | tlpi-book/inotify/inotify_dtree.c:992-1017 | Every rename of a root into a monitored directory: the root stays monitored, under a new pathname, and other roots are left, but if the program goes on, everything cached under the old pathname is gone and the root has no watch; so the cache is wrong |
| WatchRuns.RootIntoTreeExample | tlpi-book/inotify/inotify_dtree.c:992-1017 | A concrete tree, state and rename that shows it |
| WatchRuns.StaleSkipped | tlpi-book/inotify/inotify_dtree.c:738-758 | IN_IGNORED events left over from removed watches change neither the final state nor how the run ends |
| WatchSimulation.RebuildRecovers | tlpi-book/inotify/inotify_dtree.c:677-717 | Rebuilding brings the cache in step with the tree from any cache and any inotify instance whatever, and keeps the roots |
| WatchSimulation.DiscardRecovers | tlpi-book/inotify/inotify_dtree.c:738-1017 | Whatever events arrive, of racing changes too, and however wrong the cache: a run that ends with a rebuild ends in step with the tree as it then is, provided the list of roots is |
| WatchAnomalies.OverflowRecovers | tlpi-book/inotify/inotify_dtree.c:959-977 | After a queue overflow, whatever was lost and however wrong the cache: the rest is dropped and the watcher is in step with the tree |
| WatchAnomalies.UnknownWatchRecovers | tlpi-book/inotify/inotify_dtree.c:738-758 | The same after an event for a descriptor the cache does not have |
| WatchAnomalies.UnknownTargetRecovers | tlpi-book/inotify/inotify_dtree.c:902-918 | The same after a rename into a directory the cache does not have |
| WatchAnomalies.RefusedZapRecovers | tlpi-book/inotify/inotify_dtree.c:928-951 | The same when the kernel refuses to remove a watch under a directory that moved out |
| WatchAnomalies.RefusedRootZapRecovers | tlpi-book/inotify/inotify_dtree.c:1005-1016 | The same when it refuses one under a root that moved |
| WatchAnomalies.UnmatchedIsMovedOut | tlpi-book/inotify/inotify_dtree.c:928-957 | A directory that leaves without a matching arrival is treated alike whatever follows |
| WatchAnomalies.PairTakenTogether | tlpi-book/inotify/inotify_dtree.c:894-926 | The two halves of a rename are taken together, and no watch, root or descriptor changes |
| WatchAnomalies.UnmountForgets | tlpi-book/inotify/inotify_dtree.c:979-990 | An unmounted directory leaves the cache and nothing else changes |
| WatchAnomalies.NothingToDo | tlpi-book/inotify/inotify_dtree.c:738-802 | Events about other files, second announcements of a cached directory, moves of directories that are no roots and IN_IGNORED change nothing |
| WatchSimulation.CacheIsWatchMap | tlpi-book/inotify/inotify_dtree.c:146-157 | A cache in step with the tree is the map from descriptors to pathnames of the monitored directories, and nothing else |
| WatchSimulation.WatchSubtreeAgrees | tlpi-book/inotify/inotify_dtree.c:480-572 | Watching a subtree adds exactly the directories at and under its pathname |
| WatchSimulation.TraverseAgrees | tlpi-book/inotify/inotify_dtree.c:480-533 | Watching one directory adds just that directory, and asks for IN_MOVE_SELF exactly if it is a root |
| WatchSimulation.ZapRootAgrees | tlpi-book/inotify/inotify_dtree.c:445-464 | Clearing a root that has gone keeps list and tree in agreement; the program ends exactly when no root is left |
| WatchSimulation.CountedUntilExit | tlpi-book/inotify/inotify_dtree.c:445-464 | Whatever events arrive: ignoreRootDirs is the number of cleared roots, below numRootDirs while the program runs and equal to it exactly when it exits |
| WatchSimulation.SomeFaithfulWalk | tlpi-book/inotify/inotify_dtree.c:540-558 | Every tree has a traversal that meets the contract assumed of nftw |
| WatchModel.CutsDoNotMatter | tlpi-book/inotify/inotify_dtree.c:1079-1151 | However a stream of events is cut into reads, with the one-shot retry, the final state and the groups of events taken are those of a single read; the loop ends |
| WatchModel.EachEventOnce | tlpi-book/inotify/inotify_dtree.c:1079-1086 | Every event is taken exactly once and in order, a matched IN_MOVED_FROM and IN_MOVED_TO pair together, until the instance is discarded or the program exits |
| WatchModel.LookaheadOfOne | tlpi-book/inotify/inotify_dtree.c:894-957 | One call depends on at most the next event, and with a next event at hand the first try is like the second |
| WatchModel.RewriteUndone | tlpi-book/inotify/inotify_dtree.c:580-610 | A subtree rename is undone by the reverse rename if nothing was cached under the new pathname |
| Paths.RebaseEffect | tlpi-book/inotify/inotify_dtree.c:595-609 | A rename changes a pathname if and only if it is the old one or lies below it at a '/' boundary, keeps the rest, and leaves a longer-named sibling alone |
| Paths.RebaseUndone | tlpi-book/inotify/inotify_dtree.c:595-609 | The reverse rename restores every pathname not already under the new prefix |
| Paths.SubtreeOfJoin | tlpi-book/inotify/inotify_dtree.c:596-598 | The prefix test climbs exactly one component at a time |
| DirTree.SubtreeTest | tlpi-book/inotify/inotify_dtree.c:638-640 | On the pathnames of a well-formed tree the string test decides exactly who is below whom |
| DirTree.EdgeChange | tlpi-book/inotify/inotify_dtree.c:576-610 | Moving one edge changes no pathname outside the moved directory and keeps every tail inside it |
| DirView.RenameView | tlpi-book/inotify/inotify_dtree.c:580-610 | A rename inside the monitored trees changes the tree's pathnames exactly as the rewrite loop does |
| DirView.AttachView | tlpi-book/inotify/inotify_dtree.c:762-802 | A directory created or moved in adds exactly the directories under its pathname |
| DirView.DetachView | tlpi-book/inotify/inotify_dtree.c:928-951 | A directory moved out takes exactly the directories under its pathname with it |
| DirView.RemoveView | tlpi-book/inotify/inotify_dtree.c:804-816 | A removed directory takes only itself away |
| WatchCache.IndexedIsTidy | tlpi-book/inotify/inotify_dtree.c:245-282 | In every valid cache used slots have pairwise distinct descriptors and unused ones have -1 and no pathname |
| WatchCache.GrowSlots | tlpi-book/inotify/inotify_dtree.c:270-278 | Growth keeps every old slot and the map |
| WatchCache.RewriteSlots | tlpi-book/inotify/inotify_dtree.c:595-609 | Rewriting all slots, used or not, is the rewrite of the map |
| WatchCache.Watcher.constructor | tlpi-book/inotify/inotify_dtree.c:355-419 | The state before the first build: no slot, no root cleared |
| WatchCache.Watcher.FindWatch | tlpi-book/inotify/inotify_dtree.c:203-212 | A slot with the descriptor if and only if the map has it, and then with the map's pathname; otherwise -1 |
| WatchCache.Watcher.PathnameInCache | tlpi-book/inotify/inotify_dtree.c:302-318 | True exactly if the map has the pathname as a value |
| WatchCache.Watcher.FindEmptyCacheSlot | tlpi-book/inotify/inotify_dtree.c:260-282 | An unused slot; the array grows, by 200, exactly if there was none, and every old slot stays |
| WatchCache.Watcher.AddWatchToCache | tlpi-book/inotify/inotify_dtree.c:286-297 | The map gains one pair and the slots stay tidy |
| WatchCache.Watcher.MarkCacheSlotEmpty | tlpi-book/inotify/inotify_dtree.c:246-255 | The map loses that descriptor, and one slot changes |
| WatchCache.Watcher.RewriteCachedPaths | tlpi-book/inotify/inotify_dtree.c:580-610 | Every slot keeps its descriptor and has its pathname rebased; the map is the rewritten map |
| WatchCache.Watcher.TraverseTree | tlpi-book/inotify/inotify_dtree.c:480-533 | Refines the value-level operation: a directory is watched, and its pathname cached unless the descriptor is; other files and directories that have gone are passed over |
| WatchCache.Watcher.WatchSubtree | tlpi-book/inotify/inotify_dtree.c:540-572 | Refines the value-level operation over everything nftw reports |
| WatchCache.Watcher.FindRootDirPath | tlpi-book/inotify/inotify_dtree.c:424-440 | The first root with that pathname, if there is one |
| WatchCache.Watcher.ZapRootDirPath | tlpi-book/inotify/inotify_dtree.c:445-464 | Clears that root, counts it, and tells whether none is left |
| WatchCache.Watcher.ZapSubtree | tlpi-book/inotify/inotify_dtree.c:616-667 | If no removal is refused, exactly the slots of the subtree are emptied and counted, whether the argument is a separate string or sits in a slot that the call clears; otherwise -1, and exactly the slots of the subtree before the first refused one have been emptied and their watches removed |
| WatchCache.Watcher.Reinitialize | tlpi-book/inotify/inotify_dtree.c:677-717 | Refines the value-level rebuild from the remaining roots |
| WatchCache.Watcher.ProcessNextInotifyEvent | tlpi-book/inotify/inotify_dtree.c:726-1026 | One call is the value-level step, on every branch, with the same number of events taken |
| WatchCache.Watcher.ProcessMovedFromEvent | tlpi-book/inotify/inotify_dtree.c:818-957 | The rename, move-out and hanging cases of IN_MOVED_FROM |
| WatchCache.Watcher.ProcessRootMoved | tlpi-book/inotify/inotify_dtree.c:992-1017 | A moved root is cleared and its subtree zapped, its pathname being read from a slot that the zap empties |
| WatchCache.Watcher.ProcessInotifyEvents | tlpi-book/inotify/inotify_dtree.c:1039-1152 | One read and its loop, for any read sizes, is a stretch of the reference run; (events remaining, firstTry) decreases |
| WatchCache.Watcher.ProcessQueue | tlpi-book/inotify/inotify_dtree.c:1039-1152 | Repeated calls end in the state of the reference run over the whole queue |
| Bpf.AcceptableHalts | tlpi-book/seccomp/seccomp_arg64.c:45-94 | A program whose jumps go forward and stay in range and that ends in a return gives a verdict it names, for every input, and the machine that executes one instruction at a time comes to it within the program's length |
| Bpf.StepAgrees | tlpi-book/seccomp/seccomp_arg64.c:45-94 | One instruction of that machine does not change what the run comes to |
| Bpf.LoadTakesWord | tlpi-book/seccomp/seccomp_arg64.c:71-89 | A load takes the word at its offset of the call number, the architecture, the instruction pointer and the arguments, low halves first |
| Bpf.Relocate | tlpi-book/seccomp/seccomp_unotify_mkdir.c:66-73 | A program behaves the same wherever it is placed behind a prologue |
| SeccompFilters.PrologueGuards | tlpi-book/seccomp/seccomp_unotify_mkdir.c:66-73 | For every suffix: native x86-64 calls reach it with the call number in the accumulator, all others are killed |
| SeccompFilters.ProloguesAgree | tlpi-book/seccomp/seccomp_deny_open.c:45-64 | The six-instruction prologue is equivalent for every suffix |
| SeccompFilters.ControlOpenMeetsPolicy | tlpi-book/seccomp/seccomp_control_open.c:45-102 | Acceptable, and for every call the stated policy: O_CREAT kills, opening for writing fails with ENOTSUP, the rest is allowed, with the flags in the second argument of open and the third of openat |
| SeccompFilters.DenyOpenMeetsPolicy | tlpi-book/seccomp/seccomp_deny_open.c:45-73 | Acceptable, and kills exactly open, openat and calls that are not native |
| SeccompFilters.Arg64MeetsPolicy | tlpi-book/seccomp/seccomp_arg64.c:45-94 | Acceptable, and allows lseek exactly for unsigned 64-bit offsets up to 1000; error 2 from 2^32 on, error 1 between |
| SeccompFilters.MultiarchMeetsPolicy | tlpi-book/seccomp/seccomp_multiarch.c:111-185 | Acceptable, and under each of three ABIs mq_notify fails with its own number; other architectures are killed |
| SeccompFilters.InstallFilter2 | tlpi-book/seccomp/seccomp_unotify_mkdir.c:126-169 | The table with its last entry overwritten as the option says, and what it decides for every call |
| SeccompFilters.SecondFilterPrecedence | tlpi-book/seccomp/seccomp_unotify_mkdir.c:151-165 | With both filters, mkdir notifies the supervisor if the second says TRACE and does not if it says ERRNO; all other calls are as with one |
| SeccompFilters.SecondMeetsPolicy | tlpi-book/seccomp/seccomp_unotify_mkdir.c:126-165 | The second filter alone: mkdir fails with ENOTSUP or goes to a tracer, as the option says |
| SeccompFilters.NotifyMeetsPolicy | tlpi-book/seccomp/seccomp_unotify_mkdir.c:85-96 | The first filter alone: mkdir notifies the supervisor |
| Namespaces.NamespaceInfo.constructor | tlpi-book/namespaces/namespaces_of.go:1040-1040 | An empty list and no root yet |
| Namespaces.NamespaceInfo.AddNamespace | tlpi-book/namespaces/namespaces_of.go:249-268 | Terminates on every acyclic hierarchy; adds exactly the namespace and its line of holders, links each once, adds the process to its namespace only, and makes the root of that line rootNS exactly if it is newly entered |
| Namespaces.NamespaceInfo.AddNamespaceToList | tlpi-book/namespaces/namespaces_of.go:274-378 | The same without the process, although the entry exists before its parent does |
| Namespaces.NamespaceInfo.NewEntry | tlpi-book/namespaces/namespaces_of.go:277-298 | A new entry with the kernel's attributes, waiting to be linked |
| Namespaces.NamespaceInfo.AddChild | tlpi-book/namespaces/namespaces_of.go:368-374 | A waiting entry is linked under its holder and under nothing else |
| Namespaces.NamespaceInfo.AddToInvisible | tlpi-book/namespaces/namespaces_of.go:347-357 | A nonuser namespace without a visible owner is linked under the invisible entry, created if need be |
| Namespaces.Enter | tlpi-book/namespaces/namespaces_of.go:279-280 | Entering a namespace keeps the list right but for that entry |
| Namespaces.Link | tlpi-book/namespaces/namespaces_of.go:373-374 | Linking a waiting entry makes it right |
| Namespaces.LineIn | tlpi-book/namespaces/namespaces_of.go:257-259 | A linked entry has all its holders in the list, so finding it is reason enough to stop |
| NamespaceScan.ScanProcesses | tlpi-book/namespaces/namespaces_of.go:460-481 | After any scan: an entry for every namespace met and every holder, each linked once under its holder, processes under their namespaces in order, and rootNS the newest root |
| NamespaceScan.NewestIsLast | tlpi-book/namespaces/namespaces_of.go:327-336 | If any root was met, rootNS is the one first met when all others had been met |
| NamespaceScan.InOneList | tlpi-book/namespaces/namespaces_of.go:249-378 | Every namespace that is not a root is in exactly one list of children, once; a root is in none |
| NamespaceScan.ChildrenAreTheKernels | tlpi-book/namespaces/namespaces_of.go:307-314 | The children of an entry, in the kernel's terms: in the PID hierarchy the namespaces whose parent it is, otherwise those whose owner it is, each once |
| NamespaceScan.InvisibleChildren | tlpi-book/namespaces/namespaces_of.go:325-357 | The children of the invisible entry: outside the PID hierarchy, the nonuser namespaces whose owner the kernel does not show |
| NamespaceScan.RootsAreTheKernels | tlpi-book/namespaces/namespaces_of.go:327-336 | The roots: namespaces without a visible parent in the PID hierarchy, user namespaces without a visible parent otherwise |
| NamespaceScan.EntriesAreClosed | tlpi-book/namespaces/namespaces_of.go:249-378 | Every namespace scanned has an entry with its process, and every entry has above it what the kernel answers |
| NamespaceScan.OrderDoesNotMatter | tlpi-book/namespaces/namespaces_of.go:460-481 | Two scans of the same processes in any order give the same entries, types, multisets of children and of processes, and the same root if there is one |
| NamespaceScan.PidsCounted | tlpi-book/namespaces/namespaces_of.go:263-265 | A process is recorded for a namespace as often as it was scanned there |
| NamespaceScan.PidsAppend | tlpi-book/namespaces/namespaces_of.go:263-265 | Processes are recorded in the order of the scan |
| NamespaceWalk.WalkVisitsBelow | tlpi-book/namespaces/namespaces_of.go:712-729 | The walk terminates and visits exactly the entries below its start, each once |
| NamespaceWalk.WalkIsNested | tlpi-book/namespaces/namespaces_of.go:712-729 | An entry comes first in its own walk, and that walk is an unbroken part of every walk that reaches it: parents come before children, and subtrees in one piece |
| NamespaceWalk.SiblingsInOrder | tlpi-book/namespaces/namespaces_of.go:726-728 | Children are walked in the order of their list |
| NamespaceWalk.DisplayIsComplete | tlpi-book/namespaces/namespaces_of.go:781-794 | The display visits every entry exactly once if and only if it starts at a root and there is no other |
| NamespaceWalk.ScanThenDisplay | tlpi-book/namespaces/namespaces_of.go:781-794 | After any scan that met something, how often each entry is shown: with no root twice; otherwise once below the newest root or the invisible entry, and not at all elsewhere. So each is shown exactly once if and only if exactly one root was met |
| NamespaceWalk.OtherRootHidden | tlpi-book/namespaces/namespaces_of.go:781-794 | Nothing below any root but the newest is shown |
| NamespaceWalk.TwoRootsExample | tlpi-book/namespaces/namespaces_of.go:327-336 | Two PID namespaces without visible parents: the first is not shown |
| NamespaceWalk.NoRootExample | tlpi-book/namespaces/namespaces_of.go:787-794 | One network namespace without a visible owner: it is shown twice |
| WrapText.WrapTextAt | tlpi-book/namespaces/namespaces_of.go:641-667 | The loop writes the greedy wrapping of the words of the text, with Unicode white space and lengths in bytes, and nothing for a text without words |
| WrapText.WrapWraps | tlpi-book/namespaces/namespaces_of.go:656-664 | The words are kept in order and every line fits or is a single word |
| WrapText.GreedyStaysAhead | tlpi-book/namespaces/namespaces_of.go:656-664 | Against every wrapping of the same words, the greedy one has fewer lines, or as many with no more words on the last |
| WrapText.WrapIsShortest | tlpi-book/namespaces/namespaces_of.go:656-664 | No wrapping has fewer lines |
| WrapText.WrapKeepsText | tlpi-book/namespaces/namespaces_of.go:641-667 | Splitting the result at white space gives back the words of the text |
| WrapText.ResultLines | tlpi-book/namespaces/namespaces_of.go:641-667 | Cut at its newlines, the result has indented lines within the width or without a space, and no more of them than any wrapping |
| WrapText.FieldsOfSpread | tlpi-book/namespaces/namespaces_of.go:643-645 | Whatever white space is before, between and after them, the words of a text are its words |
| WrapText.SpaceCodes | tlpi-book/namespaces/namespaces_of.go:643-645 | White space is the 25 code points of the Unicode property |
| WrapText.BytesAreEncoded | tlpi-book/namespaces/namespaces_of.go:654-662 | The length counted is that of the UTF-8 encoding; for ASCII text, the number of characters |
| UserNamespaces.IsAncestorUserns | tlpi-book/namespaces/ns_capable.c:166-210 | None if and only if x is not a proper ancestor of y; otherwise the one namespace on y's chain whose parent is x |
| UserNamespaces.Capabilities | tlpi-book/namespaces/ns_capable.c:257-314 | The verdict is the one the rule gives for the process's namespace, its effective user and the target |
| UserNamespaces.SameVerdictBelowChild | tlpi-book/namespaces/ns_capable.c:282-292 | The verdict is the same for every target below the same immediate child, and depends only on who owns that child |
| MqNotify.InvKept | tlpi-book/pmsg/mq_notify_via_thread.c:21-87 | Every step keeps: exactly one registration or thread about to register, no failed mq_notify, a thread on the way to a nonempty queue, sent = received + queued |
| MqNotify.InvAlways | tlpi-book/pmsg/mq_notify_via_thread.c:21-87 | So does every run |
| MqNotify.QuietMeansDrained | tlpi-book/pmsg/mq_notify_via_thread.c:35-55 | When only sends are possible, the queue is empty, all is received and a registration is in place |
| MqNotify.RunWithoutSends | tlpi-book/pmsg/mq_notify_via_thread.c:35-55 | Without sends the threads come to rest, however they are scheduled |
| MqNotify.SetupFindsNone | tlpi-book/pmsg/mq_notify_via_thread.c:57-69 | mq_notify is called only when no registration is in place |
| MqNotify.AllReceived | tlpi-book/pmsg/mq_notify_via_thread.c:21-87 | At rest, the messages received in the run are exactly those that were queued at the start or sent in it |
| MqNotify.NoLostMessage | tlpi-book/pmsg/mq_notify_via_thread.c:21-87 | All of this from the start, for every initial queue and every interleaving |
| SigchldReap.InvKept | tlpi-book/procexec/multi_SIGCHLD.c:22-109 | Every step keeps: numLiveChildren counts unforked, running and zombie children; zombies only with SIGCHLD pending or the reap loop running; signals caught never exceed children gone |
| SigchldReap.RunFacts | tlpi-book/procexec/multi_SIGCHLD.c:22-109 | Every run keeps it, and every run is finite |
| SigchldReap.NeverStuck | tlpi-book/procexec/multi_SIGCHLD.c:98-103 | Nothing can happen any more if and only if the parent has left its loop; it never sleeps with only zombies left |
| SigchldReap.Counts | tlpi-book/procexec/multi_SIGCHLD.c:22-109 | Over every run: signals caught are deliveries, counted one by one; children gone are reapings; children started are forks |
| SigchldReap.NoLostChild | tlpi-book/procexec/multi_SIGCHLD.c:22-109 | For any number of children and any interleaving: at the end all are reaped, each once, and sigCnt is the number of deliveries of the signal, at least one if there was a child and at most one per child |
| PingPong.RunFacts | tlpi-book/signals/sig_speed_sigsuspend.c:50-72 | One token at every moment of every run, and each step is one of a fixed number |
| PingPong.SendsAreSafe | tlpi-book/signals/sig_speed_sigsuspend.c:55-71 | Whoever sends finds its last signal taken and the other process waiting |
| PingPong.ExactlyNRounds | tlpi-book/signals/sig_speed_sigsuspend.c:50-72 | No signal is coalesced or sent to a process that is gone, exactly one step is possible until the end, and both sides finish exactly n rounds |
| Environment.Environ.Unsetenv | tlpi-book/proc/setenv.c:18-48 | Refuses a bad name; otherwise the array holds, in order, exactly the entries not of that name |
| Environment.Environ.ShiftBack | tlpi-book/proc/setenv.c:38-39 | Shifting removes one entry and keeps the rest and the terminator |
| Environment.Environ.constructor | tlpi-book/proc/setenv.c:32-32 | An array that holds the given entries and a NULL |
| Environment.Environ.Setenv | tlpi-book/proc/setenv.c:50-76 | The new entries in every case: refused, kept without overwrite, replaced, and lost for want of memory; a failed call changes nothing if and only if its arguments are refused or the name was not set |
| Environment.NothingRemoved | tlpi-book/proc/setenv.c:32-45 | Removing a name changes nothing if and only if getenv does not find it |
| Environment.LostVariable | tlpi-book/proc/setenv.c:64-69 | A call that fails and takes the old value with it |
| Environment.LookupWithout | tlpi-book/proc/setenv.c:18-48 | unsetenv removes the name from the first-match map and leaves every other name, also with duplicates and prefixes |
| Environment.LookupSet | tlpi-book/proc/setenv.c:50-76 | setenv binds the name and leaves every other name |
| Environment.SetThenRemove | tlpi-book/proc/setenv.c:18-76 | Setting and then unsetting is unsetting |
| Environment.OneName | tlpi-book/proc/setenv.c:33-33 | An entry belongs to at most one name, even if one is a prefix of the other |
| Splitting.FieldsSplit | tlpi-book/procexec/execlp.c:138-163 | The fields contain no separator and joined by it make up the string |
| Splitting.SplitIsUnique | tlpi-book/procexec/execlp.c:138-163 | There is only one such list of fields |
| PathSearch.BuildPathname | tlpi-book/procexec/execlp.c:149-158 | The prefix, a slash and the filename, or "./" and the filename for an empty prefix; with its terminator it exactly fills the memory computed for it |
| PathSearch.CandidatesAre | tlpi-book/procexec/execlp.c:138-163 | One candidate per field, in order: the field, or "." if it is empty, a slash and the filename |
| PathSearch.NextPathname | tlpi-book/procexec/execlp.c:143-163 | One pathname per field, in order |
| PathSearch.SearchPath | tlpi-book/procexec/execlp.c:138-177 | Exactly the candidates of the fields are tried, in order, up to the first that starts or goes to the shell; if all attempts fail, EACCES if any gave it and otherwise the error of the last. Each attempt may be answered differently, also for the same pathname |
| PathSearch.OneOutcome | tlpi-book/procexec/execlp.c:138-194 | The answers determine the outcome |
| PathSearch.Execlp | tlpi-book/procexec/execlp.c:110-195 | A name with a slash is tried alone; an unset or empty PATH counts as "." |
| AclText.EntryReadsBack | tlpi-book/acl/acl_update.c:69-164 | A printed entry is parsed to itself if and only if it is printable: permissions as required, and for a named user or group an identifier below 2^32 - 1 |
| AclText.AclReadsBack | tlpi-book/acl/acl_update.c:170-199 | Printing a list and parsing the text gives the same list if and only if it has at most 10000 entries, all printable |
| AclText.ParsedIsPrintable | tlpi-book/acl/acl_update.c:69-164 | The parser yields only printable entries |
| AclText.AcceptedReadsBack | tlpi-book/acl/acl_update.c:170-199 | An accepted text, printed and parsed again, gives the same list |
| AclText.NamedIsReadAs | tlpi-book/acl/acl_update.c:121-135 | For whom a printed entry for a user or group is read, for every identifier |
| AclMeaning.TextDenotes | tlpi-book/acl/acl_update.c:77-163 | Every text with a colon is read as its tag, qualifier and permissions denote: the eight tag texts, users looked up among users and groups among groups, permissions where required |
| AclMeaning.NoColonNoEntry | tlpi-book/acl/acl_update.c:77-81 | A text without a colon is no entry |
| AclMeaning.UserNamesAreLookedUp | tlpi-book/acl/acl_update.c:123-128 | A user name that is no number is that of the user database |
| AclMeaning.GroupNamesAreLookedUp | tlpi-book/acl/acl_update.c:129-135 | A group name that is no number is that of the group database |
| AclMeaning.LongTags | tlpi-book/acl/acl_update.c:103-110 | The long tags mean what the short ones mean |
| AclMeaning.PermsAre | tlpi-book/acl/acl_update.c:148-160 | Permissions are letters in any order and number, each given if it occurs; any other letter is refused |
| AclMeaning.SignedIsRead | tlpi-book/users_groups/ugid_functions.c:37-39 | A number may have blanks and a sign before it |
| AclMeaning.NumberHasForm | tlpi-book/users_groups/ugid_functions.c:37-39 | Nothing else is a number |
| AclMeaning.NegativeIds | tlpi-book/users_groups/ugid_functions.c:37-39 | What any negative number is read as |
| AclText.NumberIsItsId | tlpi-book/users_groups/ugid_functions.c:27-46 | A decimal identifier stands for itself if and only if it is below 2^32 - 1, whatever the database holds |
| AclText.NumberIsReadAs | tlpi-book/users_groups/ugid_functions.c:27-46 | What any decimal number is read as: clamped, wrapped around, or refused |
| AclText.NarrowedRanges | tlpi-book/users_groups/ugid_functions.c:37-39 | The same range by range |
| AclText.NumbersNotTheirIds | tlpi-book/users_groups/ugid_functions.c:37-39 | 4294967295 is refused and 4294967296 is read as 0 |
| AclParse.ParseEntrySpec | tlpi-book/acl/acl_update.c:69-164 | Cutting the entry up in place gives the entry its text denotes, or an error exactly where it denotes none, and touches nothing outside it |
| AclParse.ParsePerms | tlpi-book/acl/acl_update.c:139-161 | The permissions the text denotes, or an error for a bad character |
| AclParse.ParseACL | tlpi-book/acl/acl_update.c:170-199 | The table holds exactly the list the text denotes, or -1 for a bad entry or more than 10000 |
| AclUpdate.Acl.FindEntry | tlpi-book/acl/acl_update.c:205-259 | The first entry with the tag and, for named users and groups, the qualifier; -1 if there is none |
| AclUpdate.Acl.ChangeEntry | tlpi-book/acl/acl_update.c:392-418 | The list after one removal, change or creation |
| AclUpdate.Acl.Apply | tlpi-book/acl/acl_update.c:391-433 | The entries applied in order, each to a valid ACL, up to the first that makes it invalid |
| AclUpdate.SetIsUpdate | tlpi-book/acl/acl_update.c:399-418 | Setting an entry is an update of one key of the map |
| AclUpdate.RemoveIsRemoval | tlpi-book/acl/acl_update.c:394-397 | Removing an entry removes one key of the map and keeps keys unique |
| AclUpdate.MaskIsClass | tlpi-book/acl/acl_update.c:422-424 | After recalculation the mask has a permission exactly if some named user, owning group or named group entry has it |
| AclUpdate.LastWinsElse | tlpi-book/acl/acl_update.c:391-418 | A key that no entry is for stays as it was |
| AclUpdate.ApplyIsMapUpdate | tlpi-book/acl/acl_update.c:391-424 | Applying a list keeps keys unique and is a last-wins map update, or a removal; with recalculation, the mask alone is the union of the group class instead |
| AclUpdate.LastWinsMeans | tlpi-book/acl/acl_update.c:391-418 | What last-wins means, read off the list |
| AclText.AllParsedPerms | tlpi-book/acl/acl_update.c:88-98 | Parsed entries have permissions exactly if they are required |
| AclEditor.EditIsMapUpdate | tlpi-book/acl/acl_update.c:367-424 | An accepted argument, parsed and applied, keeps keys unique and is a last-wins map update, or a removal |
| AclEditor.EditAcl | tlpi-book/acl/acl_update.c:367-433 | Parsing in place and then applying: a bad argument changes nothing; otherwise its entries are applied in order, up to the first that makes the ACL invalid |

## Left out

- Watcher: pathnames longer than PATH_MAX, and root pathnames that end in a slash, where nftw and the program write the same directory differently.
- Watcher: changes that race with the processing of earlier ones, nested roots, renames onto an existing directory and renames of an ancestor of a root; the program relies on heuristics and rebuilds there.
- Watcher: errors of inotify_add_watch other than ENOENT, which end the program, partial traversals, and the watches the kernel drops on unmount; rebuilding is proved to recover from any cache.
- Watcher: the removal of watches leaves IN_IGNORED events behind, which appear as left-over events before any later change.
- Watcher: line 1136 compares errno with -1 where the result of read was meant; the model works on events, with a retry that either reads more or nothing.
- Watcher: options, the log, the consistency check, the interactive commands and the option to abort.
- Namespaces: descriptors, the type filter, levels, colours and identity maps of the display, the subtree option, and the exits on unexpected ioctl errors.
- WrapText: texts that are not valid UTF-8.
- ns_capable: the lifetimes of descriptors; namespaces are identities here.
- Seccomp: the installation calls, the supervisor loop of the notification program and its path checks.
- MqNotify: message priorities and sizes; the queue is a multiset, and a message received may be any that is queued.
- Environment: allocation and putenv failures are one flag; the strings themselves are values, so aliasing with the caller's memory is not modelled.
- PathSearch: argument and environment vectors and the call of the shell, whose success at each attempt is a parameter; freeing of memory.
- AclUpdate: acl_valid is a parameter and acl_set_file is assumed to succeed; options and files are not modelled.
- AclText: characters stand for bytes; an entry to be removed has no permissions, where the program leaves the field unset.
- The smaller copies of these programs (pid_namespaces.go, userns_overview.go, seccomp_perf.c, seccomp_logging.c, seccomp_trap_sigsys.c, view_v2_cgroups.go), the exercise solutions and the demonstrations of single system calls: they repeat the algorithms modelled here or have none.
