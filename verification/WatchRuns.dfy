/** Runs of the watcher: a file system that changes one directory at a time, the events the kernel
    queues for each change, and the theorem that the cache is right after every one of them. */
module WatchRuns {
  import opened Wrappers
  import opened Paths
  import opened DirTree
  import opened DirView
  import opened WatchModel
  import opened WatchSimulation

  /** One change. `dest` is where the directory hangs afterwards. */
  datatype Op = MkDir(ino: Ino, dest: Node) | RmDir(ino: Ino) | Move(ino: Ino, dest: Node)

  /** What the kernel lets a process do: create under a free name, remove an empty directory,
      rename to a free name outside the directory itself. */
  ghost predicate Possible(fs: FileSystem, op: Op)
    requires WellFormed(fs)
  {
    match op
    case MkDir(i, dest) => i !in fs && CanHang(fs, i, dest)
    case RmDir(i) => i in fs && forall j | j in fs && fs[j].Child? :: fs[j].parent != i
    case Move(i, dest) => i in fs && CanHang(fs, i, dest)
  }

  /** A root renamed into a directory that is itself monitored. */
  ghost predicate RootIntoTree(fs: FileSystem, op: Op)
    requires WellFormed(fs)
  {
    op.Move? && op.ino in fs && fs[op.ino].Root? && op.dest.Child? && op.dest.parent in View(fs)
  }

  ghost predicate Legal(fs: FileSystem, op: Op)
    requires WellFormed(fs)
  {
    Possible(fs, op) && !RootIntoTree(fs, op)
  }

  function Apply(fs: FileSystem, op: Op): FileSystem {
    match op
    case MkDir(i, dest) => fs[i := dest]
    case RmDir(i) => fs - {i}
    case Move(i, dest) => fs[i := dest]
  }

  /** Deleting a directory removes its watch. */
  function KernelAfter(k: Kernel, op: Op): Kernel {
    if op.RmDir? then k.(marks := k.marks - {op.ino}) else k
  }

  /** An event for the entry `node`, if the directory holding it is watched. */
  function EntryEvent(k: Kernel, node: Node, flag: Flag, cookie: nat): seq<Event> {
    if node.Child? && node.parent in k.marks
    then [Event(k.marks[node.parent].wd, {flag, IsDir}, cookie, node.name)] else []
  }

  /** What the kernel queues for a change, given the watches in place before it. */
  function OpEvents(fs: FileSystem, k: Kernel, op: Op, cookie: nat): seq<Event>
    requires op.Move? ==> op.ino in fs
  {
    match op
    case MkDir(i, dest) => EntryEvent(k, dest, Create, 0)
    case RmDir(i) =>
      if i in k.marks
      then [Event(k.marks[i].wd, {DeleteSelf}, 0, ""), Event(k.marks[i].wd, {Ignored}, 0, "")] else []
    case Move(i, dest) =>
      EntryEvent(k, fs[i], MovedFrom, cookie) + EntryEvent(k, dest, MovedTo, cookie)
      + if i in k.marks && k.marks[i].moveSelf then [Event(k.marks[i].wd, {MoveSelf}, 0, "")] else []
  }

  // ----- how the bookkeeping changes, in terms of pathnames -----

  lemma RewriteAgrees(view: map<Ino, string>, view': map<Ino, string>, texts: set<string>, st: State, src: string,
                      dst: string)
    requires Agree(view, texts, st) && view'.Keys == view.Keys
    requires forall i | i in view :: view'[i] == Rebase(src, dst, view[i])
    requires forall i | i in view :: view'[i] in texts <==> view[i] in texts
    ensures Agree(view', texts, st.(cache := Rewritten(st.cache, src, dst)))
  {
    var st' := st.(cache := Rewritten(st.cache, src, dst));
    forall i | i in view'
      ensures Tracked(view', texts, st', i)
    {
      assert Tracked(view, texts, st, i);
    }
    forall wd | wd in st'.cache
      ensures Owned(st'.kernel.marks, wd)
    {
      assert Owned(st.kernel.marks, wd);
    }
  }

  /** Dropping some directories from cache and kernel together. */
  lemma DropAgrees(view: map<Ino, string>, texts: set<string>, texts': set<string>, st: State, gone: set<Ino>,
                   st': State)
    requires Agree(view, texts, st) && gone <= view.Keys
    requires st'.kernel.nextWd == st.kernel.nextWd && st'.kernel.marks == st.kernel.marks - gone
    requires st'.cache == st.cache - set i | i in gone :: st.kernel.marks[i].wd
    requires forall i | i in view && i !in gone :: view[i] in texts <==> view[i] in texts'
    ensures Agree(view - gone, texts', st')
  {
    var marks, marks' := st.kernel.marks, st'.kernel.marks;
    forall i | i in view - gone
      ensures Tracked(view - gone, texts', st', i)
    {
      assert Tracked(view, texts, st, i);
      forall j | j in gone
        ensures marks[j].wd != marks[i].wd
      {
        assert OwnWd(marks, i, j);
      }
    }
    forall i, j | i in marks' && j in marks'
      ensures OwnWd(marks', i, j)
    {
      assert OwnWd(marks, i, j);
    }
    forall wd | wd in st'.cache
      ensures Owned(marks', wd)
    {
      assert Owned(marks, wd);
      var i :| i in marks && marks[i].wd == wd;
      assert i !in gone;
      assert i in marks' && marks'[i].wd == wd;
    }
  }

  /** Zapping a cached pathname drops exactly the directories at and under it; no removal is refused. */
  lemma ZapAgrees(view: map<Ino, string>, texts: set<string>, texts': set<string>, st: State, path: string)
    requires Agree(view, texts, st)
    requires forall i | i in view && !InSubtree(path, view[i]) :: view[i] in texts <==> view[i] in texts'
    ensures ZapSubtree(st, path).Some?
    ensures var st' := ZapSubtree(st, path).value;
            Agree(view - ViewUnder(view, path).Keys, texts', st') && st'.roots == st.roots && st'.ignored == st.ignored
  {
    var wds, gone := Under(st.cache, path), ViewUnder(view, path).Keys;
    UnderIsGone(view, texts, st, path, wds, gone);
    RemovedMarks(st.kernel, wds, gone);
    DropAgrees(view, texts, texts', st, gone, ZapSubtree(st, path).value);
  }

  /** What is cached under a pathname are the descriptors of the directories there. */
  lemma UnderIsGone(view: map<Ino, string>, texts: set<string>, st: State, path: string, wds: set<int>, gone: set<Ino>)
    requires Agree(view, texts, st) && wds == Under(st.cache, path) && gone == ViewUnder(view, path).Keys
    ensures gone <= st.kernel.marks.Keys && wds == set i | i in gone :: st.kernel.marks[i].wd
    ensures forall i | i in st.kernel.marks :: st.kernel.marks[i].wd in wds <==> i in gone
  {
    var marks := st.kernel.marks;
    forall i | i in view
      ensures marks[i].wd in wds <==> i in gone
    {
      assert Tracked(view, texts, st, i);
    }
    forall wd | wd in wds
      ensures exists i :: i in gone && marks[i].wd == wd
    {
      assert Owned(marks, wd);
      var i :| i in marks && marks[i].wd == wd;
      assert i in gone;
    }
  }

  lemma RemovedMarks(k: Kernel, wds: set<int>, gone: set<Ino>)
    requires gone <= k.marks.Keys && wds == set i | i in gone :: k.marks[i].wd
    requires forall i | i in k.marks :: k.marks[i].wd in wds <==> i in gone
    ensures wds <= Wds(k) && RmWatches(k, wds).marks == k.marks - gone
  {
  }

  // ----- one change, one call -----

  /** What a change must lead to: the program goes on, in step with the new file system, or it
      stops, exactly when no root is left. It never has to rebuild. */
  ghost predicate Follows(fs': FileSystem, f: Final)
    requires WellFormed(fs')
  {
    && !f.end.Discarded?
    && (f.end.Exited? <==> RootTexts(fs') == {})
    && (f.end.Drained? ==> Synced(fs', f.st))
  }

  /** What a change must lead to when its events are processed before the next one. */
  ghost predicate FollowsChange(fs: FileSystem, st: State, nftw: Walk, op: Op, cookie: nat)
    requires WellFormed(fs) && WellFormed(Apply(fs, op)) && (op.Move? ==> op.ino in fs)
  {
    var evs := OpEvents(fs, st.kernel, op, cookie);
    KernelEvents(evs) && Follows(Apply(fs, op), ProcessAll(Hit(st, op), nftw, evs))
  }

  lemma SomeRootLeft(fs: FileSystem, st: State)
    requires WellFormed(fs) && Synced(fs, st)
    ensures RootTexts(fs) != {}
  {
    AllCleared(st.roots);
    var p :| Some(p) in st.roots;
    RootListed(RootTexts(fs), st, p);
  }

  /** The last step of a run over a stream. */
  lemma OneCall(st: State, nftw: Walk, evs: seq<Event>)
    requires KernelEvents(evs) && evs != []
    ensures var first := ProcessNext(st, nftw, evs, true);
            var out := if first.Hang? then ProcessNext(st, nftw, evs, false) else first;
            && (out.Consumed? && out.n == |evs| ==>
                  ProcessAll(st, nftw, evs).st == out.st && ProcessAll(st, nftw, evs).end.Drained?)
            && (out.Exit? ==> ProcessAll(st, nftw, evs).st == out.st && ProcessAll(st, nftw, evs).end.Exited?)
  {
    var first := ProcessNext(st, nftw, evs, true);
    var out := if first.Hang? then ProcessNext(st, nftw, evs, false) else first;
    if out.Consumed? && out.n == |evs| {
      assert evs[out.n..] == [];
    }
  }

  // What each kind of event does to the state, on its own.

  lemma AttachEvent(st: State, nftw: Walk, ev: Event, path: string)
    requires KernelEvent(ev) && IsDir in ev.mask && (Create in ev.mask || MovedTo in ev.mask)
    requires ev.wd in st.cache && path == Join(st.cache[ev.wd], ev.name) && path !in st.cache.Values
    ensures ProcessAll(st, nftw, [ev]).end.Drained?
    ensures ProcessAll(st, nftw, [ev]).st == WatchSubtree(st, nftw, path)
  {
    OneCall(st, nftw, [ev]);
  }

  lemma RenameEvents(st: State, nftw: Walk, from: Event, to: Event)
    requires from.mask == {MovedFrom, IsDir} && to.mask == {MovedTo, IsDir} && from.cookie == to.cookie
    requires from.wd in st.cache && to.wd in st.cache && from.wd != -1 && to.wd != -1
    ensures KernelEvents([from, to]) && ProcessAll(st, nftw, [from, to]).end.Drained?
    ensures ProcessAll(st, nftw, [from, to]).st ==
            st.(cache := Rewritten(st.cache, Join(st.cache[from.wd], from.name), Join(st.cache[to.wd], to.name)))
  {
    OneCall(st, nftw, [from, to]);
  }

  lemma MoveOutEvent(st: State, nftw: Walk, ev: Event)
    requires ev.mask == {MovedFrom, IsDir} && ev.wd in st.cache && ev.wd != -1
    requires ZapSubtree(st, Join(st.cache[ev.wd], ev.name)).Some?
    ensures KernelEvents([ev]) && ProcessAll(st, nftw, [ev]).end.Drained?
    ensures Some(ProcessAll(st, nftw, [ev]).st) == ZapSubtree(st, Join(st.cache[ev.wd], ev.name))
  {
    OneCall(st, nftw, [ev]);
  }

  lemma RootMoveEvent(st: State, nftw: Walk, ev: Event, path: string)
    requires ev.mask == {MoveSelf} && ev.wd in st.cache && ev.wd != -1
    requires st.cache[ev.wd] == path && Some(path) in st.roots && ZapSubtree(ZapRoot(st, path), path).Some?
    ensures KernelEvents([ev]) && !ProcessAll(st, nftw, [ev]).end.Discarded?
    ensures ProcessAll(st, nftw, [ev]).end.Exited? <==> NoRootsLeft(ZapRoot(st, path))
    ensures ProcessAll(st, nftw, [ev]).end.Drained? ==>
              Some(ProcessAll(st, nftw, [ev]).st) == ZapSubtree(ZapRoot(st, path), path)
  {
    OneCall(st, nftw, [ev]);
  }

  lemma DeleteEvents(st: State, nftw: Walk, wd: int, path: string)
    requires wd in st.cache && wd != -1 && st.cache[wd] == path
    ensures var evs := [Event(wd, {DeleteSelf}, 0, ""), Event(wd, {Ignored}, 0, "")];
            var st1 := if Some(path) in st.roots then ZapRoot(st, path) else st;
            && KernelEvents(evs) && !ProcessAll(st, nftw, evs).end.Discarded?
            && (ProcessAll(st, nftw, evs).end.Exited? <==> Some(path) in st.roots && NoRootsLeft(st1))
            && (ProcessAll(st, nftw, evs).end.Drained? ==>
                  ProcessAll(st, nftw, evs).st == st1.(cache := st1.cache - {wd}))
  {
    var del, ign := Event(wd, {DeleteSelf}, 0, ""), Event(wd, {Ignored}, 0, "");
    var evs := [del, ign];
    var out := ProcessNext(st, nftw, evs, true);
    if out.Consumed? {
      assert evs[1..] == [ign];
      OneCall(out.st, nftw, [ign]);
    } else {
      OneCall(st, nftw, evs);
    }
  }

  // The same events, against the file system.

  /** A directory created in, or renamed into, a monitored directory. */
  lemma AttachSynced(fs: FileSystem, st: State, nftw: Walk, d: Ino, dest: Node)
    requires WellFormed(fs) && Synced(fs, st) && CanHang(fs, d, dest) && d !in View(fs)
    requires dest.Child? && dest.parent in View(fs)
    requires WellFormed(fs[d := dest]) && FaithfulWalk(fs[d := dest], nftw)
    ensures var path := Join(View(fs)[dest.parent], dest.name);
            path !in st.cache.Values && Synced(fs[d := dest], WatchSubtree(st, nftw, path))
  {
    var view, view', texts := View(fs), View(fs[d := dest]), RootTexts(fs);
    var path := Join(view[dest.parent], dest.name);
    AttachView(fs, d, dest);
    NotCachedYet(view, texts, st, view', path);
    WalkFindsSubtree(fs[d := dest], nftw, d);
    WatchSubtreeAgrees(view, texts, st, view', nftw, d);
    PutBack(view, view', path);
  }

  lemma PutBack(view: map<Ino, string>, view': map<Ino, string>, path: string)
    requires view == view' - ViewUnder(view', path).Keys
    ensures view + ViewUnder(view', path) == view'
  {
  }

  lemma NotCachedYet(view: map<Ino, string>, texts: set<string>, st: State, view': map<Ino, string>, path: string)
    requires Agree(view, texts, st) && view == view' - ViewUnder(view', path).Keys
    ensures path !in st.cache.Values
  {
    forall wd | wd in st.cache
      ensures st.cache[wd] != path
    {
      assert Owned(st.kernel.marks, wd);
      var i :| i in st.kernel.marks && st.kernel.marks[i].wd == wd;
      assert Tracked(view, texts, st, i);
    }
  }

  /** A directory renamed within the monitored trees. */
  lemma RenameSynced(fs: FileSystem, st: State, d: Ino, dest: Node)
    requires WellFormed(fs) && Synced(fs, st) && CanHang(fs, d, dest) && d in View(fs) && fs[d].Child?
    requires dest.Child? && dest.parent in View(fs) && WellFormed(fs[d := dest])
    ensures fs[d].parent in View(fs)
    ensures var src, dst := Join(View(fs)[fs[d].parent], fs[d].name), Join(View(fs)[dest.parent], dest.name);
            Synced(fs[d := dest], st.(cache := Rewritten(st.cache, src, dst)))
  {
    RenameForm(fs, d, dest);
    RenameView(fs, d, dest);
    var view, view', texts := View(fs), View(fs[d := dest]), RootTexts(fs);
    var src, dst := view[d], Join(view[dest.parent], dest.name);
    RewriteAgrees(view, view', texts, st, src, dst);
  }

  /** A directory, not a root, renamed out of the monitored trees. */
  lemma MoveOutSynced(fs: FileSystem, st: State, d: Ino, dest: Node)
    requires WellFormed(fs) && Synced(fs, st) && CanHang(fs, d, dest) && d in View(fs) && fs[d].Child?
    requires dest.Elsewhere? || dest.parent !in View(fs)
    requires WellFormed(fs[d := dest])
    ensures fs[d].parent in View(fs)
    ensures var zapped := ZapSubtree(st, Join(View(fs)[fs[d].parent], fs[d].name));
            zapped.Some? && Synced(fs[d := dest], zapped.value)
  {
    DetachView(fs, d, dest);
    PathOfChild(fs, d);
    assert RootTexts(fs[d := dest]) == RootTexts(fs);
    ZapAgrees(View(fs), RootTexts(fs), RootTexts(fs), st, View(fs)[d]);
  }

  /** A root renamed away. */
  lemma RootMoveSynced(fs: FileSystem, st: State, d: Ino, dest: Node)
    requires WellFormed(fs) && Synced(fs, st) && d in fs && fs[d].Root? && CanHang(fs, d, dest)
    requires dest.Elsewhere? || dest.parent !in View(fs)
    requires WellFormed(fs[d := dest])
    ensures d in View(fs) && Some(fs[d].path) in st.roots && View(fs)[d] == fs[d].path
    ensures var path := fs[d].path;
            var zapped := ZapSubtree(ZapRoot(st, path), path);
            && zapped.Some?
            && (NoRootsLeft(ZapRoot(st, path)) <==> RootTexts(fs[d := dest]) == {})
            && (!NoRootsLeft(ZapRoot(st, path)) ==> Synced(fs[d := dest], zapped.value))
  {
    var view, texts, path := View(fs), RootTexts(fs), fs[d].path;
    PathOfChild(fs, d);
    DetachView(fs, d, dest);
    assert path in texts;
    RootListed(texts, st, path);
    ZapRootAgrees(texts, st, path);
    var st1 := ZapRoot(st, path);
    SameBooks(view, texts, st, st1);
    ZapAgrees(view, texts, texts - {path}, st1, path);
  }

  /** A directory deleted. */
  lemma DeleteSynced(fs: FileSystem, st: State, d: Ino, wd: int)
    requires WellFormed(fs) && Synced(fs, st) && d in View(fs) && WellFormed(fs - {d})
    requires forall j | j in fs && fs[j].Child? :: fs[j].parent != d
    requires d in st.kernel.marks && wd == st.kernel.marks[d].wd
    ensures var st0 := st.(kernel := KernelAfter(st.kernel, RmDir(d)));
            var path := View(fs)[d];
            var st1 := if Some(path) in st.roots then ZapRoot(st0, path) else st0;
            && (Some(path) in st.roots && NoRootsLeft(st1) <==> RootTexts(fs - {d}) == {})
            && (RootTexts(fs - {d}) != {} ==> Synced(fs - {d}, st1.(cache := st1.cache - {wd})))
  {
    var view, texts, path := View(fs), RootTexts(fs), View(fs)[d];
    var st0 := st.(kernel := KernelAfter(st.kernel, RmDir(d)));
    var st1 := if Some(path) in st.roots then ZapRoot(st0, path) else st0;
    var st2 := st1.(cache := st1.cache - {wd});
    RemoveView(fs, d);
    RootByText(fs, d);
    PathOfChild(fs, d);
    SomeRootLeft(fs, st);
    assert RootTexts(fs - {d}) == texts - {path};
    RootGone(texts, st0, path);
    forall i | i in view && i != d
      ensures view[i] != path
    {
      if view[i] == path {
        ViewInjective(fs, i, d);
      }
    }
    DropOneAgrees(view, texts, st, d, st2);
  }

  /** Clearing a deleted directory from the root list, if it is on it. */
  lemma RootGone(texts: set<string>, st: State, path: string)
    requires RootsAgree(texts, st) && st.ignored < |st.roots| && texts != {}
    ensures var st1 := if Some(path) in st.roots then ZapRoot(st, path) else st;
            && RootsAgree(texts - {path}, st1)
            && (Some(path) in st.roots && NoRootsLeft(st1) <==> texts - {path} == {})
            && (texts - {path} != {} ==> st1.ignored < |st1.roots|)
  {
    RootListed(texts, st, path);
    if path in texts {
      ZapRootAgrees(texts, st, path);
    } else {
      assert texts - {path} == texts;
    }
  }

  lemma DropOneAgrees(view: map<Ino, string>, texts: set<string>, st: State, d: Ino, st': State)
    requires Agree(view, texts, st) && d in view && d in st.kernel.marks
    requires st'.kernel == st.kernel.(marks := st.kernel.marks - {d})
    requires st'.cache == st.cache - {st.kernel.marks[d].wd}
    requires forall i | i in view && i != d :: view[i] != view[d]
    ensures Agree(view - {d}, texts - {view[d]}, st')
  {
    assert (set i | i in {d} :: st.kernel.marks[i].wd) == {st.kernel.marks[d].wd};
    DropAgrees(view, texts, texts - {view[d]}, st, {d}, st');
  }

  lemma SameBooks(view: map<Ino, string>, texts: set<string>, st: State, st1: State)
    requires Agree(view, texts, st) && st1.cache == st.cache && st1.kernel == st.kernel
    ensures Agree(view, texts, st1)
  {
    forall i | i in view
      ensures Tracked(view, texts, st1, i)
    {
      assert Tracked(view, texts, st, i);
    }
  }

  // ----- every kind of change -----

  lemma LegalKeepsForm(fs: FileSystem, op: Op)
    requires WellFormed(fs) && Possible(fs, op)
    ensures WellFormed(Apply(fs, op))
  {
    match op
    case MkDir(i, dest) => HangKeepsForm(fs, i, dest);
    case RmDir(i) => RemoveView(fs, i);
    case Move(i, dest) => HangKeepsForm(fs, i, dest);
  }

  /** The state in which the program finds the events of `op`. */
  function Hit(st: State, op: Op): State {
    st.(kernel := KernelAfter(st.kernel, op))
  }

  /** The event that announces a new directory leads to a cache that has its whole subtree. */
  lemma AttachFollows(fs: FileSystem, st: State, nftw: Walk, i: Ino, dest: Node, ev: Event)
    requires WellFormed(fs) && Synced(fs, st) && CanHang(fs, i, dest) && i !in View(fs)
    requires WellFormed(fs[i := dest]) && FaithfulWalk(fs[i := dest], nftw)
    requires dest.Child? && dest.parent in View(fs) && dest.parent in st.kernel.marks
    requires ev.wd == st.kernel.marks[dest.parent].wd && ev.name == dest.name
    requires ev.mask == {Create, IsDir} || ev.mask == {MovedTo, IsDir}
    ensures KernelEvents([ev]) && Follows(fs[i := dest], ProcessAll(st, nftw, [ev]))
  {
    assert Tracked(View(fs), RootTexts(fs), st, dest.parent);
    AttachSynced(fs, st, nftw, i, dest);
    AttachEvent(st, nftw, ev, Join(View(fs)[dest.parent], dest.name));
    SomeRootLeft(fs[i := dest], WatchSubtree(st, nftw, Join(View(fs)[dest.parent], dest.name)));
  }

  /** No event, and none needed. */
  lemma OutsideFollows(fs: FileSystem, st: State, nftw: Walk, i: Ino, dest: Node)
    requires WellFormed(fs) && Synced(fs, st) && CanHang(fs, i, dest) && i !in View(fs)
    requires WellFormed(fs[i := dest]) && (dest.Elsewhere? || dest.parent !in View(fs))
    ensures Follows(fs[i := dest], ProcessAll(st, nftw, []))
  {
    OutsideView(fs, i, dest);
    SomeRootLeft(fs, st);
  }

  lemma MkDirFollows(fs: FileSystem, st: State, nftw: Walk, i: Ino, dest: Node, cookie: nat)
    requires WellFormed(fs) && Synced(fs, st) && Legal(fs, MkDir(i, dest))
    requires WellFormed(fs[i := dest]) && FaithfulWalk(fs[i := dest], nftw)
    ensures KernelEvents(OpEvents(fs, st.kernel, MkDir(i, dest), cookie))
    ensures Follows(fs[i := dest], ProcessAll(st, nftw, OpEvents(fs, st.kernel, MkDir(i, dest), cookie)))
  {
    assert i !in View(fs);
    var evs := OpEvents(fs, st.kernel, MkDir(i, dest), cookie);
    if dest.Child? && dest.parent in View(fs) {
      AttachFollows(fs, st, nftw, i, dest, evs[0]);
      assert evs == [evs[0]];
    } else {
      OutsideFollows(fs, st, nftw, i, dest);
      assert evs == [];
    }
  }

  lemma RmDirFollows(fs: FileSystem, st: State, nftw: Walk, i: Ino, cookie: nat)
    requires WellFormed(fs) && Synced(fs, st) && Legal(fs, RmDir(i)) && WellFormed(fs - {i})
    ensures KernelEvents(OpEvents(fs, st.kernel, RmDir(i), cookie))
    ensures Follows(fs - {i}, ProcessAll(Hit(st, RmDir(i)), nftw, OpEvents(fs, st.kernel, RmDir(i), cookie)))
  {
    if i in View(fs) {
      assert Tracked(View(fs), RootTexts(fs), st, i);
      var wd := st.kernel.marks[i].wd;
      DeleteSynced(fs, st, i, wd);
      DeleteEvents(Hit(st, RmDir(i)), nftw, wd, View(fs)[i]);
    } else {
      RemoveOutsideSynced(fs, st, i);
      SomeRootLeft(fs - {i}, Hit(st, RmDir(i)));
    }
  }

  lemma RemoveOutsideSynced(fs: FileSystem, st: State, i: Ino)
    requires WellFormed(fs) && Synced(fs, st) && Legal(fs, RmDir(i)) && WellFormed(fs - {i}) && i !in View(fs)
    ensures Synced(fs - {i}, Hit(st, RmDir(i)))
  {
    PathOfChild(fs, i);
    RemoveView(fs, i);
    NothingToDrop(View(fs), i);
    NothingToDrop(st.kernel.marks, i);
    assert RootTexts(fs - {i}) == RootTexts(fs);
  }

  lemma NothingToDrop<T>(m: map<Ino, T>, i: Ino)
    requires i !in m
    ensures m - {i} == m
  {
  }

  /** Which events a rename causes. */
  lemma MoveEvents(fs: FileSystem, st: State, i: Ino, dest: Node, cookie: nat)
    requires WellFormed(fs) && Synced(fs, st) && Legal(fs, Move(i, dest))
    ensures var marks := st.kernel.marks;
            var evs := OpEvents(fs, st.kernel, Move(i, dest), cookie);
            var inside := dest.Child? && dest.parent in View(fs);
            && (inside ==> dest.parent in marks)
            && (i !in View(fs) && !inside ==> evs == [])
            && (i !in View(fs) && inside ==>
                  evs == [Event(marks[dest.parent].wd, {MovedTo, IsDir}, cookie, dest.name)])
            && (i in View(fs) && fs[i].Root? ==>
                  i in marks && !inside && evs == [Event(marks[i].wd, {MoveSelf}, 0, "")])
            && (i in View(fs) && fs[i].Child? ==> fs[i].parent in View(fs) && fs[i].parent in marks)
            && (i in View(fs) && fs[i].Child? && !inside ==>
                  evs == [Event(marks[fs[i].parent].wd, {MovedFrom, IsDir}, cookie, fs[i].name)])
            && (i in View(fs) && fs[i].Child? && inside ==>
                  evs == [Event(marks[fs[i].parent].wd, {MovedFrom, IsDir}, cookie, fs[i].name),
                          Event(marks[dest.parent].wd, {MovedTo, IsDir}, cookie, dest.name)])
  {
    PathOfChild(fs, i);
    if i in View(fs) {
      assert Tracked(View(fs), RootTexts(fs), st, i);
      RootByText(fs, i);
    }
  }

  lemma MoveInsideFollows(fs: FileSystem, st: State, nftw: Walk, i: Ino, dest: Node, cookie: nat)
    requires WellFormed(fs) && Synced(fs, st) && Legal(fs, Move(i, dest)) && i in View(fs)
    requires WellFormed(fs[i := dest])
    ensures KernelEvents(OpEvents(fs, st.kernel, Move(i, dest), cookie))
    ensures Follows(fs[i := dest], ProcessAll(st, nftw, OpEvents(fs, st.kernel, Move(i, dest), cookie)))
  {
    MoveEvents(fs, st, i, dest, cookie);
    SomeRootLeft(fs, st);
    PathOfChild(fs, i);
    var evs := OpEvents(fs, st.kernel, Move(i, dest), cookie);
    assert Tracked(View(fs), RootTexts(fs), st, i);
    if fs[i].Root? {
      RootMoveSynced(fs, st, i, dest);
      RootMoveEvent(st, nftw, evs[0], fs[i].path);
    } else {
      assert Tracked(View(fs), RootTexts(fs), st, fs[i].parent);
      if dest.Child? && dest.parent in View(fs) {
        assert Tracked(View(fs), RootTexts(fs), st, dest.parent);
        RenameForm(fs, i, dest);
        RenameSynced(fs, st, i, dest);
        RenameEvents(st, nftw, evs[0], evs[1]);
      } else {
        DetachView(fs, i, dest);
        MoveOutSynced(fs, st, i, dest);
        MoveOutEvent(st, nftw, evs[0]);
      }
    }
  }

  lemma MoveOutsideFollows(fs: FileSystem, st: State, nftw: Walk, i: Ino, dest: Node, cookie: nat)
    requires WellFormed(fs) && Synced(fs, st) && Legal(fs, Move(i, dest)) && i !in View(fs)
    requires WellFormed(fs[i := dest]) && FaithfulWalk(fs[i := dest], nftw)
    ensures KernelEvents(OpEvents(fs, st.kernel, Move(i, dest), cookie))
    ensures Follows(fs[i := dest], ProcessAll(st, nftw, OpEvents(fs, st.kernel, Move(i, dest), cookie)))
  {
    MoveEvents(fs, st, i, dest, cookie);
    if dest.Child? && dest.parent in View(fs) {
      AttachFollows(fs, st, nftw, i, dest, OpEvents(fs, st.kernel, Move(i, dest), cookie)[0]);
    } else {
      OutsideFollows(fs, st, nftw, i, dest);
    }
  }

  /** One legal change, with its events processed before the next: the watcher follows. */
  lemma StepFollows(fs: FileSystem, st: State, nftw: Walk, op: Op, cookie: nat)
    requires WellFormed(fs) && Synced(fs, st) && Legal(fs, op)
    requires WellFormed(Apply(fs, op)) && FaithfulWalk(Apply(fs, op), nftw)
    ensures KernelEvents(OpEvents(fs, st.kernel, op, cookie))
    ensures Follows(Apply(fs, op), ProcessAll(Hit(st, op), nftw, OpEvents(fs, st.kernel, op, cookie)))
  {
    match op
    case MkDir(i, dest) => MkDirFollows(fs, st, nftw, i, dest, cookie);
    case RmDir(i) => RmDirFollows(fs, st, nftw, i, cookie);
    case Move(i, dest) =>
      if i in View(fs) {
        MoveInsideFollows(fs, st, nftw, i, dest, cookie);
      } else {
        MoveOutsideFollows(fs, st, nftw, i, dest, cookie);
      }
  }

  // ----- the one change the program does not follow -----

  ghost predicate Watched(st: State, f: Visit) {
    f.Directory? ==> f.ino in st.kernel.marks && st.kernel.marks[f.ino].wd in st.cache
  }

  /** Watching directories that are watched already changes no descriptor and no cached pathname. */
  lemma {:induction false} RewatchKeepsBooks(st: State, found: seq<Visit>)
    requires forall f | f in found :: Watched(st, f)
    ensures var st' := WatchAll(st, found);
            && st'.cache == st.cache && st'.roots == st.roots && st'.ignored == st.ignored
            && st'.kernel.marks.Keys == st.kernel.marks.Keys
            && forall i | i in st.kernel.marks :: st'.kernel.marks[i].wd == st.kernel.marks[i].wd
    decreases |found|
  {
    if found != [] {
      assert found[0] in found;
      var st1 := TraverseTree(st, found[0]);
      assert st1.kernel.marks.Keys == st.kernel.marks.Keys;
      assert forall f | f in found[1..] :: f in found;
      RewatchKeepsBooks(st1, found[1..]);
    }
  }

  /** If the program goes on, everything cached under `path` is gone, and directory `i` is no longer watched. */
  ghost predicate LostUnder(f: Final, st: State, i: Ino, path: string) {
    f.end.Drained? ==> f.st.cache == st.cache - Under(st.cache, path) && i !in f.st.kernel.marks
  }

  /** IN_MOVED_TO and then IN_MOVE_SELF for a watched directory: it ends up without a watch. */
  lemma RootIntoTreeEvents(st: State, nftw: Walk, i: Ino, to: Event, self: Event, path: string)
    requires to.mask == {MovedTo, IsDir} && self.mask == {MoveSelf} && to.wd != -1 && self.wd != -1
    requires i in st.kernel.marks && self.wd == st.kernel.marks[i].wd
    requires to.wd in st.cache && self.wd in st.cache && st.cache[self.wd] == path && Some(path) in st.roots
    requires var landed := Join(st.cache[to.wd], to.name);
             && landed !in st.cache.Values
             && forall f | f in nftw(landed) :: Watched(st, f)
    requires Under(st.cache, path) <= Wds(st.kernel)
    ensures KernelEvents([to, self])
    ensures LostUnder(ProcessAll(st, nftw, [to, self]), st, i, path)
  {
    var landed := Join(st.cache[to.wd], to.name);
    RewatchKeepsBooks(st, nftw(landed));
    var st1 := WatchSubtree(st, nftw, landed);
    assert [to, self][1..] == [self];
    assert ProcessNext(st, nftw, [to, self], true) == Consumed(st1, 1);
    forall wd | wd in Under(st.cache, path)
      ensures wd in Wds(st1.kernel)
    {
      var j :| j in st.kernel.marks && st.kernel.marks[j].wd == wd;
      assert st1.kernel.marks[j].wd == wd;
    }
    RootMoveEvent(st1, nftw, self, path);
  }

  /** What is lost: the root and all the directories under it are dropped from the cache, although they are
      monitored directories still, under new pathnames, and other roots are left. */
  lemma RootIntoTreeLost(fs: FileSystem, st: State, nftw: Walk, op: Op, cookie: nat)
    requires WellFormed(fs) && Synced(fs, st) && Possible(fs, op) && RootIntoTree(fs, op)
    requires WellFormed(Apply(fs, op)) && FaithfulWalk(Apply(fs, op), nftw)
    ensures KernelEvents(OpEvents(fs, st.kernel, op, cookie))
    ensures op.ino in View(fs) && op.ino in View(Apply(fs, op)) && RootTexts(Apply(fs, op)) != {}
    ensures LostUnder(ProcessAll(Hit(st, op), nftw, OpEvents(fs, st.kernel, op, cookie)), st, op.ino, View(fs)[op.ino])
    ensures !Follows(Apply(fs, op), ProcessAll(Hit(st, op), nftw, OpEvents(fs, st.kernel, op, cookie)))
  {
    var i, dest := op.ino, op.dest;
    var to, self := MovedRootEvents(fs, st, op, cookie);
    RootBelowTree(fs, st, nftw, i, dest);
    RootIntoTreeEvents(st, nftw, i, to, self, View(fs)[i]);
    OtherRootLeft(fs, i, dest);
  }

  /** The two events of such a rename, and what the program knows of them. */
  lemma MovedRootEvents(fs: FileSystem, st: State, op: Op, cookie: nat) returns (to: Event, self: Event)
    requires WellFormed(fs) && Synced(fs, st) && RootIntoTree(fs, op)
    ensures op.ino in View(fs) && op.ino in st.kernel.marks && OpEvents(fs, st.kernel, op, cookie) == [to, self]
    ensures to.mask == {MovedTo, IsDir} && self.mask == {MoveSelf} && to.wd != -1 && self.wd != -1
    ensures to.wd in st.cache && st.cache[to.wd] == View(fs)[op.dest.parent] && to.name == op.dest.name
    ensures self.wd == st.kernel.marks[op.ino].wd && self.wd in st.cache && st.cache[self.wd] == View(fs)[op.ino]
    ensures Some(View(fs)[op.ino]) in st.roots && Under(st.cache, View(fs)[op.ino]) <= Wds(st.kernel)
  {
    var i, dest, view, texts, marks := op.ino, op.dest, View(fs), RootTexts(fs), st.kernel.marks;
    PathOfChild(fs, i);
    assert Tracked(view, texts, st, i) && Tracked(view, texts, st, dest.parent);
    RootByText(fs, i);
    RootListed(texts, st, view[i]);
    to := Event(marks[dest.parent].wd, {MovedTo, IsDir}, cookie, dest.name);
    self := Event(marks[i].wd, {MoveSelf}, 0, "");
    ZapAgrees(view, texts, texts, st, view[i]);
  }

  /** Where a root lands inside another tree: under a new pathname, with all its watches in place. */
  lemma RootBelowTree(fs: FileSystem, st: State, nftw: Walk, i: Ino, dest: Node)
    requires WellFormed(fs) && Synced(fs, st) && i in View(fs) && CanHang(fs, i, dest)
    requires dest.Child? && dest.parent in View(fs)
    requires WellFormed(fs[i := dest]) && FaithfulWalk(fs[i := dest], nftw)
    ensures i in View(fs[i := dest])
    ensures var landed := Join(View(fs)[dest.parent], dest.name);
            && landed !in st.cache.Values
            && forall f | f in nftw(landed) :: Watched(st, f)
  {
    var fs' := fs[i := dest];
    EdgeChange(fs, i, dest, dest.parent);
    PathOfChild(fs', i);
    var landed := View(fs')[i];
    forall wd | wd in st.cache
      ensures st.cache[wd] != landed
    {
      assert Owned(st.kernel.marks, wd);
      var j :| j in st.kernel.marks && st.kernel.marks[j].wd == wd;
      assert Tracked(View(fs), RootTexts(fs), st, j);
      NameWasFree(fs, i, dest, j);
    }
    WalkFindsSubtree(fs', nftw, i);
    forall f | f in nftw(landed)
      ensures Watched(st, f)
    {
      if f.Directory? {
        assert Right(View(fs'), f);
        RenamedPath(fs, i, dest, f.ino);
        assert Tracked(View(fs), RootTexts(fs), st, f.ino);
      }
    }
  }

  /** No directory had the target pathname before the rename. */
  lemma NameWasFree(fs: FileSystem, i: Ino, dest: Node, j: Ino)
    requires WellFormed(fs) && CanHang(fs, i, dest) && dest.Child? && dest.parent in View(fs) && j in View(fs)
    ensures View(fs)[j] != Join(View(fs)[dest.parent], dest.name)
  {
    PathOfChild(fs, j);
    if View(fs)[j] == Join(View(fs)[dest.parent], dest.name) {
      if fs[j].Child? {
        JoinInjective(View(fs)[fs[j].parent], fs[j].name, View(fs)[dest.parent], dest.name);
        SamePath(fs, fs[j].parent, dest.parent);
      } else {
        RootIsNoJoin(fs, j, dest);
      }
    }
  }

  lemma RootIsNoJoin(fs: FileSystem, j: Ino, dest: Node)
    requires WellFormed(fs) && j in fs && fs[j].Root? && dest.Child? && dest.parent in View(fs) && IsName(dest.name)
    ensures fs[j].path != Join(View(fs)[dest.parent], dest.name)
  {
    var p := View(fs)[dest.parent];
    var top := RootAbove(fs, RankOf(fs), dest.parent);
    SubtreeOfJoin(fs[top].path, p, dest.name);
    assert Apart(fs, top, j);
  }

  lemma OtherRootLeft(fs: FileSystem, i: Ino, dest: Node)
    requires WellFormed(fs) && i in fs && fs[i].Root? && CanHang(fs, i, dest)
    requires dest.Child? && dest.parent in View(fs)
    ensures RootTexts(fs[i := dest]) != {}
  {
    var top := RootAbove(fs, RankOf(fs), dest.parent);
    assert Below(fs, dest.parent, top) && top != i;
    assert fs[i := dest][top].path in RootTexts(fs[i := dest]);
  }

  /** Two roots "a" and "b", and then mv b a/c: the program goes on with a cache that is wrong. */
  lemma RootIntoTreeExample() returns (fs: FileSystem, st: State, nftw: Walk, op: Op)
    ensures fs == map[1 := Root("a"), 2 := Root("b")] && op == Move(2, Child(1, "c"))
    ensures WellFormed(fs) && Synced(fs, st) && Possible(fs, op)
    ensures WellFormed(Apply(fs, op)) && FaithfulWalk(Apply(fs, op), nftw)
    ensures KernelEvents(OpEvents(fs, st.kernel, op, 7))
    ensures !Follows(Apply(fs, op), ProcessAll(Hit(st, op), nftw, OpEvents(fs, st.kernel, op, 7)))
  {
    fs, op := map[1 := Root("a"), 2 := Root("b")], Move(2, Child(1, "c"));
    TwoRoots(fs, op);
    st := StartedState(fs);
    LegalKeepsForm(fs, op);
    nftw := SomeFaithfulWalk(Apply(fs, op));
    RootIntoTreeLost(fs, st, nftw, op, 7);
  }

  lemma TwoRoots(fs: FileSystem, op: Op)
    requires fs == map[1 := Root("a"), 2 := Root("b")] && op == Move(2, Child(1, "c"))
    ensures WellFormed(fs) && Possible(fs, op) && RootIntoTree(fs, op)
  {
    assert Ranked(fs, map[1 := 0, 2 := 0]);
    assert !InSubtree("a", "b") && !InSubtree("b", "a") by {
      assert "a"[0] != "b"[0];
    }
    assert forall i, j | i in fs && j in fs :: Apart(fs, i, j);
    PathOfChild(fs, 1);
  }

  /** The state after start-up. */
  lemma StartedState(fs: FileSystem) returns (st: State)
    requires WellFormed(fs) && fs == map[1 := Root("a"), 2 := Root("b")]
    ensures Synced(fs, st)
  {
    var nftw := SomeFaithfulWalk(fs);
    var blank := State(map[], [Some("a"), Some("b")], 0, FRESH);
    assert fs[1].path in RootTexts(fs) && fs[2].path in RootTexts(fs);
    assert RootTexts(fs) == {"a", "b"};
    assert multiset(blank.roots) == multiset{Some("a"), Some("b")};
    RebuildRecovers(fs, blank, nftw);
    st := Reinitialize(blank, nftw);
  }

  /** Exactly which changes the program follows: every possible one, except a root
      renamed into a monitored directory. */
  lemma FollowsUnlessRootIntoTree(fs: FileSystem, st: State, nftw: Walk, op: Op, cookie: nat)
    requires WellFormed(fs) && Synced(fs, st) && Possible(fs, op)
    requires WellFormed(Apply(fs, op)) && FaithfulWalk(Apply(fs, op), nftw)
    ensures FollowsChange(fs, st, nftw, op, cookie) <==> !RootIntoTree(fs, op)
  {
    if RootIntoTree(fs, op) {
      RootIntoTreeLost(fs, st, nftw, op, cookie);
    } else {
      StepFollows(fs, st, nftw, op, cookie);
    }
  }

  // ----- whole runs -----

  /** Events that inotify_rm_watch leaves behind. */
  predicate Stale(evs: seq<Event>) {
    forall ev | ev in evs :: ev.mask == {Ignored} && ev.wd != -1
  }

  lemma {:induction false} StaleSkipped(st: State, nftw: Walk, stale: seq<Event>, evs: seq<Event>)
    requires Stale(stale) && KernelEvents(evs)
    ensures KernelEvents(stale + evs)
    ensures ProcessAll(st, nftw, stale + evs).st == ProcessAll(st, nftw, evs).st
    ensures ProcessAll(st, nftw, stale + evs).end == ProcessAll(st, nftw, evs).end
    decreases |stale|
  {
    if stale == [] {
      assert stale + evs == evs;
    } else {
      assert stale[0] in stale;
      StaleSkipped(st, nftw, stale[1..], evs);
      FirstOf(stale, evs);
      IgnoredSkipped(st, nftw, stale[0], stale[1..] + evs, stale + evs);
    }
  }

  lemma FirstOf(stale: seq<Event>, evs: seq<Event>)
    requires stale != []
    ensures stale + evs == [stale[0]] + (stale[1..] + evs)
  {
  }

  lemma IgnoredSkipped(st: State, nftw: Walk, ev: Event, evs: seq<Event>, all: seq<Event>)
    requires ev.mask == {Ignored} && ev.wd != -1 && KernelEvents(evs) && all == [ev] + evs
    ensures KernelEvents(all)
    ensures ProcessAll(st, nftw, all).st == ProcessAll(st, nftw, evs).st
    ensures ProcessAll(st, nftw, all).end == ProcessAll(st, nftw, evs).end
  {
    assert all[0] == ev && all[1..] == evs;
    assert ProcessNext(st, nftw, all, true) == Consumed(st, 1);
  }

  /** A change, what nftw reports after it, and left-over events queued ahead of its own. */
  datatype Change = Change(op: Op, nftw: Walk, stale: seq<Event>, cookie: nat)

  ghost predicate LegalChange(fs: FileSystem, c: Change)
    requires WellFormed(fs)
  {
    && Legal(fs, c.op) && Stale(c.stale)
    && (LegalKeepsForm(fs, c.op); FaithfulWalk(Apply(fs, c.op), c.nftw))
  }

  ghost predicate LegalRun(fs: FileSystem, run: seq<Change>)
    requires WellFormed(fs)
    decreases |run|
  {
    run == [] ||
    (&& LegalChange(fs, run[0])
     && (LegalKeepsForm(fs, run[0].op); LegalRun(Apply(fs, run[0].op), run[1..])))
  }

  /** Where the watcher is after a change whose events it has processed. */
  ghost function AfterChange(fs: FileSystem, st: State, c: Change): Final
    requires WellFormed(fs) && Synced(fs, st) && LegalChange(fs, c)
  {
    LegalKeepsForm(fs, c.op);
    var evs := OpEvents(fs, st.kernel, c.op, c.cookie);
    StepFollows(fs, st, c.nftw, c.op, c.cookie);
    StaleSkipped(Hit(st, c.op), c.nftw, c.stale, evs);
    ProcessAll(Hit(st, c.op), c.nftw, c.stale + evs)
  }

  lemma AfterChangeFollows(fs: FileSystem, st: State, c: Change)
    requires WellFormed(fs) && Synced(fs, st) && LegalChange(fs, c)
    ensures WellFormed(Apply(fs, c.op)) && Follows(Apply(fs, c.op), AfterChange(fs, st, c))
  {
    LegalKeepsForm(fs, c.op);
    StepFollows(fs, st, c.nftw, c.op, c.cookie);
    StaleSkipped(Hit(st, c.op), c.nftw, c.stale, OpEvents(fs, st.kernel, c.op, c.cookie));
  }

  /** The file system and the watcher after a run; the run ends early if the program exits. */
  ghost function AfterRun(fs: FileSystem, st: State, run: seq<Change>): (r: (FileSystem, Final))
    requires WellFormed(fs) && Synced(fs, st) && LegalRun(fs, run)
    ensures WellFormed(r.0)
    decreases |run|
  {
    if run == [] then (fs, Final(st, Drained, []))
    else
      LegalKeepsForm(fs, run[0].op);
      var f := AfterChange(fs, st, run[0]);
      AfterChangeFollows(fs, st, run[0]);
      if f.end.Drained? then AfterRun(Apply(fs, run[0].op), f.st, run[1..])
      else (Apply(fs, run[0].op), f)
  }

  ghost predicate InStepOrExited(fs: FileSystem, f: Final)
    requires WellFormed(fs)
  {
    && Follows(fs, f)
    && (f.end.Drained? ==>
          && View(fs).Keys == f.st.kernel.marks.Keys && AllOwnWds(f.st.kernel.marks)
          && f.st.cache == WatchMap(View(fs), f.st.kernel.marks))
  }

  /** Where a run leads: the program has never rebuilt its cache, it has exited if and only if no root is
      left, and otherwise its cache is exactly the map from watch descriptors to the current pathnames of
      the monitored directories. */
  ghost predicate RunFollows(fs: FileSystem, st: State, run: seq<Change>)
    requires WellFormed(fs) && Synced(fs, st) && LegalRun(fs, run)
  {
    InStepOrExited(AfterRun(fs, st, run).0, AfterRun(fs, st, run).1)
  }

  /** The main theorem: from any state in step with the file system, any run of creations, deletions and
      renames in, out, within and of the monitored trees leads there. */
  lemma {:induction false} WatcherFollowsFileSystem(fs: FileSystem, st: State, run: seq<Change>)
    requires WellFormed(fs) && Synced(fs, st) && LegalRun(fs, run)
    ensures RunFollows(fs, st, run)
    decreases |run|
  {
    if run == [] {
      SomeRootLeft(fs, st);
      CacheIsWatchMap(View(fs), RootTexts(fs), st);
    } else {
      LegalKeepsForm(fs, run[0].op);
      var f := AfterChange(fs, st, run[0]);
      AfterChangeFollows(fs, st, run[0]);
      if f.end.Drained? {
        WatcherFollowsFileSystem(Apply(fs, run[0].op), f.st, run[1..]);
      }
    }
  }
}
