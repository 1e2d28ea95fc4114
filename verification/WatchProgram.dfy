/** The program beside the file system: the slots of a running watcher hold the watch map of the tree, from its start
    and after every change. */
module WatchProgram {
  import opened Wrappers
  import opened DirTree
  import opened DirView
  import opened WatchModel
  import opened WatchSimulation
  import opened WatchRuns
  import opened WatchCache

  /** The used slots are exactly the monitored directories, each with its descriptor and its current pathname. */
  ghost predicate SlotsAreWatchMap(slots: seq<Slot>, at: map<int, nat>, marks: map<Ino, Mark>, fs: FileSystem)
    requires WellFormed(fs)
  {
    && Indexed(slots, at) && View(fs).Keys == marks.Keys && AllOwnWds(marks)
    && CacheOf(slots, at) == WatchMap(View(fs), marks)
  }

  /** The program starts with the roots it was given and builds its cache. */
  method StartUp(roots: seq<Option<string>>, nftw: Walk, ghost fs: FileSystem) returns (w: Watcher)
    requires WellFormed(fs) && FaithfulWalk(fs, nftw)
    requires RootsAgree(RootTexts(fs), State(map[], roots, 0, FRESH)) && roots != []
    ensures fresh(w) && fresh(w.wlCache) && w.Valid() && InStep(fs, w.Abs())
    ensures SlotsAreWatchMap(w.wlCache[..], w.at, w.kernel.marks, fs)
  {
    w := new Watcher(roots);
    RebuildRecovers(fs, w.Abs(), nftw);
    w.Reinitialize(nftw);
    CacheIsWatchMap(View(fs), RootTexts(fs), w.Abs());
  }

  /** What the program finds when a change has been made. */
  lemma Queued(fs: FileSystem, st: State, c: Change)
    requires WellFormed(fs) && Synced(fs, st) && LegalChange(fs, c)
    ensures c.op.Move? ==> c.op.ino in fs
    ensures var queue := c.stale + OpEvents(fs, st.kernel, c.op, c.cookie);
            && KernelEvents(queue) && UsableWds(Hit(st, c.op).kernel)
            && AfterChange(fs, st, c) == ProcessAll(Hit(st, c.op), c.nftw, queue)
  {
    LegalKeepsForm(fs, c.op);
    StepFollows(fs, st, c.nftw, c.op, c.cookie);
    StaleSkipped(Hit(st, c.op), c.nftw, c.stale, OpEvents(fs, st.kernel, c.op, c.cookie));
    forall i | i in st.kernel.marks
      ensures st.kernel.marks[i].wd >= 0
    {
      assert Tracked(View(fs), RootTexts(fs), st, i);
    }
  }

  /** The kernel makes the change and the program processes the events. */
  method TakeChange(w: Watcher, c: Change, queue: seq<Event>, ghost st: State)
    returns (end: End)
    requires w.Valid() && w.Abs() == st && UsableWds(Hit(st, c.op).kernel) && KernelEvents(queue)
    modifies w, w.wlCache
    ensures w.Valid() && (w.wlCache == old(w.wlCache) || fresh(w.wlCache))
    ensures var f := ProcessAll(Hit(st, c.op), c.nftw, queue); w.Abs() == f.st && end == f.end
  {
    w.kernel := KernelAfter(w.kernel, c.op);
    end := w.ProcessQueue(c.nftw, queue);
  }

  ghost predicate InStep(fs: FileSystem, st: State) {
    WellFormed(fs) && Synced(fs, st)
  }

  /** The first change of a run and the rest of it. */
  lemma RunStep(fs: FileSystem, st: State, run: seq<Change>)
    requires InStep(fs, st) && LegalRun(fs, run) && run != []
    ensures LegalChange(fs, run[0]) && WellFormed(Apply(fs, run[0].op))
    ensures var fs', f := Apply(fs, run[0].op), AfterChange(fs, st, run[0]);
            if f.end.Drained? then
              InStep(fs', f.st) && LegalRun(fs', run[1..]) && AfterRun(fs, st, run) == AfterRun(fs', f.st, run[1..])
            else AfterRun(fs, st, run) == (fs', f)
  {
    LegalKeepsForm(fs, run[0].op);
    AfterChangeFollows(fs, st, run[0]);
  }

  ghost predicate EndsAs(goal: (FileSystem, Final), fs: FileSystem, st: State, end: End) {
    fs == goal.0 && st == goal.1.st && end == goal.1.end
  }

  /** One change after the other, as long as the program runs: the run on values. */
  method FollowRun(w: Watcher, fs: FileSystem, run: seq<Change>, ghost st: State)
    returns (fs': FileSystem, end: End)
    requires w.Valid() && w.Abs() == st && InStep(fs, st) && LegalRun(fs, run)
    modifies w, w.wlCache
    ensures w.Valid() && EndsAs(AfterRun(fs, st, run), fs', w.Abs(), end)
    decreases |run|
  {
    if run == [] {
      return fs, Drained;
    }
    RunStep(fs, st, run);
    Queued(fs, st, run[0]);
    fs' := Apply(fs, run[0].op);
    ghost var f := AfterChange(fs, st, run[0]);
    end := TakeChange(w, run[0], run[0].stale + OpEvents(fs, w.kernel, run[0].op, run[0].cookie), st);
    if end.Drained? {
      fs', end := FollowRun(w, fs', run[1..], f.st);
    }
  }

  /** The main theorem for the program itself: over any run of changes it exits if, and only if, no root is left,
      never rebuilds, and otherwise its used slots are the watch map of the tree as it then is. */
  method Run(w: Watcher, fs: FileSystem, run: seq<Change>) returns (fs': FileSystem, end: End)
    requires w.Valid() && InStep(fs, w.Abs()) && LegalRun(fs, run)
    modifies w, w.wlCache
    ensures w.Valid() && WellFormed(fs') && fs' == AfterRun(fs, old(w.Abs()), run).0
    ensures !end.Discarded? && (end.Exited? <==> RootTexts(fs') == {})
    ensures end.Drained? ==> SlotsAreWatchMap(w.wlCache[..], w.at, w.kernel.marks, fs')
  {
    ghost var st := w.Abs();
    WatcherFollowsFileSystem(fs, st, run);
    fs', end := FollowRun(w, fs, run, st);
  }
}
