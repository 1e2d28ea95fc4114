/** Events that no single change of a well-kept tree queues: lost events, events about descriptors the cache does not
    have, removals the kernel refuses, unmounts, events about other files. What the program does with each of them. */
module WatchAnomalies {
  import opened Wrappers
  import opened Paths
  import opened DirTree
  import opened DirView
  import opened WatchModel
  import opened WatchSimulation

  /** The list of roots is right; nothing is said of the cache and the inotify instance. */
  ghost predicate RootsRight(fs: FileSystem, st: State) {
    RootsAgree(RootTexts(fs), st) && st.ignored < |st.roots|
  }

  /** The rest of the events is dropped and the cache is that of the tree again. */
  ghost predicate Recovered(fs: FileSystem, f: Final)
    requires WellFormed(fs)
  {
    f.end == Discarded && Synced(fs, f.st)
  }

  /** A call on the first event, whether it is the first try or, if that hangs, the second. */
  function Call(st: State, nftw: Walk, evs: seq<Event>): Outcome
    requires evs != [] && KernelEvent(evs[0])
  {
    var first := ProcessNext(st, nftw, evs, true);
    if first.Hang? then ProcessNext(st, nftw, evs, false) else first
  }

  lemma RebuildEnds(fs: FileSystem, st: State, nftw: Walk, evs: seq<Event>)
    requires WellFormed(fs) && FaithfulWalk(fs, nftw) && RootsRight(fs, st) && evs != [] && KernelEvents(evs)
    requires Call(st, nftw, evs) == Discard(Reinitialize(st, nftw))
    ensures Recovered(fs, ProcessAll(st, nftw, evs))
  {
    ReferenceStep(st, nftw, evs, Call(st, nftw, evs));
    RebuildRecovers(fs, st, nftw);
  }

  // ----- rebuilding -----

  /** The queue overflowed: whatever was lost, the program is in step again. */
  lemma OverflowRecovers(fs: FileSystem, st: State, nftw: Walk, evs: seq<Event>)
    requires WellFormed(fs) && FaithfulWalk(fs, nftw) && RootsRight(fs, st)
    requires evs != [] && KernelEvents(evs) && evs[0].wd == -1
    ensures Recovered(fs, ProcessAll(st, nftw, evs))
  {
    RebuildEnds(fs, st, nftw, evs);
  }

  /** An event for a descriptor that is not in the cache. */
  lemma UnknownWatchRecovers(fs: FileSystem, st: State, nftw: Walk, evs: seq<Event>)
    requires WellFormed(fs) && FaithfulWalk(fs, nftw) && RootsRight(fs, st)
    requires evs != [] && KernelEvents(evs) && Ignored !in evs[0].mask && evs[0].wd !in st.cache
    ensures Recovered(fs, ProcessAll(st, nftw, evs))
  {
    RebuildEnds(fs, st, nftw, evs);
  }

  /** A directory leaves a cached directory, and nothing else. */
  predicate LeavesCached(st: State, ev: Event) {
    ev.wd in st.cache && ev.wd != -1 && ev.mask == {MovedFrom, IsDir}
  }

  predicate Matches(from: Event, to: Event) {
    MovedTo in to.mask && to.cookie == from.cookie
  }

  /** A rename whose target directory is not in the cache. */
  lemma UnknownTargetRecovers(fs: FileSystem, st: State, nftw: Walk, evs: seq<Event>)
    requires WellFormed(fs) && FaithfulWalk(fs, nftw) && RootsRight(fs, st)
    requires |evs| > 1 && KernelEvents(evs) && LeavesCached(st, evs[0])
    requires Matches(evs[0], evs[1]) && evs[1].wd !in st.cache
    ensures Recovered(fs, ProcessAll(st, nftw, evs))
  {
    RebuildEnds(fs, st, nftw, evs);
  }

  /** A directory that moved out, under which the kernel no longer has every watch. */
  lemma RefusedZapRecovers(fs: FileSystem, st: State, nftw: Walk, evs: seq<Event>)
    requires WellFormed(fs) && FaithfulWalk(fs, nftw) && RootsRight(fs, st)
    requires evs != [] && KernelEvents(evs) && LeavesCached(st, evs[0]) && (|evs| > 1 ==> !Matches(evs[0], evs[1]))
    requires !(Under(st.cache, Join(st.cache[evs[0].wd], evs[0].name)) <= Wds(st.kernel))
    ensures Recovered(fs, ProcessAll(st, nftw, evs))
  {
    RebuildEnds(fs, st, nftw, evs);
  }

  /** A root that moved, under which the kernel no longer has every watch. */
  lemma RefusedRootZapRecovers(fs: FileSystem, st: State, nftw: Walk, evs: seq<Event>, path: string)
    requires WellFormed(fs) && FaithfulWalk(fs, nftw) && RootsRight(fs, ZapRoot(st, path))
    requires evs != [] && KernelEvents(evs) && evs[0].wd in st.cache && evs[0].wd != -1 && evs[0].mask == {MoveSelf}
    requires st.cache[evs[0].wd] == path && Some(path) in st.roots && !(Under(st.cache, path) <= Wds(st.kernel))
    ensures Recovered(fs, ProcessAll(st, nftw, evs))
  {
    var st1 := ZapRoot(st, path);
    assert Call(st, nftw, evs) == Discard(Reinitialize(st1, nftw));
    ReferenceStep(st, nftw, evs, Call(st, nftw, evs));
    RebuildRecovers(fs, st1, nftw);
  }

  // ----- moving out -----

  /** A directory that leaves without a matching arrival is treated alike whatever follows: as at the end of
      the buffer, when a second read has brought nothing. */
  lemma UnmatchedIsMovedOut(st: State, nftw: Walk, evs: seq<Event>, firstTry: bool)
    requires |evs| > 1 && KernelEvent(evs[0]) && LeavesCached(st, evs[0]) && !Matches(evs[0], evs[1])
    ensures ProcessNext(st, nftw, evs, firstTry) == ProcessNext(st, nftw, [evs[0]], false)
  {
  }

  /** The two halves of a rename between cached directories are taken together, and only pathnames change. */
  lemma PairTakenTogether(st: State, nftw: Walk, evs: seq<Event>)
    requires |evs| > 1 && KernelEvents(evs) && LeavesCached(st, evs[0])
    requires Matches(evs[0], evs[1]) && evs[1].wd in st.cache
    ensures var f := ProcessAll(st, nftw, evs); f.taken != [] && f.taken[0] == evs[..2]
    ensures var out := Call(st, nftw, evs);
            && out.Consumed? && out.st.kernel == st.kernel && out.st.roots == st.roots
            && out.st.cache.Keys == st.cache.Keys
  {
    ReferenceStep(st, nftw, evs, Call(st, nftw, evs));
  }

  // ----- unmounting -----

  /** An unmounted directory leaves the cache, and nothing else changes. */
  lemma UnmountForgets(st: State, nftw: Walk, ev: Event, f: Final)
    requires ev.wd in st.cache && ev.wd != -1 && (ev.mask == {Unmount} || ev.mask == {Unmount, IsDir})
    requires KernelEvents([ev]) && f == ProcessAll(st, nftw, [ev])
    ensures f.end == Drained && f.st.roots == st.roots && f.st.ignored == st.ignored && f.st.kernel == st.kernel
    ensures ev.wd !in f.st.cache
    ensures forall wd | wd in st.cache && wd != ev.wd :: wd in f.st.cache && f.st.cache[wd] == st.cache[wd]
    ensures f.st.cache.Keys <= st.cache.Keys
  {
    Taken(st, nftw, ev);
  }

  lemma Taken(st: State, nftw: Walk, ev: Event)
    requires KernelEvents([ev]) && Call(st, nftw, [ev]).Consumed?
    ensures ProcessAll(st, nftw, [ev]).st == Call(st, nftw, [ev]).st && ProcessAll(st, nftw, [ev]).end == Drained
  {
    ReferenceStep(st, nftw, [ev], Call(st, nftw, [ev]));
    assert [ev][1..] == [];
  }

  // ----- events that change nothing -----

  /** The subject of the event is no directory, and the event is about the subject alone. */
  predicate AboutOtherFile(ev: Event) {
    ev.mask <= {Create, MovedFrom, MovedTo}
  }

  /** A second announcement of a directory that a traversal has found already. */
  predicate AnnouncedAgain(st: State, ev: Event) {
    && ev.wd in st.cache && (ev.mask == {Create, IsDir} || ev.mask == {MovedTo, IsDir})
    && Join(st.cache[ev.wd], ev.name) in st.cache.Values
  }

  /** The move of a directory that is no root, as the directory itself sees it. */
  predicate MovedNoRoot(st: State, ev: Event) {
    ev.wd in st.cache && ev.mask == {MoveSelf} && Some(st.cache[ev.wd]) !in st.roots
  }

  /** None of these changes anything: the cache, the kernel's watches, the roots. */
  lemma NothingToDo(st: State, nftw: Walk, ev: Event)
    requires ev.wd != -1 && KernelEvents([ev])
    requires || (AboutOtherFile(ev) && ev.wd in st.cache)
             || AnnouncedAgain(st, ev) || MovedNoRoot(st, ev) || ev.mask == {Ignored}
    ensures ProcessAll(st, nftw, [ev]).st == st && ProcessAll(st, nftw, [ev]).end == Drained
  {
    Taken(st, nftw, ev);
  }
}
