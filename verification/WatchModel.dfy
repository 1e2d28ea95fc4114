/** What the directory watcher computes, on values: the cache as a map from watch descriptor to
    pathname, the list of root pathnames, and the kernel's inotify instance. The in-place program
    is in WatchCache; the file system it follows is in DirTree. */
module WatchModel {
  import opened Wrappers
  import opened Paths
  import opened DirTree

  datatype Flag = IsDir | Create | DeleteSelf | MoveSelf | MovedFrom | MovedTo | Ignored | QOverflow | Unmount

  datatype Event = Event(wd: int, mask: set<Flag>, cookie: nat, name: string)

  /** What the kernel promises of the events it queues. */
  predicate KernelEvent(ev: Event) {
    && (ev.wd == -1 ==> ev.mask == {QOverflow})
    && (Ignored in ev.mask ==> ev.mask == {Ignored})
  }

  /** One watch: its descriptor, and whether IN_MOVE_SELF was asked for. */
  datatype Mark = Mark(wd: int, moveSelf: bool)

  /** An inotify instance. A mark sits on an i-node, so it survives renames. */
  datatype Kernel = Kernel(marks: map<Ino, Mark>, nextWd: int)

  const FRESH := Kernel(map[], 1)

  function Wds(k: Kernel): set<int> {
    set i | i in k.marks :: k.marks[i].wd
  }

  /** inotify_add_watch: watching a watched directory returns the descriptor it already has. */
  function AddWatch(k: Kernel, i: Ino, moveSelf: bool): (Kernel, int) {
    if i in k.marks then
      (k.(marks := k.marks[i := Mark(k.marks[i].wd, moveSelf)]), k.marks[i].wd)
    else
      (Kernel(k.marks[i := Mark(k.nextWd, moveSelf)], k.nextWd + 1), k.nextWd)
  }

  /** inotify_rm_watch on each descriptor of `wds`. */
  function RmWatches(k: Kernel, wds: set<int>): Kernel {
    k.(marks := map i | i in k.marks && k.marks[i].wd !in wds :: k.marks[i])
  }

  /** What nftw finds: a directory, a directory that has gone by the time the watch is added (ENOENT), or a file
      of another type. */
  datatype Visit = Directory(path: string, ino: Ino) | Gone(path: string) | OtherFile(path: string)

  /** nftw: what it finds, in order, from a starting pathname. */
  type Walk = string -> seq<Visit>

  datatype State = State(cache: map<int, string>, roots: seq<Option<string>>, ignored: nat, kernel: Kernel)

  // ----- the watch list -----

  function TraverseTree(st: State, v: Visit): State {
    match v
    case Directory(path, i) =>
      var (k, wd) := AddWatch(st.kernel, i, Some(path) in st.roots);
      if wd in st.cache then st.(kernel := k) else st.(kernel := k, cache := st.cache[wd := path])
    case Gone(_) => st
    case OtherFile(_) => st
  }

  function WatchAll(st: State, found: seq<Visit>): State
    decreases |found|
  {
    if found == [] then st
    else WatchAll(TraverseTree(st, found[0]), found[1..])
  }

  function WatchSubtree(st: State, nftw: Walk, path: string): State {
    WatchAll(st, nftw(path))
  }

  function Rewritten(cache: map<int, string>, src: string, dst: string): map<int, string> {
    map wd | wd in cache :: Rebase(src, dst, cache[wd])
  }

  /** The descriptors cached for `path` and everything under it. */
  function Under(cache: map<int, string>, path: string): set<int> {
    set wd | wd in cache && InSubtree(path, cache[wd])
  }

  /** Removes a subtree from the cache and from the kernel; None if the kernel refuses one removal. */
  function ZapSubtree(st: State, path: string): Option<State> {
    var wds := Under(st.cache, path);
    if wds <= Wds(st.kernel)
    then Some(st.(cache := st.cache - wds, kernel := RmWatches(st.kernel, wds)))
    else None
  }

  function WatchRoots(st: State, nftw: Walk, roots: seq<Option<string>>): State
    decreases |roots|
  {
    if roots == [] then st
    else WatchRoots(if roots[0].Some? then WatchSubtree(st, nftw, roots[0].value) else st, nftw, roots[1..])
  }

  /** A new inotify instance and a cache rebuilt from the remaining roots. */
  function Reinitialize(st: State, nftw: Walk): State {
    WatchRoots(st.(cache := map[], kernel := FRESH), nftw, st.roots)
  }

  /** A rename and then the reverse rename restore the cache if nothing was cached under the new pathname. */
  lemma RewriteUndone(cache: map<int, string>, src: string, dst: string)
    requires Under(cache, dst) == {}
    ensures Rewritten(Rewritten(cache, src, dst), dst, src) == cache
  {
    forall wd | wd in cache
      ensures Rebase(dst, src, Rebase(src, dst, cache[wd])) == cache[wd]
    {
      assert wd !in Under(cache, dst);
      RebaseUndone(src, dst, cache[wd]);
    }
  }

  // ----- the root list -----

  /** Clears the first element equal to `path`. */
  function ZapFirst(roots: seq<Option<string>>, path: string): seq<Option<string>> {
    if roots == [] then []
    else if roots[0] == Some(path) then [None] + roots[1..]
    else [roots[0]] + ZapFirst(roots[1..], path)
  }

  function ZapRoot(st: State, path: string): State {
    st.(roots := ZapFirst(st.roots, path), ignored := st.ignored + 1)
  }

  predicate NoRootsLeft(st: State) {
    st.ignored == |st.roots|
  }

  // ----- one event -----

  /** `Consumed` takes `n` events; `Hang` asks for another read; `Discard` drops everything that is
      still queued, together with the old inotify instance; `Exit` ends the program. */
  datatype Outcome = Consumed(st: State, n: nat) | Hang | Discard(st: State) | Exit(st: State)

  function ZapOrRebuild(st: State, nftw: Walk, path: string): Outcome {
    match ZapSubtree(st, path)
    case Some(st') => Consumed(st', 1)
    case None => Discard(Reinitialize(st, nftw))
  }

  function ProcessMovedFrom(st: State, nftw: Walk, evs: seq<Event>, firstTry: bool): (out: Outcome)
    requires |evs| > 0 && evs[0].wd in st.cache
    ensures out.Consumed? ==> 1 <= out.n <= |evs|
  {
    var ev := evs[0];
    if |evs| > 1 && MovedTo in evs[1].mask && evs[1].cookie == ev.cookie then
      if evs[1].wd !in st.cache then Discard(Reinitialize(st, nftw))
      else
        Consumed(st.(cache := Rewritten(st.cache, Join(st.cache[ev.wd], ev.name),
                                        Join(st.cache[evs[1].wd], evs[1].name))), 2)
    else if |evs| > 1 || !firstTry then
      ZapOrRebuild(st, nftw, Join(st.cache[ev.wd], ev.name))
    else Hang
  }

  function ProcessNext(st: State, nftw: Walk, evs: seq<Event>, firstTry: bool): (out: Outcome)
    requires |evs| > 0 && KernelEvent(evs[0])
    ensures out.Consumed? ==> 1 <= out.n <= |evs|
    ensures out.Hang? ==> firstTry && |evs| == 1
  {
    var ev := evs[0];
    if ev.wd != -1 && Ignored !in ev.mask && ev.wd !in st.cache then
      Discard(Reinitialize(st, nftw))
    else if IsDir in ev.mask && (Create in ev.mask || MovedTo in ev.mask) then
      var path := Join(st.cache[ev.wd], ev.name);
      Consumed(if path in st.cache.Values then st else WatchSubtree(st, nftw, path), 1)
    else if DeleteSelf in ev.mask then
      var path := st.cache[ev.wd];
      var st1 := if Some(path) in st.roots then ZapRoot(st, path) else st;
      if Some(path) in st.roots && NoRootsLeft(st1) then Exit(st1)
      else Consumed(st1.(cache := st1.cache - {ev.wd}), 1)
    else if MovedFrom in ev.mask && IsDir in ev.mask then
      ProcessMovedFrom(st, nftw, evs, firstTry)
    else if QOverflow in ev.mask then
      Discard(Reinitialize(st, nftw))
    else if Unmount in ev.mask then
      Consumed(st.(cache := st.cache - {ev.wd}), 1)
    else if MoveSelf in ev.mask && Some(st.cache[ev.wd]) in st.roots then
      var path := st.cache[ev.wd];
      var st1 := ZapRoot(st, path);
      if NoRootsLeft(st1) then Exit(st1) else ZapOrRebuild(st1, nftw, path)
    else Consumed(st, 1)
  }

  // ----- a stream of events -----

  /** Why a run over a stream ends: nothing is left, the rest was dropped with the old
      inotify instance, or the program exited. */
  datatype End = Drained | Discarded | Exited

  /** Where a run ends, and the events it took, one group per call that consumed something. */
  datatype Final = Final(st: State, end: End, taken: seq<seq<Event>>)

  ghost predicate KernelEvents(evs: seq<Event>) {
    forall i | 0 <= i < |evs| :: KernelEvent(evs[i])
  }

  function Prepend(group: seq<Event>, f: Final): Final {
    f.(taken := [group] + f.taken)
  }

  /** The reference: all events arrive in one read. A final IN_MOVED_FROM is retried once. */
  function ProcessAll(st: State, nftw: Walk, evs: seq<Event>): Final
    requires KernelEvents(evs)
    decreases |evs|
  {
    if evs == [] then Final(st, Drained, [])
    else
      var first := ProcessNext(st, nftw, evs, true);
      var out := if first.Hang? then ProcessNext(st, nftw, evs, false) else first;
      match out
      case Consumed(st', n) => Prepend(evs[..n], ProcessAll(st', nftw, evs[n..]))
      case Discard(st') => Final(st', Discarded, [])
      case Exit(st') => Final(st', Exited, [])
  }

  /** How many events the next read returns when `avail` are queued; `cuts` is the read schedule. */
  function ReadSize(cuts: seq<nat>, avail: nat): (k: nat)
    requires avail > 0
    ensures 1 <= k <= avail
  {
    if cuts == [] || cuts[0] > avail then avail else if cuts[0] == 0 then 1 else cuts[0]
  }

  function Rest(cuts: seq<nat>): seq<nat> {
    if cuts == [] then [] else cuts[1..]
  }

  /** The read loop: `buf` has been read, `queue` has not. The retry after a hanging
      IN_MOVED_FROM reads on if anything is queued. */
  function Drive(st: State, nftw: Walk, buf: seq<Event>, queue: seq<Event>, firstTry: bool, cuts: seq<nat>): Final
    requires KernelEvents(buf) && KernelEvents(queue)
    decreases |buf| + |queue|, |queue|, firstTry
  {
    if buf == [] then
      if queue == [] then Final(st, Drained, [])
      else
        var k := ReadSize(cuts, |queue|);
        Drive(st, nftw, queue[..k], queue[k..], true, Rest(cuts))
    else
      match ProcessNext(st, nftw, buf, firstTry)
      case Consumed(st', n) => Prepend(buf[..n], Drive(st', nftw, buf[n..], queue, true, cuts))
      case Discard(st') => Final(st', Discarded, [])
      case Exit(st') => Final(st', Exited, [])
      case Hang =>
        if queue == [] then Drive(st, nftw, buf, [], false, cuts)
        else
          var k := ReadSize(cuts, |queue|);
          Drive(st, nftw, buf + queue[..k], queue[k..], false, Rest(cuts))
  }

  /** One event of lookahead is all that processing ever uses. */
  lemma LookaheadOfOne(st: State, nftw: Walk, buf: seq<Event>, more: seq<Event>, firstTry: bool)
    requires |buf| > 0 && KernelEvent(buf[0])
    requires |buf| > 1 || more == []
    ensures ProcessNext(st, nftw, buf + more, firstTry) == ProcessNext(st, nftw, buf, firstTry)
    ensures |buf| > 1 ==> ProcessNext(st, nftw, buf, true) == ProcessNext(st, nftw, buf, false)
  {
    if more == [] {
      assert buf + more == buf;
    } else {
      assert (buf + more)[0] == buf[0] && (buf + more)[1] == buf[1];
    }
  }

  /** The loop over one buffer, unfolded once for a call that does not hang. */
  lemma DriveStep(st: State, nftw: Walk, buf: seq<Event>, queue: seq<Event>, firstTry: bool, cuts: seq<nat>,
                  out: Outcome)
    requires buf != [] && KernelEvents(buf) && KernelEvents(queue)
    requires out == ProcessNext(st, nftw, buf, firstTry) && !out.Hang?
    ensures Drive(st, nftw, buf, queue, firstTry, cuts) ==
            if out.Consumed? then Prepend(buf[..out.n], Drive(out.st, nftw, buf[out.n..], queue, true, cuts))
            else Final(out.st, if out.Discard? then Discarded else Exited, [])
  {
  }

  /** The reference, unfolded once. */
  lemma ReferenceStep(st: State, nftw: Walk, evs: seq<Event>, out: Outcome)
    requires evs != [] && KernelEvents(evs)
    requires var first := ProcessNext(st, nftw, evs, true);
             out == if first.Hang? then ProcessNext(st, nftw, evs, false) else first
    ensures !out.Hang?
    ensures ProcessAll(st, nftw, evs) ==
            if out.Consumed? then Prepend(evs[..out.n], ProcessAll(out.st, nftw, evs[out.n..]))
            else Final(out.st, if out.Discard? then Discarded else Exited, [])
  {
  }

  lemma TakeFrom(buf: seq<Event>, queue: seq<Event>, n: nat)
    requires n <= |buf|
    ensures (buf + queue)[..n] == buf[..n] && (buf + queue)[n..] == buf[n..] + queue
  {
  }

  lemma ReadMore(buf: seq<Event>, queue: seq<Event>, k: nat)
    requires k <= |queue|
    ensures buf + queue[..k] + queue[k..] == buf + queue
  {
  }

  /** However a stream is cut into reads, the watcher ends in the same state, having
      taken the same events in the same groups. */
  lemma {:induction false} CutsDoNotMatter(st: State, nftw: Walk, buf: seq<Event>, queue: seq<Event>, firstTry: bool,
                                           cuts: seq<nat>)
    requires KernelEvents(buf) && KernelEvents(queue)
    requires firstTry || Retries(st, nftw, buf, queue)
    ensures Drive(st, nftw, buf, queue, firstTry, cuts) == ProcessAll(st, nftw, buf + queue)
    decreases |buf| + |queue|, |queue|, firstTry
  {
    if buf == [] {
      assert [] + queue == queue;
      if queue != [] {
        var k := ReadSize(cuts, |queue|);
        ReadMore([], queue, k);
        assert [] + queue[..k] == queue[..k];
        CutsDoNotMatter(st, nftw, queue[..k], queue[k..], true, Rest(cuts));
      }
    } else if ProcessNext(st, nftw, buf, firstTry).Hang? {
      assert buf[..1] == buf;
      if queue == [] {
        CutsDoNotMatter(st, nftw, buf, [], false, cuts);
      } else {
        var k := ReadSize(cuts, |queue|);
        ReadMore(buf, queue, k);
        assert (buf + queue[..k])[..1] == buf;
        CutsDoNotMatter(st, nftw, buf + queue[..k], queue[k..], false, Rest(cuts));
      }
    } else {
      CutsAfterCall(st, nftw, buf, queue, firstTry, cuts, ProcessNext(st, nftw, buf, firstTry));
    }
  }

  lemma {:induction false} CutsAfterCall(st: State, nftw: Walk, buf: seq<Event>, queue: seq<Event>, firstTry: bool,
                                         cuts: seq<nat>, out: Outcome)
    requires KernelEvents(buf) && KernelEvents(queue) && buf != []
    requires firstTry || Retries(st, nftw, buf, queue)
    requires out == ProcessNext(st, nftw, buf, firstTry) && !out.Hang?
    ensures Drive(st, nftw, buf, queue, firstTry, cuts) == ProcessAll(st, nftw, buf + queue)
    decreases |buf| + |queue|, |queue|, firstTry, 0
  {
    WholeStreamAgrees(st, nftw, buf, queue, firstTry);
    DriveStep(st, nftw, buf, queue, firstTry, cuts, out);
    ReferenceStep(st, nftw, buf + queue, out);
    if out.Consumed? {
      TakeFrom(buf, queue, out.n);
      CutsDoNotMatter(out.st, nftw, buf[out.n..], queue, true, cuts);
    }
  }

  /** A second try: the first one hung, and either another event has been read or there is none. */
  ghost predicate Retries(st: State, nftw: Walk, buf: seq<Event>, queue: seq<Event>) {
    && buf != [] && KernelEvent(buf[0])
    && ProcessNext(st, nftw, buf[..1], true).Hang? && (|buf| > 1 || queue == [])
  }

  /** A step that does not hang is the step the reference takes on the whole stream. */
  lemma WholeStreamAgrees(st: State, nftw: Walk, buf: seq<Event>, queue: seq<Event>, firstTry: bool)
    requires buf != [] && KernelEvent(buf[0])
    requires firstTry || Retries(st, nftw, buf, queue)
    requires !ProcessNext(st, nftw, buf, firstTry).Hang?
    ensures var first := ProcessNext(st, nftw, buf + queue, true);
            (if first.Hang? then ProcessNext(st, nftw, buf + queue, false) else first) ==
            ProcessNext(st, nftw, buf, firstTry)
  {
    if |buf| > 1 || queue == [] {
      LookaheadOfOne(st, nftw, buf, queue, true);
      LookaheadOfOne(st, nftw, buf, queue, false);
      if |buf| == 1 {
        assert buf[..1] == buf;
      }
    } else {
      assert (buf + queue)[0] == buf[0];
    }
  }

  function Flatten(groups: seq<seq<Event>>): seq<Event> {
    if groups == [] then [] else groups[0] + Flatten(groups[1..])
  }

  /** A group is a single event, or the two halves of one rename. */
  predicate IsGroup(g: seq<Event>) {
    |g| == 1 || (|g| == 2 && MovedFrom in g[0].mask && MovedTo in g[1].mask && g[0].cookie == g[1].cookie)
  }

  lemma FlattenStep(evs: seq<Event>, n: nat, rest: seq<seq<Event>>)
    requires n <= |evs| && Flatten(rest) <= evs[n..]
    ensures Flatten([evs[..n]] + rest) <= evs
    ensures Flatten(rest) == evs[n..] ==> Flatten([evs[..n]] + rest) == evs
  {
    assert ([evs[..n]] + rest)[1..] == rest;
    assert evs == evs[..n] + evs[n..];
  }

  /** Every event is taken exactly once and in order, up to the point where the
      instance is discarded or the program exits. */
  lemma {:induction false} EachEventOnce(st: State, nftw: Walk, evs: seq<Event>)
    requires KernelEvents(evs)
    ensures Flatten(ProcessAll(st, nftw, evs).taken) <= evs
    ensures ProcessAll(st, nftw, evs).end.Drained? ==> Flatten(ProcessAll(st, nftw, evs).taken) == evs
    ensures forall g | g in ProcessAll(st, nftw, evs).taken :: IsGroup(g)
    decreases |evs|
  {
    if evs != [] {
      var first := ProcessNext(st, nftw, evs, true);
      var out := if first.Hang? then ProcessNext(st, nftw, evs, false) else first;
      if out.Consumed? {
        assert IsGroup(evs[..out.n]);
        EachEventOnce(out.st, nftw, evs[out.n..]);
        FlattenStep(evs, out.n, ProcessAll(out.st, nftw, evs[out.n..]).taken);
      }
    }
  }
}
