/** The directory watcher as it runs: an array of slots searched linearly and changed in place, a
    list of root pathnames, and the inotify instance it reads from. Every method is tied to the
    value-level operation of the same name in WatchModel. */
module WatchCache {
  import opened Wrappers
  import opened Paths
  import opened DirTree
  import opened WatchModel

  /** One cache slot; the descriptor is -1 in an unused slot. */
  datatype Slot = Slot(wd: int, path: string)

  const EMPTY := Slot(-1, "")
  const ALLOC_INCR: nat := 200

  // ----- the slots as a map -----

  /** `at` says which slot holds each cached descriptor; every other slot is blank. */
  ghost predicate Indexed(s: seq<Slot>, at: map<int, nat>) {
    && (forall wd | wd in at :: wd >= 0 && at[wd] < |s| && s[at[wd]].wd == wd)
    && (forall j | 0 <= j < |s| :: s[j] == EMPTY || (s[j].wd in at && at[s[j].wd] == j))
  }

  /** Used slots have pairwise distinct descriptors; unused slots have descriptor -1 and no pathname. */
  ghost predicate Tidy(s: seq<Slot>) {
    && (forall j, k | 0 <= j < k < |s| && s[j].wd != -1 :: s[j].wd != s[k].wd)
    && (forall j | 0 <= j < |s| :: s[j].wd >= 0 || s[j] == Slot(-1, ""))
  }

  lemma IndexedIsTidy(s: seq<Slot>, at: map<int, nat>)
    requires Indexed(s, at)
    ensures Tidy(s)
  {
    forall j, k | 0 <= j < k < |s| && s[j].wd != -1
      ensures s[j].wd != s[k].wd
    {
      assert at[s[j].wd] == j;
    }
  }

  /** Watch descriptor to pathname. */
  ghost function CacheOf(s: seq<Slot>, at: map<int, nat>): map<int, string>
    requires Indexed(s, at)
  {
    map wd | wd in at :: s[at[wd]].path
  }

  lemma FillSlot(s: seq<Slot>, at: map<int, nat>, j: nat, wd: int, path: string)
    requires Indexed(s, at) && j < |s| && s[j] == EMPTY && wd >= 0 && wd !in at
    ensures Indexed(s[j := Slot(wd, path)], at[wd := j])
    ensures CacheOf(s[j := Slot(wd, path)], at[wd := j]) == CacheOf(s, at)[wd := path]
  {
    var t, at' := s[j := Slot(wd, path)], at[wd := j];
    assert forall k | 0 <= k < |s| && k != j :: t[k] == s[k];
    assert Indexed(t, at');
    SameCache(CacheOf(t, at'), CacheOf(s, at)[wd := path]);
  }

  lemma SameCache(a: map<int, string>, b: map<int, string>)
    requires a.Keys == b.Keys && forall wd | wd in a :: a[wd] == b[wd]
    ensures a == b
  {
    assert forall wd | wd in a.Keys :: a[wd] == b[wd];
    assert forall p :: p in a.Items <==> p in b.Items;
  }

  lemma ClearSlot(s: seq<Slot>, at: map<int, nat>, j: nat)
    requires Indexed(s, at) && j < |s| && s[j] != EMPTY
    ensures Indexed(s[j := EMPTY], at - {s[j].wd})
    ensures CacheOf(s[j := EMPTY], at - {s[j].wd}) == CacheOf(s, at) - {s[j].wd}
  {
    var t, at' := s[j := EMPTY], at - {s[j].wd};
    assert forall k | 0 <= k < |s| && k != j :: t[k] == s[k];
    assert Indexed(t, at');
    SameCache(CacheOf(t, at'), CacheOf(s, at) - {s[j].wd});
  }

  /** Appending blank slots keeps every old slot and the map. */
  lemma GrowSlots(s: seq<Slot>, at: map<int, nat>, t: seq<Slot>)
    requires Indexed(s, at) && s <= t && forall j | |s| <= j < |t| :: t[j] == EMPTY
    ensures Indexed(t, at) && CacheOf(t, at) == CacheOf(s, at)
  {
    assert forall j | 0 <= j < |s| :: t[j] == s[j];
    assert Indexed(t, at);
    SameCache(CacheOf(t, at), CacheOf(s, at));
  }

  ghost predicate SlotsRebased(s: seq<Slot>, t: seq<Slot>, src: string, dst: string) {
    |t| == |s| && forall j | 0 <= j < |s| :: t[j] == Slot(s[j].wd, Rebase(src, dst, s[j].path))
  }

  /** Rewriting every slot, used or not, rewrites the map: a blank slot is under no directory. */
  lemma RewriteSlots(s: seq<Slot>, at: map<int, nat>, t: seq<Slot>, src: string, dst: string)
    requires Indexed(s, at) && SlotsRebased(s, t, src, dst) && src != ""
    ensures Indexed(t, at) && CacheOf(t, at) == Rewritten(CacheOf(s, at), src, dst)
  {
    assert Indexed(t, at);
    SameCache(CacheOf(t, at), Rewritten(CacheOf(s, at), src, dst));
  }

  class Watcher {
    var wlCache: array<Slot>
    var rootDirPaths: seq<Option<string>>
    var ignoreRootDirs: nat
    var kernel: Kernel
    ghost var at: map<int, nat>

    ghost predicate Valid()
      reads this, wlCache
    {
      Indexed(wlCache[..], at)
    }

    ghost function Abs(): State
      requires Valid()
      reads this, wlCache
    {
      State(CacheOf(wlCache[..], at), rootDirPaths, ignoreRootDirs, kernel)
    }

    /** Nothing is cached until the first rebuild. */
    constructor (roots: seq<Option<string>>)
      ensures Valid() && fresh(wlCache)
      ensures Abs() == State(map[], roots, 0, FRESH)
    {
      wlCache := new Slot[0];
      rootDirPaths, ignoreRootDirs, kernel, at := roots, 0, FRESH, map[];
    }

    // ----- searching -----

    method FindWatch(wd: int) returns (slot: int)
      requires Valid()
      ensures -1 <= slot < wlCache.Length
      ensures slot >= 0 ==> wlCache[slot].wd == wd
      ensures slot == -1 ==> forall j | 0 <= j < wlCache.Length :: wlCache[j].wd != wd
      ensures wd != -1 ==> (slot >= 0 <==> wd in Abs().cache)
      ensures wd != -1 && slot >= 0 ==> Abs().cache[wd] == wlCache[slot].path
    {
      for j := 0 to wlCache.Length
        invariant forall k | 0 <= k < j :: wlCache[k].wd != wd
      {
        if wlCache[j].wd == wd {
          return j;
        }
      }
      return -1;
    }

    method PathnameInCache(path: string) returns (found: bool)
      requires Valid()
      ensures found <==> path in Abs().cache.Values
    {
      ghost var s, cache := wlCache[..], CacheOf(wlCache[..], at);
      for j := 0 to wlCache.Length
        invariant forall k | 0 <= k < j && wlCache[k].wd >= 0 :: wlCache[k].path != path
      {
        if wlCache[j].wd >= 0 && wlCache[j].path == path {
          assert s[j] == wlCache[j] && s[j].wd in cache && cache[s[j].wd] == path;
          return true;
        }
      }
      forall wd | wd in cache
        ensures cache[wd] != path
      {
        assert s[at[wd]] == wlCache[at[wd]];
      }
      return false;
    }

    /** The first unused slot; if there is none, the array grows by 200. */
    method FindEmptyCacheSlot() returns (slot: nat)
      requires Valid()
      modifies this`wlCache
      ensures Valid() && Abs() == old(Abs())
      ensures wlCache == old(wlCache) || fresh(wlCache)
      ensures slot < wlCache.Length && wlCache[slot] == EMPTY
      ensures forall j | 0 <= j < slot :: wlCache[j].wd != -1
      ensures if exists j :: 0 <= j < old(wlCache.Length) && old(wlCache[j].wd) == -1
              then wlCache == old(wlCache)
              else wlCache.Length == old(wlCache.Length) + 200 && slot == old(wlCache.Length)
      ensures old(wlCache[..]) <= wlCache[..]
    {
      for j := 0 to wlCache.Length
        invariant forall k | 0 <= k < j :: wlCache[k].wd != -1
      {
        if wlCache[j].wd == -1 {
          assert wlCache[..][j] == EMPTY;
          return j;
        }
      }
      slot := wlCache.Length;
      var grown := new Slot[slot + ALLOC_INCR](j requires 0 <= j reads this, wlCache =>
                                                 if j < wlCache.Length then wlCache[j] else EMPTY);
      ghost var before := wlCache[..];
      wlCache := grown;
      assert before <= wlCache[..];
      GrowSlots(before, at, wlCache[..]);
    }

    // ----- filling and clearing -----

    method AddWatchToCache(wd: int, path: string)
      requires Valid() && wd >= 0 && wd !in Abs().cache
      modifies this`wlCache, this`at, wlCache
      ensures Valid() && (wlCache == old(wlCache) || fresh(wlCache))
      ensures Abs() == old(Abs()).(cache := old(Abs()).cache[wd := path])
    {
      var slot := FindEmptyCacheSlot();
      FillSlot(wlCache[..], at, slot, wd, path);
      ghost var before := wlCache[..];
      wlCache[slot] := Slot(wd, path);
      at := at[wd := slot];
      assert wlCache[..] == before[slot := Slot(wd, path)];
    }

    method MarkCacheSlotEmpty(slot: nat)
      requires Valid() && slot < wlCache.Length && wlCache[slot] != EMPTY
      modifies wlCache, this`at
      ensures Valid()
      ensures Abs() == old(Abs()).(cache := old(Abs()).cache - {old(wlCache[slot].wd)})
      ensures wlCache[..] == old(wlCache[..])[slot := Slot(-1, "")]
    {
      ClearSlot(wlCache[..], at, slot);
      ghost var before := wlCache[..];
      at := at - {wlCache[slot].wd};
      wlCache[slot] := EMPTY;
      assert wlCache[..] == before[slot := EMPTY];
    }

    // ----- renaming -----

    method RewriteCachedPaths(oldPrefix: string, oldName: string, newPrefix: string, newName: string)
      requires Valid()
      modifies wlCache
      ensures Valid()
      ensures SlotsRebased(old(wlCache[..]), wlCache[..], Join(oldPrefix, oldName), Join(newPrefix, newName))
      ensures Abs() == old(Abs()).(cache := Rewritten(old(Abs()).cache,
                                                      Join(oldPrefix, oldName), Join(newPrefix, newName)))
    {
      var fullPath, newPath := Join(oldPrefix, oldName), Join(newPrefix, newName);
      var len := |fullPath|;
      ghost var before := wlCache[..];
      for j := 0 to wlCache.Length
        invariant |before| == wlCache.Length
        invariant forall k | 0 <= k < j :: wlCache[k] == Slot(before[k].wd, Rebase(fullPath, newPath, before[k].path))
        invariant forall k | j <= k < wlCache.Length :: wlCache[k] == before[k]
      {
        if InSubtree(fullPath, wlCache[j].path) {
          wlCache[j] := Slot(wlCache[j].wd, newPath + wlCache[j].path[len..]);
        }
      }
      RewriteSlots(before, at, wlCache[..], fullPath, newPath);
    }

    // ----- adding watches -----

    method TraverseTree(v: Visit)
      requires Valid() && (v.Directory? ==> AddsUsableWd(kernel, v.ino))
      modifies this`wlCache, this`at, this`kernel, wlCache
      ensures Valid() && (wlCache == old(wlCache) || fresh(wlCache))
      ensures Abs() == WatchModel.TraverseTree(old(Abs()), v)
    {
      if !v.Directory? {
        return;
      }
      var root := FindRootDirPath(v.path);
      var (k, wd) := AddWatch(kernel, v.ino, root >= 0);
      kernel := k;
      var slot := FindWatch(wd);
      if slot >= 0 {
        return;
      }
      AddWatchToCache(wd, v.path);
    }

    method WatchSubtree(nftw: Walk, path: string)
      requires Valid() && UsableWds(kernel)
      modifies this`wlCache, this`at, this`kernel, wlCache
      ensures Valid() && UsableWds(kernel) && (wlCache == old(wlCache) || fresh(wlCache))
      ensures Abs() == WatchModel.WatchSubtree(old(Abs()), nftw, path)
    {
      var found := nftw(path);
      for n := 0 to |found|
        invariant Valid() && UsableWds(kernel) && (wlCache == old(wlCache) || fresh(wlCache))
        invariant WatchAll(Abs(), found[n..]) == WatchAll(old(Abs()), found)
      {
        TraverseTree(found[n]);
      }
    }

    // ----- the root list -----

    method FindRootDirPath(path: string) returns (j: int)
      ensures -1 <= j < |rootDirPaths|
      ensures j >= 0 <==> Some(path) in rootDirPaths
      ensures j >= 0 ==> rootDirPaths[j] == Some(path) && Some(path) !in rootDirPaths[..j]
    {
      for n := 0 to |rootDirPaths|
        invariant Some(path) !in rootDirPaths[..n]
      {
        if rootDirPaths[n] == Some(path) {
          return n;
        }
      }
      return -1;
    }

    /** Clears the root `path`; tells whether that was the last one, in which case the program exits. */
    method ZapRootDirPath(path: string) returns (last: bool)
      requires Valid() && Some(path) in rootDirPaths
      modifies this`rootDirPaths, this`ignoreRootDirs
      ensures Valid() && Abs() == ZapRoot(old(Abs()), path)
      ensures last == NoRootsLeft(Abs())
    {
      var j := FindRootDirPath(path);
      ZapFirstAt(rootDirPaths, path, j);
      rootDirPaths := rootDirPaths[j := None];
      ignoreRootDirs := ignoreRootDirs + 1;
      last := ignoreRootDirs == |rootDirPaths|;
    }

    // ----- removing watches -----

    /** The string an argument denotes when the call is made. */
    function ArgText(arg: PathArg): string
      requires arg.InSlot? ==> arg.slot < wlCache.Length
      reads this, wlCache
    {
      match arg
      case Text(text) => text
      case InSlot(j) => wlCache[j].path
    }

    /** inotify_rm_watch on the descriptor in a used slot and, if the kernel
        accepts it, the clearing of that slot. `gone` are the descriptors already removed from `st`. */
    method RemoveWatch(slot: nat, ghost st: State, ghost gone: set<int>) returns (ok: bool)
      requires Valid() && slot < wlCache.Length && wlCache[slot] != EMPTY && Abs() == Zapped(st, gone)
      modifies this`kernel, this`at, wlCache
      ensures Valid() && ok == (old(wlCache[slot].wd) in Wds(st.kernel))
      ensures var wd := old(wlCache[slot].wd);
              wd !in gone && wd in st.cache && st.cache[wd] == old(wlCache[slot].path)
      ensures ok ==> Abs() == Zapped(st, gone + {old(wlCache[slot].wd)})
      ensures !ok ==> Abs() == old(Abs())
      ensures wlCache[..] == if ok then old(wlCache[..])[slot := EMPTY] else old(wlCache[..])
    {
      var wd := wlCache[slot].wd;
      assert wlCache[..][slot].wd in at && Abs().cache[wd] == wlCache[slot].path;
      ZapOne(st, gone, wd);
      ok := wd in Wds(kernel);
      if ok {
        kernel := RmWatches(kernel, {wd});
        MarkCacheSlotEmpty(slot);
      }
    }

    /** One round of the zap loop: whether the slot was in the subtree, and if so, whether it could be emptied. */
    method ZapSlot(slot: nat, pn: string, ghost before: seq<Slot>, ghost st: State, ghost gone: set<int>)
      returns (hit: bool, ok: bool, ghost gone': set<int>)
      requires Valid() && slot < wlCache.Length && ZappedTo(st, before, Abs(), wlCache[..], pn, gone, slot)
      modifies this`kernel, this`at, wlCache
      ensures Valid() && |gone'| == |gone| + if hit then 1 else 0
      ensures ok ==> ZappedTo(st, before, Abs(), wlCache[..], pn, gone', slot + 1)
      ensures !ok ==> StoppedAt(st, before, Abs(), wlCache[..], pn, slot)
    {
      hit, ok, gone' := wlCache[slot].wd >= 0 && InSubtree(pn, wlCache[slot].path), true, gone;
      if hit {
        ok := RemoveWatch(slot, st, gone);
        gone' := gone + {before[slot].wd};
      }
    }

    /** Whether the argument is a separate string or sits in a slot that this very call clears, the
        same slots are emptied: those of the subtree it denoted when the call was made. If the kernel
        refuses a removal, the slots of the subtree before that one have been emptied, and no others. */
    method ZapSubtree(arg: PathArg) returns (cnt: int)
      requires Valid() && (arg.InSlot? ==> arg.slot < wlCache.Length)
      modifies this`kernel, this`at, wlCache
      ensures Valid() && Abs().roots == old(Abs()).roots && Abs().ignored == old(Abs()).ignored
      ensures match WatchModel.ZapSubtree(old(Abs()), old(ArgText(arg)))
              case Some(st) =>
                && Abs() == st && cnt == |Under(old(Abs()).cache, old(ArgText(arg)))|
                && Swept(old(wlCache[..]), wlCache[..], old(ArgText(arg)), wlCache.Length)
              case None =>
                && cnt == -1
                && exists j :: StoppedAt(old(Abs()), old(wlCache[..]), Abs(), wlCache[..], old(ArgText(arg)), j)
    {
      ghost var st, before, at0 := Abs(), wlCache[..], at;
      ghost var gone;
      var pn := ArgText(arg);
      cnt, gone := ZapSlots(pn);
      if cnt == -1 {
        ghost var j :| StoppedAt(st, before, Abs(), wlCache[..], pn, j);
        SweepRefused(before, at0, pn, st, j);
      } else {
        SweepDone(before, at0, pn, st, gone);
      }
    }

    /** The zap loop. */
    method ZapSlots(pn: string) returns (cnt: int, ghost gone: set<int>)
      requires Valid()
      modifies this`kernel, this`at, wlCache
      ensures Valid() && Abs().roots == old(Abs()).roots && Abs().ignored == old(Abs()).ignored
      ensures cnt == -1 ==> exists j :: StoppedAt(old(Abs()), old(wlCache[..]), Abs(), wlCache[..], pn, j)
      ensures cnt != -1 ==>
                cnt == |gone| && ZappedTo(old(Abs()), old(wlCache[..]), Abs(), wlCache[..], pn, gone, wlCache.Length)
    {
      ghost var st, before := Abs(), wlCache[..];
      cnt, gone := 0, {};
      assert st.cache - {} == st.cache && RmWatches(st.kernel, {}).marks == st.kernel.marks;
      for j := 0 to wlCache.Length
        invariant Valid() && cnt == |gone| && ZappedTo(st, before, Abs(), wlCache[..], pn, gone, j)
      {
        var hit, ok;
        hit, ok, gone := ZapSlot(j, pn, before, st, gone);
        if !ok {
          return -1, gone;
        }
        if hit {
          cnt := cnt + 1;
        }
      }
    }

    // ----- rebuilding -----

    method Reinitialize(nftw: Walk)
      requires Valid()
      modifies this`wlCache, this`at, this`kernel
      ensures Valid() && UsableWds(kernel) && fresh(wlCache)
      ensures Abs() == WatchModel.Reinitialize(old(Abs()), nftw)
    {
      kernel := FRESH;
      wlCache := new Slot[0];
      at := map[];
      ghost var blank := old(Abs()).(cache := map[], kernel := FRESH);
      assert Abs() == blank;
      for n := 0 to |rootDirPaths|
        invariant Valid() && UsableWds(kernel) && fresh(wlCache) && Abs().roots == blank.roots
        invariant WatchRoots(Abs(), nftw, blank.roots[n..]) == WatchRoots(blank, nftw, blank.roots)
      {
        if rootDirPaths[n].Some? {
          WatchSubtree(nftw, rootDirPaths[n].value);
        }
      }
    }

    // ----- events -----

    /** One call on the events left in the read buffer. */
    method ProcessNextInotifyEvent(nftw: Walk, evs: seq<Event>, firstTry: bool) returns (step: Step)
      requires Valid() && UsableWds(kernel) && |evs| > 0 && KernelEvent(evs[0]) && (|evs| > 1 ==> KernelEvent(evs[1]))
      modifies this, wlCache
      ensures Valid() && UsableWds(kernel) && (wlCache == old(wlCache) || fresh(wlCache))
      ensures StepMatches(step, ProcessNext(old(Abs()), nftw, evs, firstTry), old(Abs()), Abs())
    {
      var ev := evs[0];
      var slot := -1;
      if ev.wd != -1 && Ignored !in ev.mask {
        slot := FindWatch(ev.wd);
        if slot == -1 {
          Reinitialize(nftw);
          return Dropped;
        }
      }
      if IsDir in ev.mask && (Create in ev.mask || MovedTo in ev.mask) {
        var fullPath := Join(wlCache[slot].path, ev.name);
        var cached := PathnameInCache(fullPath);
        if !cached {
          WatchSubtree(nftw, fullPath);
        }
        return Took(1);
      } else if DeleteSelf in ev.mask {
        var root := FindRootDirPath(wlCache[slot].path);
        if root >= 0 {
          var last := ZapRootDirPath(wlCache[slot].path);
          if last {
            return Stopped;
          }
        }
        MarkCacheSlotEmpty(slot);
        return Took(1);
      } else if MovedFrom in ev.mask && IsDir in ev.mask {
        step := ProcessMovedFromEvent(nftw, evs, firstTry, slot);
        return;
      } else if QOverflow in ev.mask {
        Reinitialize(nftw);
        return Dropped;
      } else if Unmount in ev.mask {
        MarkCacheSlotEmpty(slot);
        return Took(1);
      } else if MoveSelf in ev.mask {
        var root := FindRootDirPath(wlCache[slot].path);
        if root >= 0 {
          step := ProcessRootMoved(nftw, slot);
          return;
        }
      }
      return Took(1);
    }

    method ProcessRootMoved(nftw: Walk, slot: nat) returns (step: Step)
      requires Valid() && UsableWds(kernel) && slot < wlCache.Length && Some(wlCache[slot].path) in rootDirPaths
      modifies this, wlCache
      ensures Valid() && UsableWds(kernel) && (wlCache == old(wlCache) || fresh(wlCache))
      ensures var path := old(wlCache[slot].path);
              var st1 := ZapRoot(old(Abs()), path);
              var out := if NoRootsLeft(st1) then Exit(st1) else ZapOrRebuild(st1, nftw, path);
              StepMatches(step, out, old(Abs()), Abs())
    {
      var last := ZapRootDirPath(wlCache[slot].path);
      if last {
        return Stopped;
      }
      var cnt := ZapSubtree(InSlot(slot));
      if cnt == -1 {
        Reinitialize(nftw);
        return Dropped;
      }
      return Took(1);
    }

    method ProcessMovedFromEvent(nftw: Walk, evs: seq<Event>, firstTry: bool, slot: nat) returns (step: Step)
      requires Valid() && UsableWds(kernel) && |evs| > 0 && (|evs| > 1 ==> KernelEvent(evs[1]))
      requires slot < wlCache.Length && evs[0].wd >= 0 && wlCache[slot].wd == evs[0].wd
      modifies this`wlCache, this`at, this`kernel, wlCache
      ensures Valid() && UsableWds(kernel) && (wlCache == old(wlCache) || fresh(wlCache))
      ensures old(evs[0].wd in Abs().cache)
      ensures StepMatches(step, ProcessMovedFrom(old(Abs()), nftw, evs, firstTry), old(Abs()), Abs())
    {
      var ev := evs[0];
      assert wlCache[..][slot].wd in at && Abs().cache[ev.wd] == wlCache[slot].path;
      if |evs| > 1 && MovedTo in evs[1].mask && evs[1].cookie == ev.cookie {
        var nextSlot := FindWatch(evs[1].wd);
        if nextSlot == -1 {
          Reinitialize(nftw);
          return Dropped;
        }
        RewriteCachedPaths(wlCache[slot].path, ev.name, wlCache[nextSlot].path, evs[1].name);
        return Took(2);
      } else if |evs| > 1 || !firstTry {
        var cnt := ZapSubtree(Text(Join(wlCache[slot].path, ev.name)));
        if cnt == -1 {
          Reinitialize(nftw);
          return Dropped;
        }
        return Took(1);
      } else {
        return Hung;
      }
    }

    /** One read and the loop over its events. The sizes of the reads are up to the kernel; the
        retry after a hanging IN_MOVED_FROM gets the next queued events, if there are any. Whatever
        the sizes, the call is a step of the reference run over the whole queue. */
    method ProcessInotifyEvents(nftw: Walk, queue: seq<Event>) returns (rest: seq<Event>, end: End)
      requires Valid() && UsableWds(kernel) && queue != [] && KernelEvents(queue)
      modifies this, wlCache
      ensures Valid() && UsableWds(kernel) && (wlCache == old(wlCache) || fresh(wlCache))
      ensures |rest| < |queue| && KernelEvents(rest)
      ensures var f := ProcessAll(old(Abs()), nftw, queue);
              if end.Drained? then Resumes(f, ProcessAll(Abs(), nftw, rest)) else f.st == Abs() && f.end == end
    {
      ghost var whole := ProcessAll(Abs(), nftw, queue);
      var buf, evp: nat, firstTry := [], 0, true;
      buf, rest := ReadAfter([], queue);
      end := Drained;
      assert [] + queue == queue;
      ghost var left := buf;
      while evp < |buf|
        invariant Valid() && UsableWds(kernel) && (wlCache == old(wlCache) || fresh(wlCache))
        invariant evp <= |buf| && left == buf[evp..] && |rest| < |queue| && end.Drained?
        invariant Underway(whole, Abs(), nftw, left, rest, firstTry)
        decreases |left| + |rest|, firstTry
      {
        buf, evp, rest, firstTry, end, left := ProcessOne(nftw, buf, evp, rest, firstTry, whole, left);
        if !end.Drained? {
          return [], end;
        }
      }
      assert [] + rest == rest;
    }

    /** One round of the event loop. */
    method ProcessOne(nftw: Walk, buf: seq<Event>, evp: nat, rest: seq<Event>, firstTry: bool,
                      ghost whole: Final, ghost left: seq<Event>)
      returns (buf': seq<Event>, evp': nat, rest': seq<Event>, firstTry': bool, end: End, ghost left': seq<Event>)
      requires Valid() && UsableWds(kernel) && evp < |buf| && left == buf[evp..]
      requires Underway(whole, Abs(), nftw, left, rest, firstTry)
      modifies this, wlCache
      ensures Valid() && UsableWds(kernel) && (wlCache == old(wlCache) || fresh(wlCache))
      ensures evp' <= |buf'| && left' == buf'[evp'..] && |rest'| <= |rest|
      ensures if end.Drained?
              then
                && Underway(whole, Abs(), nftw, left', rest', firstTry')
                && Closer(left, rest, firstTry, left', rest', firstTry')
              else whole.st == Abs() && whole.end == end
    {
      ghost var st := Abs();
      buf', evp', rest', firstTry', end, left' := buf, evp, rest, true, Drained, left;
      var step := ProcessNextInotifyEvent(nftw, buf[evp..], firstTry);
      UnderwayStep(whole, st, nftw, left, rest, firstTry, ProcessNext(st, nftw, left, firstTry));
      match step {
        case Took(n) =>
          evp', left' := evp + n, left[n..];
        case Dropped =>
          end := Discarded;
        case Stopped =>
          end := Exited;
        case Hung =>
          buf', rest' := ReadAfter(buf[evp..], rest);
          firstTry', evp', left' := false, 0, buf';
          UnderwayAgain(whole, st, nftw, left, rest, buf', rest');
      }
    }

    /** The main loop until the queue is empty: the reference run, whatever the reads were. */
    method ProcessQueue(nftw: Walk, queue: seq<Event>) returns (end: End)
      requires Valid() && UsableWds(kernel) && KernelEvents(queue)
      modifies this, wlCache
      ensures Valid() && UsableWds(kernel) && (wlCache == old(wlCache) || fresh(wlCache))
      ensures var f := ProcessAll(old(Abs()), nftw, queue); Abs() == f.st && end == f.end
    {
      var rest := queue;
      while rest != []
        invariant Valid() && UsableWds(kernel) && KernelEvents(rest) && (wlCache == old(wlCache) || fresh(wlCache))
        invariant Resumes(ProcessAll(old(Abs()), nftw, queue), ProcessAll(Abs(), nftw, rest))
        decreases |rest|
      {
        rest, end := ProcessInotifyEvents(nftw, rest);
        if !end.Drained? {
          return;
        }
      }
      end := Drained;
    }
  }

  /** What one call reports to the read loop. */
  datatype Step = Took(n: nat) | Hung | Dropped | Stopped

  ghost predicate StepMatches(step: Step, out: Outcome, before: State, after: State) {
    match step
    case Took(n) => out == Consumed(after, n)
    case Hung => out == Hang && after == before
    case Dropped => out == Discard(after)
    case Stopped => out == Exit(after)
  }

  /** Two runs end alike. */
  ghost predicate Resumes(f: Final, g: Final) {
    f.st == g.st && f.end == g.end
  }

  /** read(): some of the queued events, at least one if there is one, behind what the buffer holds. */
  method ReadAfter(kept: seq<Event>, queue: seq<Event>) returns (buf: seq<Event>, rest: seq<Event>)
    requires KernelEvents(kept) && KernelEvents(queue)
    ensures buf + rest == kept + queue && kept <= buf && |rest| <= |queue|
    ensures queue != [] ==> |rest| < |queue|
    ensures KernelEvents(buf) && KernelEvents(rest)
  {
    buf, rest := kept, queue;
    if queue != [] {
      var n :| 1 <= n <= |queue|;
      buf, rest := kept + queue[..n], queue[n..];
    }
  }

  /** The run `whole` goes on from `st`, with `left` in the buffer and `rest` still queued. */
  ghost predicate Underway(whole: Final, st: State, nftw: Walk, left: seq<Event>, rest: seq<Event>, firstTry: bool) {
    && KernelEvents(left) && KernelEvents(rest) && KernelEvents(left + rest)
    && Resumes(whole, ProcessAll(st, nftw, left + rest))
    && (firstTry || Retries(st, nftw, left, rest))
  }

  /** The measure of the loop: the events remaining and, among equals, whether the first try is still to come. */
  ghost predicate Closer(left: seq<Event>, rest: seq<Event>, firstTry: bool,
                         left': seq<Event>, rest': seq<Event>, firstTry': bool) {
    || |left'| + |rest'| < |left| + |rest|
    || (|left'| + |rest'| == |left| + |rest| && firstTry && !firstTry')
  }

  /** A call that does not hang is the step the reference run takes. */
  lemma UnderwayStep(whole: Final, st: State, nftw: Walk, left: seq<Event>, rest: seq<Event>, firstTry: bool,
                     out: Outcome)
    requires left != [] && Underway(whole, st, nftw, left, rest, firstTry)
    requires out == ProcessNext(st, nftw, left, firstTry)
    ensures match out
            case Consumed(st', n) => 0 < n <= |left| && Underway(whole, st', nftw, left[n..], rest, true)
            case Discard(st') => whole.st == st' && whole.end == Discarded
            case Exit(st') => whole.st == st' && whole.end == Exited
            case Hang => firstTry && |left| == 1
  {
    if !out.Hang? {
      WholeStreamAgrees(st, nftw, left, rest, firstTry);
      ReferenceStep(st, nftw, left + rest, out);
      if out.Consumed? {
        TakeFrom(left, rest, out.n);
      }
    }
  }

  /** After a call that hangs, and one more read. */
  lemma UnderwayAgain(whole: Final, st: State, nftw: Walk, left: seq<Event>, rest: seq<Event>,
                      buf: seq<Event>, rest': seq<Event>)
    requires |left| == 1 && Underway(whole, st, nftw, left, rest, true) && ProcessNext(st, nftw, left, true).Hang?
    requires KernelEvents(buf) && KernelEvents(rest') && buf + rest' == left + rest && left <= buf
    requires rest != [] ==> |rest'| < |rest|
    ensures Underway(whole, st, nftw, buf, rest', false) && |buf| + |rest'| == |left| + |rest|
  {
    assert buf[..1] == left;
    assert |buf + rest'| == |left + rest|;
  }

  /** Where the string passed to zapSubtree lives. */
  datatype PathArg = Text(text: string) | InSlot(slot: nat)

  /** Descriptors are never negative, so they cannot be taken for a blank slot. */
  ghost predicate UsableWds(k: Kernel) {
    k.nextWd >= 0 && forall i | i in k.marks :: k.marks[i].wd >= 0
  }

  ghost predicate AddsUsableWd(k: Kernel, i: Ino) {
    if i in k.marks then k.marks[i].wd >= 0 else k.nextWd >= 0
  }

  lemma {:induction false} ZapFirstAt(roots: seq<Option<string>>, path: string, j: int)
    requires 0 <= j < |roots| && roots[j] == Some(path) && Some(path) !in roots[..j]
    ensures ZapFirst(roots, path) == roots[j := None]
    decreases j
  {
    if j > 0 {
      assert roots[0] in roots[..j];
      assert forall x | x in roots[1..][..j - 1] :: x in roots[..j];
      ZapFirstAt(roots[1..], path, j - 1);
    }
  }

  /** The state with the descriptors `gone` removed from cache and kernel. */
  ghost function Zapped(st: State, gone: set<int>): State {
    st.(cache := st.cache - gone, kernel := RmWatches(st.kernel, gone))
  }

  lemma ZapOne(st: State, gone: set<int>, wd: int)
    requires wd in Zapped(st, gone).cache
    ensures wd !in gone && (wd in Wds(Zapped(st, gone).kernel) <==> wd in Wds(st.kernel))
    ensures var z := Zapped(st, gone);
            Zapped(st, gone + {wd}) == z.(cache := z.cache - {wd}, kernel := RmWatches(z.kernel, {wd}))
  {
    var z := Zapped(st, gone);
    assert st.cache - (gone + {wd}) == z.cache - {wd};
    assert RmWatches(z.kernel, {wd}).marks == RmWatches(st.kernel, gone + {wd}).marks;
    if wd in Wds(st.kernel) {
      var i :| i in st.kernel.marks && st.kernel.marks[i].wd == wd;
      assert z.kernel.marks[i].wd == wd;
    }
  }

  /** Slots that the zap loop empties. */
  predicate InZap(slot: Slot, path: string) {
    slot.wd >= 0 && InSubtree(path, slot.path)
  }

  /** The first `j` slots have been emptied where they are in the subtree; nothing else has changed. */
  ghost predicate Swept(before: seq<Slot>, after: seq<Slot>, path: string, j: nat) {
    && |after| == |before|
    && forall k | 0 <= k < |after| :: after[k] == if k < j && InZap(before[k], path) then EMPTY else before[k]
  }

  /** `gone` are the descriptors of those slots. */
  ghost predicate Removed(before: seq<Slot>, path: string, gone: set<int>, j: nat)
    requires j <= |before|
  {
    && (forall k | 0 <= k < j && InZap(before[k], path) :: before[k].wd in gone)
    && (forall wd | wd in gone :: exists k :: 0 <= k < j && InZap(before[k], path) && before[k].wd == wd)
  }

  /** The zap loop has come to slot `j`, having removed `gone`. */
  ghost predicate ZappedTo(st: State, before: seq<Slot>, st': State, after: seq<Slot>, path: string, gone: set<int>,
                           j: nat) {
    && Swept(before, after, path, j) && j <= |before| && Removed(before, path, gone, j)
    && gone <= Wds(st.kernel) && st' == Zapped(st, gone)
  }

  /** The kernel refused the removal for slot `j`, and for no slot of the subtree before it. */
  ghost predicate StoppedAt(st: State, before: seq<Slot>, st': State, after: seq<Slot>, path: string, j: nat) {
    && j < |before| && InZap(before[j], path) && before[j].wd !in Wds(st.kernel)
    && Swept(before, after, path, j)
    && exists gone :: Removed(before, path, gone, j) && gone <= Wds(st.kernel) && st' == Zapped(st, gone)
  }

  lemma SweepRefused(s: seq<Slot>, at: map<int, nat>, path: string, st: State, j: nat)
    requires Indexed(s, at) && st.cache == CacheOf(s, at) && j < |s| && InZap(s[j], path) && s[j].wd !in Wds(st.kernel)
    ensures WatchModel.ZapSubtree(st, path) == None
  {
    assert s[j].wd in at && s[j].wd in Under(st.cache, path);
  }

  lemma SweepDone(s: seq<Slot>, at: map<int, nat>, path: string, st: State, gone: set<int>)
    requires Indexed(s, at) && st.cache == CacheOf(s, at) && Removed(s, path, gone, |s|) && gone <= Wds(st.kernel)
    ensures gone == Under(st.cache, path)
    ensures WatchModel.ZapSubtree(st, path) == Some(Zapped(st, gone))
  {
    var under := Under(st.cache, path);
    forall wd | wd in under
      ensures wd in gone
    {
      assert InZap(s[at[wd]], path);
    }
    forall wd | wd in gone
      ensures wd in under
    {
      var k :| 0 <= k < |s| && InZap(s[k], path) && s[k].wd == wd;
      assert at[wd] == k;
    }
    assert under == gone;
  }
}
