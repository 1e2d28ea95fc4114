/** The watcher follows the file system: after every change whose events have been processed, the
    cache holds exactly the monitored directories, each under its current pathname. */
module WatchSimulation {
  import opened Wrappers
  import opened Paths
  import opened DirTree
  import opened DirView
  import opened WatchModel

  // ----- what it means to be in step -----

  /** Directory `i` is marked, its descriptor is cached under its pathname, and it is watched
      for moves exactly if it is a root. */
  ghost predicate Tracked(view: map<Ino, string>, texts: set<string>, st: State, i: Ino)
    requires i in view
  {
    && i in st.kernel.marks
    && 0 < st.kernel.marks[i].wd < st.kernel.nextWd
    && st.kernel.marks[i].wd in st.cache && st.cache[st.kernel.marks[i].wd] == view[i]
    && (st.kernel.marks[i].moveSelf <==> view[i] in texts)
  }

  ghost predicate OwnWd(marks: map<Ino, Mark>, i: Ino, j: Ino)
    requires i in marks && j in marks
  {
    marks[i].wd == marks[j].wd ==> i == j
  }

  ghost predicate AllOwnWds(marks: map<Ino, Mark>) {
    forall i, j {:trigger OwnWd(marks, i, j)} | i in marks && j in marks :: OwnWd(marks, i, j)
  }

  ghost predicate Owned(marks: map<Ino, Mark>, wd: int) {
    exists i :: i in marks && marks[i].wd == wd
  }

  /** Cache and kernel hold exactly the directories of `view`. */
  ghost predicate Agree(view: map<Ino, string>, texts: set<string>, st: State) {
    && 0 < st.kernel.nextWd
    && st.kernel.marks.Keys == view.Keys
    && AllOwnWds(st.kernel.marks)
    && (forall i {:trigger Tracked(view, texts, st, i)} | i in view :: Tracked(view, texts, st, i))
    && (forall wd {:trigger Owned(st.kernel.marks, wd)} | wd in st.cache :: Owned(st.kernel.marks, wd))
  }

  /** The list of root pathnames holds each remaining root once; cleared elements are counted. */
  ghost predicate RootsAgree(texts: set<string>, st: State) {
    && (forall p :: multiset(st.roots)[Some(p)] == if p in texts then 1 else 0)
    && st.ignored == multiset(st.roots)[None]
  }

  ghost predicate Synced(fs: FileSystem, st: State)
    requires WellFormed(fs)
  {
    && Agree(View(fs), RootTexts(fs), st)
    && RootsAgree(RootTexts(fs), st)
    && st.ignored < |st.roots|
  }

  /** Watch descriptor to pathname, for every monitored directory: the map the program maintains. */
  ghost function WatchMap(view: map<Ino, string>, marks: map<Ino, Mark>): map<int, string>
    requires view.Keys <= marks.Keys && AllOwnWds(marks)
  {
    assert forall i, j | i in view && j in view && marks[i].wd == marks[j].wd :: OwnWd(marks, i, j);
    map i | i in view :: marks[i].wd := view[i]
  }

  /** When the two agree, the cache is that map. */
  lemma CacheIsWatchMap(view: map<Ino, string>, texts: set<string>, st: State)
    requires Agree(view, texts, st)
    ensures st.cache == WatchMap(view, st.kernel.marks)
  {
    var marks := st.kernel.marks;
    var all := WatchMap(view, marks);
    forall i | i in view
      ensures marks[i].wd in st.cache && st.cache[marks[i].wd] == view[i]
    {
      assert Tracked(view, texts, st, i);
    }
    forall wd | wd in st.cache
      ensures wd in all && all[wd] == st.cache[wd]
    {
      assert Owned(marks, wd);
      var i :| i in marks && marks[i].wd == wd;
      assert i in view;
    }
  }

  // ----- watching -----

  lemma RootListed(texts: set<string>, st: State, path: string)
    requires RootsAgree(texts, st)
    ensures Some(path) in st.roots <==> path in texts
  {
    assert Some(path) in st.roots <==> Some(path) in multiset(st.roots);
  }

  lemma TraverseAgrees(view: map<Ino, string>, texts: set<string>, st: State, path: string, i: Ino)
    requires Agree(view, texts, st) && RootsAgree(texts, st)
    requires i in view ==> view[i] == path
    ensures Agree(view[i := path], texts, TraverseTree(st, Directory(path, i)))
    ensures TraverseTree(st, Directory(path, i)).roots == st.roots
    ensures TraverseTree(st, Directory(path, i)).ignored == st.ignored
  {
    RootListed(texts, st, path);
    var st', view' := TraverseTree(st, Directory(path, i)), view[i := path];
    var marks, marks' := st.kernel.marks, st'.kernel.marks;
    FreshIsFree(view, texts, st);
    assert i in view ==> Tracked(view, texts, st, i);
    forall j | j in view'
      ensures Tracked(view', texts, st', j)
    {
      assert j in view ==> Tracked(view, texts, st, j);
    }
    forall j, k | j in marks' && k in marks'
      ensures OwnWd(marks', j, k)
    {
      assert j in view ==> Tracked(view, texts, st, j);
      assert k in view ==> Tracked(view, texts, st, k);
      assert j in view && k in view ==> OwnWd(marks, j, k);
    }
    forall wd | wd in st'.cache
      ensures Owned(marks', wd)
    {
      if wd in st.cache {
        assert Owned(marks, wd);
        var j :| j in marks && marks[j].wd == wd;
        assert marks'[j].wd == wd;
      } else {
        assert marks'[i].wd == wd;
      }
    }
  }

  lemma FreshIsFree(view: map<Ino, string>, texts: set<string>, st: State)
    requires Agree(view, texts, st)
    ensures forall wd | wd in st.cache :: wd < st.kernel.nextWd
  {
    forall wd | wd in st.cache
      ensures wd < st.kernel.nextWd
    {
      assert Owned(st.kernel.marks, wd);
      var i :| i in st.kernel.marks && st.kernel.marks[i].wd == wd;
      assert Tracked(view, texts, st, i);
    }
  }

  /** The directories a traversal reported, as a map. */
  ghost function Found(found: seq<Visit>): map<Ino, string>
    decreases |found|
  {
    if found == [] then map[]
    else if found[0].Directory? then map[found[0].ino := found[0].path] + Found(found[1..])
    else Found(found[1..])
  }

  /** A directory is reported under its pathname. */
  ghost predicate Right(all: map<Ino, string>, f: Visit) {
    f.Directory? ==> f.ino in all && all[f.ino] == f.path
  }

  ghost predicate PartOf(view: map<Ino, string>, all: map<Ino, string>) {
    forall i | i in view :: i in all && all[i] == view[i]
  }

  lemma {:induction false} WatchAllAgrees(view: map<Ino, string>, texts: set<string>, st: State, all: map<Ino, string>,
                                          found: seq<Visit>)
    requires Agree(view, texts, st) && RootsAgree(texts, st)
    requires forall f | f in found :: Right(all, f)
    requires PartOf(view, all)
    ensures Agree(view + Found(found), texts, WatchAll(st, found))
    ensures WatchAll(st, found).roots == st.roots && WatchAll(st, found).ignored == st.ignored
    decreases |found|
  {
    FoundStep(view, found);
    if found != [] {
      var v := found[0];
      assert v in found;
      if v.Directory? {
        TraverseAgrees(view, texts, st, v.path, v.ino);
        WatchAllAgrees(view[v.ino := v.path], texts, TraverseTree(st, v), all, found[1..]);
      } else {
        WatchAllAgrees(view, texts, st, all, found[1..]);
      }
    }
  }

  lemma FoundStep(view: map<Ino, string>, found: seq<Visit>)
    ensures found == [] ==> view + Found(found) == view
    ensures found != [] && found[0].Directory? ==>
              view[found[0].ino := found[0].path] + Found(found[1..]) == view + Found(found)
  {
  }

  lemma {:induction false} FoundHolds(found: seq<Visit>, all: map<Ino, string>)
    requires forall f | f in found :: Right(all, f)
    ensures forall i | i in Found(found) :: i in all && all[i] == Found(found)[i]
    ensures forall f | f in found && f.Directory? :: f.ino in Found(found)
    ensures forall i | i in Found(found) :: Directory(all[i], i) in found
    decreases |found|
  {
    if found != [] {
      assert found[0] in found;
      FoundHolds(found[1..], all);
      assert forall f :: f in found <==> f == found[0] || f in found[1..];
    }
  }

  /** The directories nftw reports are exactly those at and below its starting point, each by its pathname. */
  ghost predicate FaithfulWalk(fs: FileSystem, nftw: Walk)
    requires WellFormed(fs)
  {
    forall i | i in View(fs) ::
      forall path, j ::
        Directory(path, j) in nftw(View(fs)[i]) <==> j in View(fs) && Below(fs, j, i) && View(fs)[j] == path
  }

  ghost function Listed(found: set<Visit>): (r: seq<Visit>)
    ensures forall f :: f in r <==> f in found
    decreases |found|
  {
    if found == {} then [] else var f :| f in found; [f] + Listed(found - {f})
  }

  /** Every file system has such a traversal. */
  lemma SomeFaithfulWalk(fs: FileSystem) returns (nftw: Walk)
    requires WellFormed(fs)
    ensures FaithfulWalk(fs, nftw)
  {
    var view := View(fs);
    nftw := (path: string) => Listed(set j | j in view && InSubtree(path, view[j]) :: Directory(view[j], j));
    forall i, path, j | i in view
      ensures Directory(path, j) in nftw(view[i]) <==> j in view && Below(fs, j, i) && view[j] == path
    {
      if j in view {
        SubtreeTest(fs, j, i);
      }
    }
  }

  /** The same, in terms of pathnames alone. */
  ghost predicate WalkFinds(all: map<Ino, string>, nftw: Walk, i: Ino)
    requires i in all
  {
    && (forall f | f in nftw(all[i]) :: Right(all, f))
    && Found(nftw(all[i])) == ViewUnder(all, all[i])
  }

  lemma WalkFindsSubtree(fs: FileSystem, nftw: Walk, i: Ino)
    requires WellFormed(fs) && FaithfulWalk(fs, nftw) && i in View(fs)
    ensures WalkFinds(View(fs), nftw, i)
  {
    var found, view := nftw(View(fs)[i]), View(fs);
    forall f | f in found
      ensures Right(view, f)
    {
      assert f.Directory? ==> Directory(f.path, f.ino) in found;
    }
    FoundHolds(found, view);
    forall j | j in view
      ensures j in Found(found) <==> InSubtree(view[i], view[j])
    {
      SubtreeTest(fs, j, i);
      assert Directory(view[j], j) in found <==> Below(fs, j, i);
      if Directory(view[j], j) in found {
        assert Directory(view[j], j).ino in Found(found);
      }
    }
  }

  /** watchSubtree adds exactly the directories at and under the pathname of `i`. */
  lemma WatchSubtreeAgrees(view: map<Ino, string>, texts: set<string>, st: State, all: map<Ino, string>, nftw: Walk,
                           i: Ino)
    requires i in all && WalkFinds(all, nftw, i)
    requires Agree(view, texts, st) && RootsAgree(texts, st)
    requires PartOf(view, all)
    ensures var st' := WatchSubtree(st, nftw, all[i]);
            Agree(view + ViewUnder(all, all[i]), texts, st') && st'.roots == st.roots && st'.ignored == st.ignored
  {
    WatchAllAgrees(view, texts, st, all, nftw(all[i]));
  }

  // ----- rebuilding -----

  ghost function UnderRoots(all: map<Ino, string>, roots: seq<Option<string>>): map<Ino, string>
    decreases |roots|
  {
    if roots == [] then map[]
    else (if roots[0].Some? then ViewUnder(all, roots[0].value) else map[]) + UnderRoots(all, roots[1..])
  }

  lemma {:induction false} UnderRootsHolds(all: map<Ino, string>, roots: seq<Option<string>>)
    ensures forall i | i in UnderRoots(all, roots) :: i in all && all[i] == UnderRoots(all, roots)[i]
    ensures forall i, p | i in all && Some(p) in roots && InSubtree(p, all[i]) :: i in UnderRoots(all, roots)
    decreases |roots|
  {
    if roots != [] {
      UnderRootsHolds(all, roots[1..]);
      assert forall x :: x in roots <==> x == roots[0] || x in roots[1..];
    }
  }

  lemma UnderRootsStep(view: map<Ino, string>, all: map<Ino, string>, roots: seq<Option<string>>)
    ensures roots == [] ==> view + UnderRoots(all, roots) == view
    ensures roots != [] && roots[0].None? ==> view + UnderRoots(all, roots[1..]) == view + UnderRoots(all, roots)
    ensures roots != [] && roots[0].Some? ==>
              view + ViewUnder(all, roots[0].value) + UnderRoots(all, roots[1..]) == view + UnderRoots(all, roots)
  {
    if roots == [] {
      assert view + map[] == view;
    } else if roots[0].None? {
      assert map[] + UnderRoots(all, roots[1..]) == UnderRoots(all, roots[1..]);
    } else {
      MergeAssociates(view, ViewUnder(all, roots[0].value), UnderRoots(all, roots[1..]));
    }
  }

  lemma MergeAssociates(a: map<Ino, string>, b: map<Ino, string>, c: map<Ino, string>)
    ensures (a + b) + c == a + (b + c)
  {
  }

  /** Every listed root is a directory, and traversing it reports its subtree. */
  ghost predicate WalkFindsFrom(all: map<Ino, string>, nftw: Walk, p: string) {
    exists i :: i in all && all[i] == p && WalkFinds(all, nftw, i)
  }

  ghost predicate RootsWalk(all: map<Ino, string>, nftw: Walk, roots: seq<Option<string>>) {
    forall p | Some(p) in roots :: WalkFindsFrom(all, nftw, p)
  }

  lemma {:induction false} WatchRootsAgrees(view: map<Ino, string>, texts: set<string>, st: State,
                                            all: map<Ino, string>, nftw: Walk, roots: seq<Option<string>>)
    requires Agree(view, texts, st) && RootsAgree(texts, st) && PartOf(view, all)
    requires RootsWalk(all, nftw, roots)
    ensures var st' := WatchRoots(st, nftw, roots);
            Agree(view + UnderRoots(all, roots), texts, st') && st'.roots == st.roots && st'.ignored == st.ignored
    decreases |roots|
  {
    UnderRootsStep(view, all, roots);
    if roots != [] {
      assert forall p | Some(p) in roots[1..] :: Some(p) in roots;
      if roots[0].None? {
        WatchRootsAgrees(view, texts, st, all, nftw, roots[1..]);
      } else {
        assert Some(roots[0].value) in roots;
        WatchRootAgrees(view, texts, st, all, nftw, roots[0].value);
        WatchRootsAgrees(view + ViewUnder(all, roots[0].value), texts, WatchSubtree(st, nftw, roots[0].value),
                         all, nftw, roots[1..]);
      }
    }
  }

  lemma WatchRootAgrees(view: map<Ino, string>, texts: set<string>, st: State, all: map<Ino, string>, nftw: Walk,
                        p: string)
    requires Agree(view, texts, st) && RootsAgree(texts, st)
    requires PartOf(view, all)
    requires WalkFindsFrom(all, nftw, p)
    ensures PartOf(view + ViewUnder(all, p), all)
    ensures var st' := WatchSubtree(st, nftw, p);
            && Agree(view + ViewUnder(all, p), texts, st') && RootsAgree(texts, st')
            && st'.roots == st.roots && st'.ignored == st.ignored
  {
    var i :| i in all && all[i] == p && WalkFinds(all, nftw, i);
    WatchSubtreeAgrees(view, texts, st, all, nftw, i);
  }

  lemma RootsCoverView(fs: FileSystem, st: State, nftw: Walk)
    requires WellFormed(fs) && FaithfulWalk(fs, nftw) && RootsAgree(RootTexts(fs), st)
    ensures RootsWalk(View(fs), nftw, st.roots)
    ensures UnderRoots(View(fs), st.roots) == View(fs)
  {
    forall p | Some(p) in st.roots
      ensures WalkFindsFrom(View(fs), nftw, p)
    {
      RootListed(RootTexts(fs), st, p);
      var i := RootIno(fs, p);
      WalkFindsSubtree(fs, nftw, i);
    }
    forall i | i in View(fs)
      ensures exists p :: Some(p) in st.roots && InSubtree(p, View(fs)[i])
    {
      ViewIsUnderRoots(fs, i);
      var p :| p in RootTexts(fs) && InSubtree(p, View(fs)[i]);
      RootListed(RootTexts(fs), st, p);
    }
    AllUnderRoots(View(fs), st.roots);
  }

  lemma AllUnderRoots(all: map<Ino, string>, roots: seq<Option<string>>)
    requires forall i | i in all :: exists p :: Some(p) in roots && InSubtree(p, all[i])
    ensures UnderRoots(all, roots) == all
  {
    UnderRootsHolds(all, roots);
  }

  lemma RootIno(fs: FileSystem, p: string) returns (i: Ino)
    requires WellFormed(fs) && p in RootTexts(fs)
    ensures i in View(fs) && View(fs)[i] == p
  {
    i :| i in fs && fs[i].Root? && fs[i].path == p;
    PathOfChild(fs, i);
  }

  /** Rebuilding recovers from any cache and any inotify instance, however damaged. */
  lemma RebuildRecovers(fs: FileSystem, st: State, nftw: Walk)
    requires WellFormed(fs) && FaithfulWalk(fs, nftw)
    requires RootsAgree(RootTexts(fs), st) && st.ignored < |st.roots|
    ensures Synced(fs, Reinitialize(st, nftw))
    ensures Reinitialize(st, nftw).roots == st.roots
  {
    RootsCoverView(fs, st, nftw);
    RebuildAgrees(View(fs), RootTexts(fs), st, nftw);
  }

  lemma RebuildAgrees(all: map<Ino, string>, texts: set<string>, st: State, nftw: Walk)
    requires RootsAgree(texts, st) && RootsWalk(all, nftw, st.roots) && UnderRoots(all, st.roots) == all
    ensures var st' := Reinitialize(st, nftw);
            Agree(all, texts, st') && st'.roots == st.roots && st'.ignored == st.ignored
  {
    WatchRootsAgrees(map[], texts, st.(cache := map[], kernel := FRESH), all, nftw, st.roots);
    assert map[] + all == all;
  }

  // ----- the root list -----

  lemma {:induction false} ZapFirstEffect(roots: seq<Option<string>>, path: string)
    requires Some(path) in roots
    ensures |ZapFirst(roots, path)| == |roots|
    ensures multiset(ZapFirst(roots, path)) == multiset(roots) - multiset{Some(path)} + multiset{None}
    decreases |roots|
  {
    assert roots == [roots[0]] + roots[1..];
    if roots[0] != Some(path) {
      ZapFirstEffect(roots[1..], path);
    }
  }

  lemma {:induction false} AllCleared(roots: seq<Option<string>>)
    ensures multiset(roots)[None] <= |roots|
    ensures multiset(roots)[None] == |roots| <==> forall p :: Some(p) !in roots
    decreases |roots|
  {
    if roots != [] {
      assert roots == [roots[0]] + roots[1..];
      AllCleared(roots[1..]);
      assert forall x :: x in roots <==> x == roots[0] || x in roots[1..];
      if roots[0].Some? {
        assert Some(roots[0].value) in roots;
      }
    }
  }

  /** Clearing the pathname of a root that has gone keeps list and file system in agreement, and
      the program stops exactly when no root is left. */
  lemma ZapRootAgrees(texts: set<string>, st: State, path: string)
    requires RootsAgree(texts, st) && path in texts
    ensures RootsAgree(texts - {path}, ZapRoot(st, path))
    ensures ZapRoot(st, path).ignored <= |ZapRoot(st, path).roots|
    ensures NoRootsLeft(ZapRoot(st, path)) <==> texts - {path} == {}
  {
    RootListed(texts, st, path);
    ZapFirstEffect(st.roots, path);
    var st' := ZapRoot(st, path);
    ClearedList(texts, st, path, st');
    SomeLeft(texts - {path}, st');
  }

  lemma ClearedList(texts: set<string>, st: State, path: string, st': State)
    requires RootsAgree(texts, st) && path in texts && st'.ignored == st.ignored + 1
    requires multiset(st'.roots) == multiset(st.roots) - multiset{Some(path)} + multiset{None}
    ensures RootsAgree(texts - {path}, st')
  {
    forall p
      ensures multiset(st'.roots)[Some(p)] == if p in texts - {path} then 1 else 0
    {
      assert multiset(st.roots)[Some(p)] == if p in texts then 1 else 0;
    }
  }

  lemma SomeLeft(texts: set<string>, st: State)
    requires RootsAgree(texts, st)
    ensures st.ignored <= |st.roots| && (NoRootsLeft(st) <==> texts == {})
  {
    AllCleared(st.roots);
    forall p
      ensures Some(p) in st.roots <==> p in texts
    {
      RootListed(texts, st, p);
    }
    if texts != {} {
      var p :| p in texts;
      assert Some(p) in st.roots;
    }
  }

  // ----- the count of cleared roots, whatever the events -----

  /** `ignored` counts the cleared roots, and some root is left. */
  ghost predicate Counted(st: State) {
    st.ignored == multiset(st.roots)[None] < |st.roots|
  }

  /** The program has cleared its last root. */
  ghost predicate Finished(st: State) {
    st.ignored == multiset(st.roots)[None] == |st.roots|
  }

  lemma {:induction false} WatchAllKeepsRoots(st: State, found: seq<Visit>)
    ensures WatchAll(st, found).roots == st.roots && WatchAll(st, found).ignored == st.ignored
    decreases |found|
  {
    if found != [] {
      WatchAllKeepsRoots(TraverseTree(st, found[0]), found[1..]);
    }
  }

  lemma {:induction false} WatchRootsKeepsRoots(st: State, nftw: Walk, roots: seq<Option<string>>)
    ensures WatchRoots(st, nftw, roots).roots == st.roots && WatchRoots(st, nftw, roots).ignored == st.ignored
    decreases |roots|
  {
    if roots != [] {
      var st1 := if roots[0].Some? then WatchSubtree(st, nftw, roots[0].value) else st;
      if roots[0].Some? {
        WatchAllKeepsRoots(st, nftw(roots[0].value));
      }
      WatchRootsKeepsRoots(st1, nftw, roots[1..]);
    }
  }

  lemma RebuildKeepsRoots(st: State, nftw: Walk)
    ensures Reinitialize(st, nftw).roots == st.roots && Reinitialize(st, nftw).ignored == st.ignored
  {
    WatchRootsKeepsRoots(st.(cache := map[], kernel := FRESH), nftw, st.roots);
  }

  lemma ZapRootCounts(st: State, path: string)
    requires Counted(st) && Some(path) in st.roots
    ensures var st' := ZapRoot(st, path);
            if NoRootsLeft(st') then Finished(st') else Counted(st')
  {
    ZapFirstEffect(st.roots, path);
    AllCleared(ZapRoot(st, path).roots);
  }

  ghost predicate SameRoots(st: State, st': State) {
    st'.roots == st.roots && st'.ignored == st.ignored
  }

  ghost predicate OutKeepsRoots(st: State, out: Outcome) {
    (out.Consumed? || out.Discard? ==> SameRoots(st, out.st)) && !out.Exit?
  }

  lemma ZapKeepsRoots(st: State, nftw: Walk, path: string)
    ensures OutKeepsRoots(st, ZapOrRebuild(st, nftw, path))
  {
    RebuildKeepsRoots(st, nftw);
  }

  lemma MovedFromKeepsRoots(st: State, nftw: Walk, evs: seq<Event>, firstTry: bool)
    requires evs != [] && evs[0].wd in st.cache
    ensures OutKeepsRoots(st, ProcessMovedFrom(st, nftw, evs, firstTry))
  {
    RebuildKeepsRoots(st, nftw);
    ZapKeepsRoots(st, nftw, Join(st.cache[evs[0].wd], evs[0].name));
  }

  /** An event that clears no root leaves the list alone. */
  ghost predicate ClearsRoot(st: State, ev: Event) {
    ev.wd in st.cache && Some(st.cache[ev.wd]) in st.roots && (DeleteSelf in ev.mask || MoveSelf in ev.mask)
  }

  lemma OtherEventKeepsRoots(st: State, nftw: Walk, evs: seq<Event>, firstTry: bool)
    requires evs != [] && KernelEvent(evs[0]) && !ClearsRoot(st, evs[0])
    ensures OutKeepsRoots(st, ProcessNext(st, nftw, evs, firstTry))
  {
    var ev := evs[0];
    RebuildKeepsRoots(st, nftw);
    if ev.wd in st.cache {
      WatchAllKeepsRoots(st, nftw(Join(st.cache[ev.wd], ev.name)));
      MovedFromKeepsRoots(st, nftw, evs, firstTry);
    }
  }

  ghost predicate OutZapsRoot(st1: State, out: Outcome) {
    if NoRootsLeft(st1) then out == Exit(st1) else OutKeepsRoots(st1, out)
  }

  lemma ClearingEvent(st: State, nftw: Walk, evs: seq<Event>, firstTry: bool)
    requires evs != [] && KernelEvent(evs[0]) && ClearsRoot(st, evs[0])
    ensures var out := ProcessNext(st, nftw, evs, firstTry);
            OutKeepsRoots(st, out) || OutZapsRoot(ZapRoot(st, st.cache[evs[0].wd]), out)
  {
    var ev := evs[0];
    RebuildKeepsRoots(st, nftw);
    WatchAllKeepsRoots(st, nftw(Join(st.cache[ev.wd], ev.name)));
    MovedFromKeepsRoots(st, nftw, evs, firstTry);
    ZapKeepsRoots(ZapRoot(st, st.cache[ev.wd]), nftw, st.cache[ev.wd]);
  }

  ghost predicate CountKept(out: Outcome) {
    match out
    case Consumed(st', _) => Counted(st')
    case Hang => true
    case Discard(st') => Counted(st')
    case Exit(st') => Finished(st')
  }

  lemma StepKeepsCount(st: State, nftw: Walk, evs: seq<Event>, firstTry: bool)
    requires Counted(st) && evs != [] && KernelEvent(evs[0])
    ensures CountKept(ProcessNext(st, nftw, evs, firstTry))
  {
    if ClearsRoot(st, evs[0]) {
      ClearingEvent(st, nftw, evs, firstTry);
      ZapRootCounts(st, st.cache[evs[0].wd]);
    } else {
      OtherEventKeepsRoots(st, nftw, evs, firstTry);
    }
  }

  /** Whatever events arrive, expected or not: the count is the number of cleared roots, and it
      reaches the number of roots exactly when the program exits. */
  lemma {:induction false} CountedUntilExit(st: State, nftw: Walk, evs: seq<Event>)
    requires Counted(st) && KernelEvents(evs)
    ensures var f := ProcessAll(st, nftw, evs);
            if f.end.Exited? then Finished(f.st) else Counted(f.st)
    decreases |evs|
  {
    if evs != [] {
      StepKeepsCount(st, nftw, evs, true);
      StepKeepsCount(st, nftw, evs, false);
      var first := ProcessNext(st, nftw, evs, true);
      var out := if first.Hang? then ProcessNext(st, nftw, evs, false) else first;
      if out.Consumed? {
        CountedUntilExit(out.st, nftw, evs[out.n..]);
      }
    }
  }

  // ----- recovery, whatever the events -----

  /** The two states a call can rebuild from: the one it found, and that without the root it has just cleared. */
  ghost predicate IsRebuild(st: State, nftw: Walk, ev: Event, st': State) {
    || st' == Reinitialize(st, nftw)
    || (&& ev.wd in st.cache && Some(st.cache[ev.wd]) in st.roots && !NoRootsLeft(ZapRoot(st, st.cache[ev.wd]))
        && st' == Reinitialize(ZapRoot(st, st.cache[ev.wd]), nftw))
  }

  lemma DiscardIsRebuild(st: State, nftw: Walk, evs: seq<Event>, firstTry: bool)
    requires evs != [] && KernelEvent(evs[0])
    ensures var out := ProcessNext(st, nftw, evs, firstTry); out.Discard? ==> IsRebuild(st, nftw, evs[0], out.st)
  {
  }

  lemma RebuiltInStep(fs: FileSystem, st: State, nftw: Walk, ev: Event, st': State)
    requires WellFormed(fs) && FaithfulWalk(fs, nftw) && Counted(st)
    requires IsRebuild(st, nftw, ev, st') && RootsAgree(RootTexts(fs), st')
    ensures Synced(fs, st')
  {
    if st' == Reinitialize(st, nftw) {
      RebuildKeepsRoots(st, nftw);
      RebuildRecovers(fs, st, nftw);
    } else {
      var st1 := ZapRoot(st, st.cache[ev.wd]);
      ZapRootCounts(st, st.cache[ev.wd]);
      RebuildKeepsRoots(st1, nftw);
      RebuildRecovers(fs, st1, nftw);
    }
  }

  /** Whatever events arrive, of racing changes or of none, and however wrong the cache is: if the run ends with a
      rebuild, the watcher is in step with the tree as it then is, provided its list of roots is. */
  lemma {:induction false} DiscardRecovers(fs: FileSystem, st: State, nftw: Walk, evs: seq<Event>)
    requires WellFormed(fs) && FaithfulWalk(fs, nftw) && Counted(st) && KernelEvents(evs)
    requires ProcessAll(st, nftw, evs).end.Discarded? && RootsAgree(RootTexts(fs), ProcessAll(st, nftw, evs).st)
    ensures Synced(fs, ProcessAll(st, nftw, evs).st)
    decreases |evs|
  {
    var first := ProcessNext(st, nftw, evs, true);
    var out := if first.Hang? then ProcessNext(st, nftw, evs, false) else first;
    StepKeepsCount(st, nftw, evs, true);
    StepKeepsCount(st, nftw, evs, false);
    if out.Consumed? {
      DiscardRecovers(fs, out.st, nftw, evs[out.n..]);
    } else {
      DiscardIsRebuild(st, nftw, evs, true);
      DiscardIsRebuild(st, nftw, evs, false);
      RebuiltInStep(fs, st, nftw, evs[0], out.st);
    }
  }
}
