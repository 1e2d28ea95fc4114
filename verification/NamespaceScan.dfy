/** The scan over all processes, what its result is, and that the order of the scan does not matter. */
module NamespaceScan {
  import opened Wrappers
  import opened Namespaces

  /** One /proc/PID/ns file: a process and one of its namespaces. */
  datatype Member = Member(ns: NsId, pid: int)

  /** The namespaces of the scanned processes are the kernel's. */
  ghost predicate AllKnown(h: Hierarchy, scan: seq<Member>) {
    forall m | m in scan :: m.ns in h.spaces
  }

  /** The namespaces met by a scan, with their lines. */
  ghost function Met(h: Hierarchy, rank: map<NsId, nat>, bound: nat, scan: seq<Member>): set<NsId>
    requires Ranked(h, rank, bound) && AllKnown(h, scan)
  {
    set m, ns | m in scan && ns in Line(h, rank, bound, m.ns) :: ns
  }

  /** The processes scanned for `ns`, in the order of the scan. */
  function PidsOf(scan: seq<Member>, ns: NsId): seq<int> {
    if scan == [] then []
    else
      var rest := PidsOf(scan[..|scan| - 1], ns);
      var m := scan[|scan| - 1];
      if m.ns == ns && m.pid > 0 then rest + [m.pid] else rest
  }

  /** `rootNS` after a scan. */
  ghost function NewestRoot(h: Hierarchy, rank: map<NsId, nat>, bound: nat, scan: seq<Member>): NsId
    requires Ranked(h, rank, bound) && AllKnown(h, scan)
    decreases |scan|
  {
    if scan == [] then INVISIBLE
    else
      var init, m := scan[..|scan| - 1], scan[|scan| - 1];
      RootAfter(h, rank, bound, m.ns, Met(h, rank, bound, init), NewestRoot(h, rank, bound, init))
  }

  /** The result of a scan: an entry for every namespace met and every holder of one, each linked
      exactly once, under its holder; every process under its namespace; and the newest root. */
  ghost predicate Built(h: Hierarchy, rank: map<NsId, nat>, bound: nat, scan: seq<Member>, list: NamespaceList,
                        rootNS: NsId)
    requires Ranked(h, rank, bound) && AllKnown(h, scan)
  {
    && list.Keys == Met(h, rank, bound, scan)
    && Linked(h, list, {}) && rootNS == NewestRoot(h, rank, bound, scan)
    && forall ns | ns in list :: list[ns].pids == PidsOf(scan, ns)
  }

  /** `newest` is a root first met at position `k` of the scan, when every other root had been met. */
  ghost predicate EnteredLast(h: Hierarchy, rank: map<NsId, nat>, bound: nat, scan: seq<Member>, k: nat, newest: NsId)
    requires Ranked(h, rank, bound) && AllKnown(h, scan)
  {
    && k < |scan| && AllKnown(h, scan[..k]) && scan[k].ns in h.spaces
    && IsTop(h, newest) && newest in Line(h, rank, bound, scan[k].ns) && newest !in Met(h, rank, bound, scan[..k])
    && forall t | t in Met(h, rank, bound, scan) && IsTop(h, t) && t != newest :: t in Met(h, rank, bound, scan[..k])
  }

  /** Which root `rootNS` is, if any was met. */
  lemma {:induction false} NewestIsLast(h: Hierarchy, rank: map<NsId, nat>, bound: nat, scan: seq<Member>)
    returns (k: nat)
    requires Ranked(h, rank, bound) && AllKnown(h, scan)
    requires exists t :: t in Met(h, rank, bound, scan) && IsTop(h, t)
    ensures EnteredLast(h, rank, bound, scan, k, NewestRoot(h, rank, bound, scan))
    decreases |scan|
  {
    var init, m := scan[..|scan| - 1], scan[|scan| - 1];
    assert scan == init + [m];
    MetStep(h, rank, bound, init, m);
    TopInLine(h, rank, bound, m.ns);
    var t := TopOf(h, rank, bound, m.ns);
    if IsTop(h, t) && t !in Met(h, rank, bound, init) {
      k := |init|;
    } else {
      k := NewestIsLast(h, rank, bound, init);
      StillLast(h, rank, bound, init, m, scan, k, NewestRoot(h, rank, bound, init));
    }
  }

  lemma StillLast(h: Hierarchy, rank: map<NsId, nat>, bound: nat, init: seq<Member>, m: Member, scan: seq<Member>,
                  k: nat, newest: NsId)
    requires Ranked(h, rank, bound) && AllKnown(h, scan) && AllKnown(h, init) && scan == init + [m]
    requires EnteredLast(h, rank, bound, init, k, newest)
    requires forall t | t in Met(h, rank, bound, scan) && IsTop(h, t) :: t in Met(h, rank, bound, init)
    ensures EnteredLast(h, rank, bound, scan, k, newest)
  {
    assert scan[..k] == init[..k] && scan[k] == init[k];
  }

  /** It is a root that was met, if any was. */
  lemma {:induction false} NewestNoted(h: Hierarchy, rank: map<NsId, nat>, bound: nat, scan: seq<Member>)
    requires Ranked(h, rank, bound) && AllKnown(h, scan)
    ensures RootNoted(h, Met(h, rank, bound, scan), NewestRoot(h, rank, bound, scan))
    decreases |scan|
  {
    if scan != [] {
      var init, m := scan[..|scan| - 1], scan[|scan| - 1];
      assert scan == init + [m];
      MetStep(h, rank, bound, init, m);
      NewestNoted(h, rank, bound, init);
      RootAfterNoted(h, rank, bound, m.ns, Met(h, rank, bound, init), NewestRoot(h, rank, bound, init));
    }
  }

  /** After a scan every namespace that is not a root is in exactly one list of children, once; a
      root and the invisible entry are in none. */
  lemma InOneList(h: Hierarchy, rank: map<NsId, nat>, bound: nat, scan: seq<Member>, list: NamespaceList, rootNS: NsId,
                  c: NsId)
    requires Ranked(h, rank, bound) && AllKnown(h, scan)
    requires Built(h, rank, bound, scan, list, rootNS) && c in list
    ensures Holder(h, c).Some? ==> Holder(h, c).value in list && multiset(list[Holder(h, c).value].children)[c] == 1
    ensures forall p | p in list && Some(p) != Holder(h, c) :: c !in list[p].children
  {
    assert HolderIn(h, list, {}, c);
    if Holder(h, c).Some? {
      assert ChildOnce(h, list, {}, Holder(h, c).value, c);
    }
    forall p | p in list && Some(p) != Holder(h, c)
      ensures c !in list[p].children
    {
      assert ChildOnce(h, list, {}, p, c);
      assert c in list[p].children <==> c in multiset(list[p].children);
    }
  }

  /** The children of an entry, in the kernel's terms: in the PID hierarchy the namespaces whose parent it is,
      otherwise those whose owner it is, each once. */
  lemma ChildrenAreTheKernels(h: Hierarchy, rank: map<NsId, nat>, bound: nat, scan: seq<Member>, list: NamespaceList,
                              rootNS: NsId, p: NsId, c: NsId)
    requires Ranked(h, rank, bound) && AllKnown(h, scan) && Built(h, rank, bound, scan, list, rootNS)
    requires p in list && p in h.spaces && c in list && c in h.spaces
    ensures h.pidns ==> multiset(list[p].children)[c] == if h.spaces[c].parent == Some(p) then 1 else 0
    ensures !h.pidns ==> multiset(list[p].children)[c] == if h.spaces[c].owner == Some(p) then 1 else 0
  {
    assert ChildOnce(h, list, {}, p, c);
  }

  /** Every namespace scanned has an entry, with its process, and every entry has above it what the kernel answers. */
  lemma EntriesAreClosed(h: Hierarchy, rank: map<NsId, nat>, bound: nat, scan: seq<Member>, list: NamespaceList,
                         rootNS: NsId, m: Member, c: NsId)
    requires Ranked(h, rank, bound) && AllKnown(h, scan) && Built(h, rank, bound, scan, list, rootNS)
    requires m in scan && c in list && c in h.spaces
    ensures m.ns in list && (m.pid > 0 ==> m.pid in list[m.ns].pids)
    ensures h.pidns && h.spaces[c].parent.Some? ==> h.spaces[c].parent.value in list
    ensures !h.pidns && h.spaces[c].owner.Some? ==> h.spaces[c].owner.value in list
  {
    assert m.ns in Line(h, rank, bound, m.ns);
    assert HolderIn(h, list, {}, c);
    if m.pid > 0 {
      PidsCounted(scan, m.ns, m.pid);
      assert m in multiset(scan);
      assert m.pid in multiset(PidsOf(scan, m.ns));
    }
  }

  /** The invisible entry has no place in the PID hierarchy. Otherwise its children are the namespaces, other than user
      namespaces, whose owner the kernel does not show. */
  lemma InvisibleChildren(h: Hierarchy, rank: map<NsId, nat>, bound: nat, scan: seq<Member>, list: NamespaceList,
                          rootNS: NsId, c: NsId)
    requires Ranked(h, rank, bound) && AllKnown(h, scan) && Built(h, rank, bound, scan, list, rootNS)
    requires NsId(0, 0) in list && c in list && c in h.spaces
    ensures multiset(list[NsId(0, 0)].children)[c] ==
            if !h.pidns && h.spaces[c].owner == None && h.spaces[c].nsType != 0x1000_0000 then 1 else 0
  {
    assert ChildOnce(h, list, {}, NsId(0, 0), c);
  }

  /** The roots, in the same terms. */
  lemma RootsAreTheKernels(h: Hierarchy, c: NsId)
    requires c in h.spaces
    ensures h.pidns ==> (IsTop(h, c) <==> h.spaces[c].parent == None)
    ensures !h.pidns ==> (IsTop(h, c) <==> h.spaces[c].owner == None && h.spaces[c].nsType == 0x1000_0000)
  {
  }

  lemma MetStep(h: Hierarchy, rank: map<NsId, nat>, bound: nat, scan: seq<Member>, m: Member)
    requires Ranked(h, rank, bound) && m.ns in h.spaces && AllKnown(h, scan)
    ensures Met(h, rank, bound, scan + [m]) == Met(h, rank, bound, scan) + Line(h, rank, bound, m.ns)
  {
    assert forall x :: x in scan + [m] <==> x in scan || x == m;
  }

  /** Nothing is recorded for a namespace that was not met. */
  lemma {:induction false} NoPids(h: Hierarchy, rank: map<NsId, nat>, bound: nat, scan: seq<Member>, ns: NsId)
    requires Ranked(h, rank, bound) && AllKnown(h, scan)
    requires ns !in Met(h, rank, bound, scan)
    ensures PidsOf(scan, ns) == []
    decreases |scan|
  {
    if scan != [] {
      var init, m := scan[..|scan| - 1], scan[|scan| - 1];
      assert scan == init + [m];
      MetStep(h, rank, bound, init, m);
      NoPids(h, rank, bound, init, ns);
    }
  }

  lemma NewestStep(h: Hierarchy, rank: map<NsId, nat>, bound: nat, scan: seq<Member>, m: Member)
    requires Ranked(h, rank, bound) && m.ns in h.spaces && AllKnown(h, scan) && AllKnown(h, scan + [m])
    ensures NewestRoot(h, rank, bound, scan + [m]) ==
            RootAfter(h, rank, bound, m.ns, Met(h, rank, bound, scan), NewestRoot(h, rank, bound, scan))
  {
    assert (scan + [m])[..|scan|] == scan;
  }

  lemma PidsStep(h: Hierarchy, rank: map<NsId, nat>, bound: nat, scan: seq<Member>, m: Member, list: NamespaceList,
                 ns: NsId)
    requires Ranked(h, rank, bound) && AllKnown(h, scan) && list.Keys == Met(h, rank, bound, scan)
    requires forall x | x in list :: list[x].pids == PidsOf(scan, x)
    ensures WithPid(list, m.ns, m.pid, ns) == PidsOf(scan + [m], ns)
  {
    assert (scan + [m])[..|scan|] == scan;
    if ns !in list {
      NoPids(h, rank, bound, scan, ns);
    }
  }

  lemma BuiltStep(h: Hierarchy, rank: map<NsId, nat>, bound: nat, scan: seq<Member>, m: Member,
                  list: NamespaceList, root: NsId, list': NamespaceList, root': NsId)
    requires Ranked(h, rank, bound) && m.ns in h.spaces && AllKnown(h, scan)
    requires Built(h, rank, bound, scan, list, root)
    requires Linked(h, list', {}) && root' == RootAfter(h, rank, bound, m.ns, list.Keys, root)
    requires list'.Keys == list.Keys + Line(h, rank, bound, m.ns)
    requires forall x | x in list' :: list'[x].pids == WithPid(list, m.ns, m.pid, x)
    ensures AllKnown(h, scan + [m])
    ensures Built(h, rank, bound, scan + [m], list', root')
  {
    MetStep(h, rank, bound, scan, m);
    NewestStep(h, rank, bound, scan, m);
    forall ns | ns in list'
      ensures list'[ns].pids == PidsOf(scan + [m], ns)
    {
      PidsStep(h, rank, bound, scan, m, list, ns);
    }
  }

  lemma OneMoreScanned(scan: seq<Member>, n: nat)
    requires n < |scan|
    ensures scan[..n + 1] == scan[..n] + [scan[n]]
  {
  }

  method ScanProcesses(h: Hierarchy, scan: seq<Member>, ghost rank: map<NsId, nat>, ghost bound: nat)
    returns (nsi: NamespaceInfo)
    requires Ranked(h, rank, bound) && AllKnown(h, scan)
    ensures fresh(nsi) && Built(h, rank, bound, scan, nsi.nsList, nsi.rootNS)
  {
    nsi := new NamespaceInfo();
    for n := 0 to |scan|
      invariant fresh(nsi) && Built(h, rank, bound, scan[..n], nsi.nsList, nsi.rootNS)
    {
      OneMoreScanned(scan, n);
      ghost var before, root := nsi.nsList, nsi.rootNS;
      nsi.AddNamespace(h, scan[n].ns, scan[n].pid, rank, bound, {});
      BuiltStep(h, rank, bound, scan[..n], scan[n], before, root, nsi.nsList, nsi.rootNS);
    }
    assert scan[..|scan|] == scan;
  }

  // ----- the order of the scan -----

  /** Processes are recorded in the order of the scan. */
  lemma {:induction false} PidsAppend(a: seq<Member>, b: seq<Member>, ns: NsId)
    ensures PidsOf(a + b, ns) == PidsOf(a, ns) + PidsOf(b, ns)
    ensures forall m: Member :: PidsOf([m], ns) == if m.ns == ns && m.pid > 0 then [m.pid] else []
    decreases |b|
  {
    forall m: Member
      ensures PidsOf([m], ns) == if m.ns == ns && m.pid > 0 then [m.pid] else []
    {
      assert [m][..0] == [];
    }
    if b == [] {
      assert a + b == a;
    } else {
      var init, m := b[..|b| - 1], b[|b| - 1];
      assert (a + b)[..|a + b| - 1] == a + init;
      PidsAppend(a, init, ns);
    }
  }

  lemma {:induction false} PidsCounted(scan: seq<Member>, ns: NsId, pid: int)
    ensures multiset(PidsOf(scan, ns))[pid] == if pid > 0 then multiset(scan)[Member(ns, pid)] else 0
    decreases |scan|
  {
    if scan != [] {
      var init, m := scan[..|scan| - 1], scan[|scan| - 1];
      assert scan == init + [m];
      PidsCounted(init, ns, pid);
    }
  }

  /** Scanning the same processes in another order gives the same entries with the same children and
      the same processes; with a single root in sight, also the same root. */
  lemma OrderDoesNotMatter(h: Hierarchy, rank: map<NsId, nat>, bound: nat, scan1: seq<Member>, scan2: seq<Member>,
                           list1: NamespaceList, list2: NamespaceList, root1: NsId, root2: NsId)
    requires Ranked(h, rank, bound) && multiset(scan1) == multiset(scan2)
    requires AllKnown(h, scan1) && AllKnown(h, scan2)
    requires Built(h, rank, bound, scan1, list1, root1) && Built(h, rank, bound, scan2, list2, root2)
    ensures list1.Keys == list2.Keys
    ensures forall ns | ns in list1 ::
              && list1[ns].nsType == list2[ns].nsType
              && multiset(list1[ns].children) == multiset(list2[ns].children)
              && multiset(list1[ns].pids) == multiset(list2[ns].pids)
    ensures (exists t :: t in list1 && IsTop(h, t) && forall u | u in list1 && IsTop(h, u) :: u == t) ==> root1 == root2
  {
    NewestNoted(h, rank, bound, scan1);
    NewestNoted(h, rank, bound, scan2);
    assert forall m :: m in scan1 <==> m in multiset(scan1);
    assert forall m :: m in scan2 <==> m in multiset(scan2);
    assert list1.Keys == list2.Keys;
    forall ns | ns in list1
      ensures list1[ns].nsType == list2[ns].nsType
      ensures multiset(list1[ns].children) == multiset(list2[ns].children)
      ensures multiset(list1[ns].pids) == multiset(list2[ns].pids)
    {
      assert EntryOk(h, list1, ns) && EntryOk(h, list2, ns);
      SameChildren(h, list1, list2, ns);
      SamePids(scan1, scan2, ns);
    }
  }

  lemma SameChildren(h: Hierarchy, list1: NamespaceList, list2: NamespaceList, ns: NsId)
    requires Linked(h, list1, {}) && Linked(h, list2, {}) && list1.Keys == list2.Keys && ns in list1
    ensures multiset(list1[ns].children) == multiset(list2[ns].children)
  {
    forall c
      ensures multiset(list1[ns].children)[c] == multiset(list2[ns].children)[c]
    {
      assert ChildOnce(h, list1, {}, ns, c) && ChildOnce(h, list2, {}, ns, c);
    }
  }

  lemma SamePids(scan1: seq<Member>, scan2: seq<Member>, ns: NsId)
    requires multiset(scan1) == multiset(scan2)
    ensures multiset(PidsOf(scan1, ns)) == multiset(PidsOf(scan2, ns))
  {
    forall pid: int
      ensures multiset(PidsOf(scan1, ns))[pid] == multiset(PidsOf(scan2, ns))[pid]
    {
      PidsCounted(scan1, ns, pid);
      PidsCounted(scan2, ns, pid);
    }
  }
}
