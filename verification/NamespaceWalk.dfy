/** The recursive walk that displays the finished hierarchy, and which entries it reaches. */
module NamespaceWalk {
  import opened Wrappers
  import opened Namespaces
  import opened NamespaceScan

  ghost function Depth(rank: map<NsId, nat>, ns: NsId): nat {
    if ns in rank then rank[ns] + 1 else 0
  }

  /** The entries visited from `ns`, in order. */
  ghost function Walk(h: Hierarchy, rank: map<NsId, nat>, bound: nat, list: NamespaceList, ns: NsId): seq<NsId>
    requires Ranked(h, rank, bound) && Linked(h, list, {}) && ns in list
    decreases bound + 1 - Depth(rank, ns), |list[ns].children| + 1
  {
    ChildrenAreHeld(h, list, ns);
    [ns] + WalkAll(h, rank, bound, list, ns, list[ns].children)
  }

  ghost function WalkAll(h: Hierarchy, rank: map<NsId, nat>, bound: nat, list: NamespaceList, ns: NsId,
                         children: seq<NsId>): seq<NsId>
    requires Ranked(h, rank, bound) && Linked(h, list, {}) && ns in list
    requires forall c | c in children :: c in list && Holder(h, c) == Some(ns)
    decreases bound + 1 - Depth(rank, ns), |children|
  {
    if children == [] then []
    else
      HolderIsHigher(h, rank, bound, children[0]);
      Walk(h, rank, bound, list, children[0]) + WalkAll(h, rank, bound, list, ns, children[1..])
  }

  lemma ChildrenAreHeld(h: Hierarchy, list: NamespaceList, ns: NsId)
    requires Linked(h, list, {}) && ns in list
    ensures forall c | c in list[ns].children :: c in list && Holder(h, c) == Some(ns)
  {
    forall c | c in list[ns].children
      ensures c in list && Holder(h, c) == Some(ns)
    {
      assert ChildOnce(h, list, {}, ns, c);
      assert c in multiset(list[ns].children);
    }
  }

  lemma HolderIsHigher(h: Hierarchy, rank: map<NsId, nat>, bound: nat, ns: NsId)
    requires Ranked(h, rank, bound) && Holder(h, ns).Some?
    ensures Depth(rank, Holder(h, ns).value) < Depth(rank, ns) <= bound
  {
  }

  /** Is `x` the entry `d`, or held by it directly or indirectly? */
  ghost predicate Below(h: Hierarchy, rank: map<NsId, nat>, bound: nat, x: NsId, d: NsId)
    requires Ranked(h, rank, bound)
    decreases Depth(rank, x)
  {
    x == d || (Holder(h, x).Some? && (HolderIsHigher(h, rank, bound, x); Below(h, rank, bound, Holder(h, x).value, d)))
  }

  lemma {:induction false} BelowIsDeeper(h: Hierarchy, rank: map<NsId, nat>, bound: nat, x: NsId, d: NsId)
    requires Ranked(h, rank, bound) && Below(h, rank, bound, x, d)
    ensures Depth(rank, d) <= Depth(rank, x)
    decreases Depth(rank, x)
  {
    if x != d {
      HolderIsHigher(h, rank, bound, x);
      BelowIsDeeper(h, rank, bound, Holder(h, x).value, d);
    }
  }

  /** The child of `d` through which `x` hangs from it. */
  ghost function Branch(h: Hierarchy, rank: map<NsId, nat>, bound: nat, x: NsId, d: NsId): (c: NsId)
    requires Ranked(h, rank, bound) && Below(h, rank, bound, x, d) && x != d
    ensures Holder(h, c) == Some(d) && Below(h, rank, bound, x, c)
    decreases Depth(rank, x)
  {
    HolderIsHigher(h, rank, bound, x);
    if Holder(h, x) == Some(d) then x else Branch(h, rank, bound, Holder(h, x).value, d)
  }

  lemma {:induction false} BranchIsUnique(h: Hierarchy, rank: map<NsId, nat>, bound: nat, x: NsId, d: NsId, c: NsId)
    requires Ranked(h, rank, bound) && Holder(h, c) == Some(d) && Below(h, rank, bound, x, c)
    ensures Below(h, rank, bound, x, d) && x != d && c == Branch(h, rank, bound, x, d)
    decreases Depth(rank, x)
  {
    HolderIsHigher(h, rank, bound, c);
    BelowIsDeeper(h, rank, bound, x, c);
    if x != c {
      HolderIsHigher(h, rank, bound, x);
      BranchIsUnique(h, rank, bound, Holder(h, x).value, d, c);
    }
  }

  lemma {:induction false} BranchInList(h: Hierarchy, rank: map<NsId, nat>, bound: nat, list: NamespaceList, x: NsId,
                                        d: NsId)
    requires Ranked(h, rank, bound) && Linked(h, list, {}) && x in list
    requires Below(h, rank, bound, x, d)
    ensures d in list && (x != d ==> Branch(h, rank, bound, x, d) in list)
    decreases Depth(rank, x)
  {
    if x != d {
      assert HolderIn(h, list, {}, x);
      HolderIsHigher(h, rank, bound, x);
      BranchInList(h, rank, bound, list, Holder(h, x).value, d);
    }
  }

  /** How many of `children` have `x` below them. */
  ghost function Reaching(h: Hierarchy, rank: map<NsId, nat>, bound: nat, children: seq<NsId>, x: NsId): nat
    requires Ranked(h, rank, bound)
  {
    if children == [] then 0
    else (if Below(h, rank, bound, x, children[0]) then 1 else 0) + Reaching(h, rank, bound, children[1..], x)
  }

  lemma {:induction false} OnlyBranchReaches(h: Hierarchy, rank: map<NsId, nat>, bound: nat, children: seq<NsId>,
                                             x: NsId, d: NsId)
    requires Ranked(h, rank, bound) && forall c | c in children :: Holder(h, c) == Some(d)
    ensures Reaching(h, rank, bound, children, x) ==
            if Below(h, rank, bound, x, d) && x != d then multiset(children)[Branch(h, rank, bound, x, d)] else 0
    decreases |children|
  {
    if children != [] {
      assert children == [children[0]] + children[1..];
      OnlyBranchReaches(h, rank, bound, children[1..], x, d);
      if Below(h, rank, bound, x, children[0]) {
        BranchIsUnique(h, rank, bound, x, d, children[0]);
      }
    }
  }

  /** From `ns` the walk visits exactly the entries below `ns`, each once. */
  lemma {:induction false} WalkVisitsBelow(h: Hierarchy, rank: map<NsId, nat>, bound: nat, list: NamespaceList,
                                           ns: NsId, x: NsId)
    requires Ranked(h, rank, bound) && Linked(h, list, {}) && ns in list
    ensures multiset(Walk(h, rank, bound, list, ns))[x] == if x in list && Below(h, rank, bound, x, ns) then 1 else 0
    decreases bound + 1 - Depth(rank, ns), |list[ns].children| + 1
  {
    var children := list[ns].children;
    ChildrenAreHeld(h, list, ns);
    WalkAllVisitsBelow(h, rank, bound, list, ns, children, x);
    OnlyBranchReaches(h, rank, bound, children, x, ns);
    if x in list && Below(h, rank, bound, x, ns) && x != ns {
      BranchInList(h, rank, bound, list, x, ns);
      assert ChildOnce(h, list, {}, ns, Branch(h, rank, bound, x, ns));
    }
  }

  lemma {:induction false} WalkAllVisitsBelow(h: Hierarchy, rank: map<NsId, nat>, bound: nat, list: NamespaceList,
                                              ns: NsId,
                                              children: seq<NsId>, x: NsId)
    requires Ranked(h, rank, bound) && Linked(h, list, {}) && ns in list
    requires forall c | c in children :: c in list && Holder(h, c) == Some(ns)
    ensures multiset(WalkAll(h, rank, bound, list, ns, children))[x] ==
            if x in list then Reaching(h, rank, bound, children, x) else 0
    decreases bound + 1 - Depth(rank, ns), |children|
  {
    if children != [] {
      HolderIsHigher(h, rank, bound, children[0]);
      WalkVisitsBelow(h, rank, bound, list, children[0], x);
      WalkAllVisitsBelow(h, rank, bound, list, ns, children[1..], x);
    }
  }

  /** The order of the walk: an entry comes first in its own walk, and that walk is an unbroken part of every walk that
      reaches the entry. So an entry comes before everything below it, and what is below it comes in one piece. */
  lemma {:induction false} WalkIsNested(h: Hierarchy, rank: map<NsId, nat>, bound: nat, list: NamespaceList, ns: NsId,
                                        x: NsId) returns (pre: seq<NsId>, post: seq<NsId>)
    requires Ranked(h, rank, bound) && Linked(h, list, {}) && ns in list && x in list && Below(h, rank, bound, x, ns)
    ensures Walk(h, rank, bound, list, x) != [] && Walk(h, rank, bound, list, x)[0] == x
    ensures Walk(h, rank, bound, list, ns) == pre + Walk(h, rank, bound, list, x) + post
    ensures x != ns ==> pre != [] && pre[0] == ns
    decreases bound + 1 - Depth(rank, ns), |list[ns].children| + 1
  {
    var mine := Walk(h, rank, bound, list, x);
    if x == ns {
      pre, post := [], [];
      assert [] + mine + [] == mine;
    } else {
      var c := Branch(h, rank, bound, x, ns);
      ChildrenAreHeld(h, list, ns);
      BranchInList(h, rank, bound, list, x, ns);
      assert ChildOnce(h, list, {}, ns, c);
      HolderIsHigher(h, rank, bound, c);
      assert c in multiset(list[ns].children);
      var before, after := ChildPart(h, rank, bound, list, ns, list[ns].children, c);
      var first, last := WalkIsNested(h, rank, bound, list, c, x);
      pre, post := [ns] + before + first, last + after;
      Regroup(ns, before, first, mine, last, after);
    }
  }

  lemma Regroup(ns: NsId, before: seq<NsId>, first: seq<NsId>, mine: seq<NsId>, last: seq<NsId>, after: seq<NsId>)
    ensures [ns] + (before + (first + mine + last) + after) == [ns] + before + first + mine + (last + after)
  {
  }

  /** The walk of one child within the walk of all. */
  lemma {:induction false} ChildPart(h: Hierarchy, rank: map<NsId, nat>, bound: nat, list: NamespaceList, ns: NsId,
                                     children: seq<NsId>, c: NsId) returns (before: seq<NsId>, after: seq<NsId>)
    requires Ranked(h, rank, bound) && Linked(h, list, {}) && ns in list && c in children
    requires forall d | d in children :: d in list && Holder(h, d) == Some(ns)
    ensures WalkAll(h, rank, bound, list, ns, children) == before + Walk(h, rank, bound, list, c) + after
    decreases |children|
  {
    var rest := WalkAll(h, rank, bound, list, ns, children[1..]);
    HolderIsHigher(h, rank, bound, children[0]);
    if children[0] == c {
      before, after := [], rest;
      assert [] + Walk(h, rank, bound, list, c) + after == Walk(h, rank, bound, list, c) + rest;
    } else {
      before, after := ChildPart(h, rank, bound, list, ns, children[1..], c);
      var head := Walk(h, rank, bound, list, children[0]);
      var mine := Walk(h, rank, bound, list, c);
      assert head + (before + mine + after) == head + before + mine + after;
      before := head + before;
    }
  }

  /** Children are walked in the order of their list. */
  lemma {:induction false} SiblingsInOrder(h: Hierarchy, rank: map<NsId, nat>, bound: nat, list: NamespaceList,
                                           ns: NsId,
                                           a: seq<NsId>, b: seq<NsId>, all: seq<NsId>)
    requires Ranked(h, rank, bound) && Linked(h, list, {}) && ns in list && all == a + b
    requires forall d | d in a :: d in list && Holder(h, d) == Some(ns)
    requires forall d | d in b :: d in list && Holder(h, d) == Some(ns)
    ensures WalkAll(h, rank, bound, list, ns, all) ==
            WalkAll(h, rank, bound, list, ns, a) + WalkAll(h, rank, bound, list, ns, b)
    decreases |a|
  {
    if a == [] {
      assert all == b;
    } else {
      assert all[0] == a[0] && all[1..] == a[1..] + b;
      HolderIsHigher(h, rank, bound, a[0]);
      SiblingsInOrder(h, rank, bound, list, ns, a[1..], b, all[1..]);
    }
  }

  // ----- the whole display -----

  /** What the display goes through: the tree of the root, and then that of the invisible entry if there is one. */
  ghost function Display(h: Hierarchy, rank: map<NsId, nat>, bound: nat, list: NamespaceList, rootNS: NsId): seq<NsId>
    requires Ranked(h, rank, bound) && Linked(h, list, {}) && rootNS in list
  {
    Walk(h, rank, bound, list, rootNS) + if INVISIBLE in list then Walk(h, rank, bound, list, INVISIBLE) else []
  }

  /** How often the display visits `x`. */
  ghost function Visits(h: Hierarchy, rank: map<NsId, nat>, bound: nat, list: NamespaceList, rootNS: NsId, x: NsId): nat
    requires Ranked(h, rank, bound) && Linked(h, list, {}) && rootNS in list
  {
    multiset(Display(h, rank, bound, list, rootNS))[x]
  }

  lemma VisitsAre(h: Hierarchy, rank: map<NsId, nat>, bound: nat, list: NamespaceList, rootNS: NsId, x: NsId)
    requires Ranked(h, rank, bound) && Linked(h, list, {}) && rootNS in list && x in list
    ensures Visits(h, rank, bound, list, rootNS, x) ==
            (if Below(h, rank, bound, x, rootNS) then 1 else 0) + (if Below(h, rank, bound, x, INVISIBLE) then 1 else 0)
  {
    WalkVisitsBelow(h, rank, bound, list, rootNS, x);
    if INVISIBLE in list {
      WalkVisitsBelow(h, rank, bound, list, INVISIBLE, x);
    }
    if Below(h, rank, bound, x, INVISIBLE) {
      BranchInList(h, rank, bound, list, x, INVISIBLE);
    }
  }

  /** Where the line above `x` ends: a root or the invisible entry. */
  lemma {:induction false} EndOfLine(h: Hierarchy, rank: map<NsId, nat>, bound: nat, list: NamespaceList, x: NsId)
    returns (e: NsId)
    requires Ranked(h, rank, bound) && Linked(h, list, {}) && x in list
    ensures e in list && (e == INVISIBLE || IsTop(h, e)) && Below(h, rank, bound, x, e)
    ensures forall d | Below(h, rank, bound, x, d) && Holder(h, d).None? :: d == e
    decreases Depth(rank, x)
  {
    if Holder(h, x).None? {
      assert EntryOk(h, list, x);
      e := x;
    } else {
      assert HolderIn(h, list, {}, x);
      HolderIsHigher(h, rank, bound, x);
      e := EndOfLine(h, rank, bound, list, Holder(h, x).value);
    }
  }

  /** The display visits every entry exactly once if, and only if, `rootNS` is a root and no
      other root has an entry. */
  lemma DisplayIsComplete(h: Hierarchy, rank: map<NsId, nat>, bound: nat, list: NamespaceList, rootNS: NsId)
    requires Ranked(h, rank, bound) && Linked(h, list, {}) && rootNS in list
    ensures (forall x | x in list :: Visits(h, rank, bound, list, rootNS, x) == 1) <==>
            IsTop(h, rootNS) && forall t | t in list && IsTop(h, t) :: t == rootNS
  {
    if IsTop(h, rootNS) && forall t | t in list && IsTop(h, t) :: t == rootNS {
      forall x | x in list
        ensures Visits(h, rank, bound, list, rootNS, x) == 1
      {
        var e := EndOfLine(h, rank, bound, list, x);
        VisitsAre(h, rank, bound, list, rootNS, x);
      }
    }
    if forall x | x in list :: Visits(h, rank, bound, list, rootNS, x) == 1 {
      var e := EndOfLine(h, rank, bound, list, rootNS);
      VisitsAre(h, rank, bound, list, rootNS, rootNS);
      VisitsAre(h, rank, bound, list, rootNS, e);
      assert IsTop(h, rootNS);
      forall t | t in list && IsTop(h, t)
        ensures t == rootNS
      {
        VisitsAre(h, rank, bound, list, rootNS, t);
      }
    }
  }

  /** The roots that have an entry. */
  ghost function Roots(h: Hierarchy, list: NamespaceList): set<NsId> {
    set t | t in list && IsTop(h, t)
  }

  /** How often the display shows an entry. With no root, twice: the walk starts at the invisible entry, and is
      repeated there. Otherwise once if it is in the tree of `rootNS` or held by the invisible entry. */
  ghost function Shown(h: Hierarchy, rank: map<NsId, nat>, bound: nat, list: NamespaceList, rootNS: NsId, x: NsId): nat
    requires Ranked(h, rank, bound)
  {
    if Roots(h, list) == {} then 2
    else if Below(h, rank, bound, x, rootNS) || Below(h, rank, bound, x, INVISIBLE) then 1
    else 0
  }

  lemma EntryShown(h: Hierarchy, rank: map<NsId, nat>, bound: nat, list: NamespaceList, rootNS: NsId, x: NsId)
    requires Ranked(h, rank, bound) && Linked(h, list, {}) && RootNoted(h, list.Keys, rootNS)
    requires rootNS in list && x in list
    ensures Visits(h, rank, bound, list, rootNS, x) == Shown(h, rank, bound, list, rootNS, x)
  {
    var e := EndOfLine(h, rank, bound, list, x);
    assert IsTop(h, e) ==> e in Roots(h, list);
    assert rootNS != INVISIBLE ==> rootNS in Roots(h, list);
    VisitsAre(h, rank, bound, list, rootNS, x);
  }

  /** The display shows nothing of the tree of another root. */
  lemma OtherRootHidden(h: Hierarchy, rank: map<NsId, nat>, bound: nat, list: NamespaceList, rootNS: NsId, t: NsId,
                        x: NsId)
    requires Ranked(h, rank, bound) && Linked(h, list, {}) && RootNoted(h, list.Keys, rootNS) && x in list
    requires t in Roots(h, list) && t != rootNS && Below(h, rank, bound, x, t)
    ensures Shown(h, rank, bound, list, rootNS, x) == 0
  {
    var e := EndOfLine(h, rank, bound, list, x);
    assert Holder(h, t).None? && Holder(h, rootNS).None? && Holder(h, INVISIBLE).None?;
  }

  /** After any scan that met a namespace, the display starts at the newest root and shows every entry as often
      as `Shown` says; so each is shown exactly once if, and only if, exactly one root was met. */
  lemma ScanThenDisplay(h: Hierarchy, rank: map<NsId, nat>, bound: nat, scan: seq<Member>,
                        list: NamespaceList, rootNS: NsId)
    requires Ranked(h, rank, bound) && AllKnown(h, scan)
    requires Built(h, rank, bound, scan, list, rootNS) && list != map[]
    ensures rootNS in list && rootNS == NewestRoot(h, rank, bound, scan)
    ensures Roots(h, list) != {} ==> rootNS in Roots(h, list)
    ensures Display(h, rank, bound, list, rootNS) != [] && Display(h, rank, bound, list, rootNS)[0] == rootNS
    ensures forall x | x in list ::
              Visits(h, rank, bound, list, rootNS, x) == Shown(h, rank, bound, list, rootNS, x)
    ensures (forall x | x in list :: Visits(h, rank, bound, list, rootNS, x) == 1) <==>
            exists t :: Roots(h, list) == {t}
  {
    NewestNoted(h, rank, bound, scan);
    StartsInList(h, rank, bound, list, rootNS);
    assert rootNS != INVISIBLE ==> rootNS in Roots(h, list);
    forall x | x in list
      ensures Visits(h, rank, bound, list, rootNS, x) == Shown(h, rank, bound, list, rootNS, x)
    {
      EntryShown(h, rank, bound, list, rootNS, x);
    }
    OneRoot(h, rank, bound, list, rootNS);
  }

  lemma OneRoot(h: Hierarchy, rank: map<NsId, nat>, bound: nat, list: NamespaceList, rootNS: NsId)
    requires Ranked(h, rank, bound) && Linked(h, list, {}) && RootNoted(h, list.Keys, rootNS) && rootNS in list
    ensures (forall x | x in list :: Visits(h, rank, bound, list, rootNS, x) == 1) <==>
            exists t :: Roots(h, list) == {t}
  {
    DisplayIsComplete(h, rank, bound, list, rootNS);
    if IsTop(h, rootNS) && forall t | t in list && IsTop(h, t) :: t == rootNS {
      assert Roots(h, list) == {rootNS};
    }
    if t :| Roots(h, list) == {t} {
      assert t in Roots(h, list);
      assert forall u | u in list && IsTop(h, u) :: u in Roots(h, list);
    }
  }

  lemma StartsInList(h: Hierarchy, rank: map<NsId, nat>, bound: nat, list: NamespaceList, rootNS: NsId)
    requires Ranked(h, rank, bound) && Linked(h, list, {}) && RootNoted(h, list.Keys, rootNS) && list != map[]
    ensures rootNS in list
  {
    var x :| x in list;
    var e := EndOfLine(h, rank, bound, list, x);
  }

  // ----- two displays that are not complete -----

  const FIRST := NsId(4, 1)
  const SECOND := NsId(4, 2)
  const CLONE_NEWPID := 0x2000_0000
  const CLONE_NEWNET := 0x4000_0000

  /** Two PID namespaces whose parents are not visible. */
  const TWO_ROOTS := Hierarchy(map[FIRST := Namespace(CLONE_NEWPID, 0, None, None),
                                   SECOND := Namespace(CLONE_NEWPID, 0, None, None)], true)

  /** A network namespace whose owner is not visible. */
  const NO_ROOT := Hierarchy(map[FIRST := Namespace(CLONE_NEWNET, 0, None, None)], false)

  /** A scan of one process, and of one more. */
  lemma MetOne(h: Hierarchy, rank: map<NsId, nat>, bound: nat, m: Member)
    requires Ranked(h, rank, bound) && m.ns in h.spaces && Up(h, m.ns).None?
    ensures AllKnown(h, [m]) && Met(h, rank, bound, [m]) == Line(h, rank, bound, m.ns)
    ensures NewestRoot(h, rank, bound, [m]) == if IsTop(h, m.ns) then m.ns else INVISIBLE
  {
    assert [] + [m] == [m] && Met(h, rank, bound, []) == {};
    MetStep(h, rank, bound, [], m);
    NewestStep(h, rank, bound, [], m);
  }

  /** Of two roots the display shows only the one met last. */
  lemma TwoRootsShown(rank: map<NsId, nat>, scan: seq<Member>, list: NamespaceList, rootNS: NsId)
    requires Ranked(TWO_ROOTS, rank, 1) && scan == [Member(FIRST, 1), Member(SECOND, 2)] && AllKnown(TWO_ROOTS, scan)
    requires Built(TWO_ROOTS, rank, 1, scan, list, rootNS)
    ensures list.Keys == {FIRST, SECOND} && rootNS == SECOND
    ensures Visits(TWO_ROOTS, rank, 1, list, rootNS, FIRST) == 0
    ensures Visits(TWO_ROOTS, rank, 1, list, rootNS, SECOND) == 1
  {
    TwoRootsMet(rank, scan);
    ScanThenDisplay(TWO_ROOTS, rank, 1, scan, list, rootNS);
    assert SECOND in Roots(TWO_ROOTS, list);
  }

  lemma TwoRootsMet(rank: map<NsId, nat>, scan: seq<Member>)
    requires Ranked(TWO_ROOTS, rank, 1) && scan == [Member(FIRST, 1), Member(SECOND, 2)] && AllKnown(TWO_ROOTS, scan)
    ensures Met(TWO_ROOTS, rank, 1, scan) == {FIRST, SECOND} && NewestRoot(TWO_ROOTS, rank, 1, scan) == SECOND
  {
    var first, second := Member(FIRST, 1), Member(SECOND, 2);
    assert [first] + [second] == scan;
    MetOne(TWO_ROOTS, rank, 1, first);
    MetStep(TWO_ROOTS, rank, 1, [first], second);
    NewestStep(TWO_ROOTS, rank, 1, [first], second);
  }

  /** With no root the display shows everything twice. */
  lemma NoRootShown(rank: map<NsId, nat>, scan: seq<Member>, list: NamespaceList, rootNS: NsId)
    requires Ranked(NO_ROOT, rank, 1) && scan == [Member(FIRST, 1)] && AllKnown(NO_ROOT, scan)
    requires Built(NO_ROOT, rank, 1, scan, list, rootNS)
    ensures list.Keys == {FIRST, INVISIBLE} && rootNS == INVISIBLE
    ensures Visits(NO_ROOT, rank, 1, list, rootNS, FIRST) == 2
    ensures Visits(NO_ROOT, rank, 1, list, rootNS, INVISIBLE) == 2
  {
    MetOne(NO_ROOT, rank, 1, Member(FIRST, 1));
    ScanThenDisplay(NO_ROOT, rank, 1, scan, list, rootNS);
    assert Roots(NO_ROOT, list) == {};
  }

  /** The program does run into both. */
  method TwoRootsExample() returns (nsi: NamespaceInfo, ghost rank: map<NsId, nat>)
    ensures Ranked(TWO_ROOTS, rank, 1) && Linked(TWO_ROOTS, nsi.nsList, {}) && nsi.rootNS in nsi.nsList
    ensures FIRST in nsi.nsList && Visits(TWO_ROOTS, rank, 1, nsi.nsList, nsi.rootNS, FIRST) == 0
  {
    rank := map[FIRST := 0, SECOND := 0];
    var scan := [Member(FIRST, 1), Member(SECOND, 2)];
    nsi := ScanProcesses(TWO_ROOTS, scan, rank, 1);
    TwoRootsShown(rank, scan, nsi.nsList, nsi.rootNS);
  }

  method NoRootExample() returns (nsi: NamespaceInfo, ghost rank: map<NsId, nat>)
    ensures Ranked(NO_ROOT, rank, 1) && Linked(NO_ROOT, nsi.nsList, {}) && nsi.rootNS in nsi.nsList
    ensures FIRST in nsi.nsList && Visits(NO_ROOT, rank, 1, nsi.nsList, nsi.rootNS, FIRST) == 2
  {
    rank := map[FIRST := 0];
    var scan := [Member(FIRST, 1)];
    nsi := ScanProcesses(NO_ROOT, scan, rank, 1);
    NoRootShown(rank, scan, nsi.nsList, nsi.rootNS);
  }
}
