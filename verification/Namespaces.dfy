/** The namespace hierarchy that namespaces_of builds while it scans processes: every namespace is
    entered before its parent is known, the parent is entered recursively, and only then is the
    namespace linked as a child. */
module Namespaces {
  import opened Wrappers

  /** A namespace is identified by the device and i-node of its file. */
  datatype NsId = NsId(device: nat, inode: nat)

  /** The entry that adopts nonuser namespaces whose owner is not visible. */
  const INVISIBLE := NsId(0, 0)

  const CLONE_NEWUSER := 0x1000_0000

  /** What the kernel tells about a namespace; None stands for EPERM. */
  datatype Namespace = Namespace(nsType: int, creatorUid: int, owner: Option<NsId>, parent: Option<NsId>)

  /** The kernel's namespaces, and which of the two hierarchies is being shown. */
  datatype Hierarchy = Hierarchy(spaces: map<NsId, Namespace>, pidns: bool)

  /** The answer of the ioctl that looks up the parent or owning namespace. */
  function Up(h: Hierarchy, ns: NsId): Option<NsId>
    requires ns in h.spaces
  {
    if h.pidns then h.spaces[ns].parent else h.spaces[ns].owner
  }

  /** The entry in whose list of children `ns` belongs; None for a root. */
  function Holder(h: Hierarchy, ns: NsId): Option<NsId> {
    if ns !in h.spaces then None
    else if Up(h, ns).Some? then Up(h, ns)
    else if h.spaces[ns].nsType == CLONE_NEWUSER || h.pidns then None
    else Some(INVISIBLE)
  }

  /** `rank` witnesses that the hierarchy is finite and acyclic. */
  ghost predicate Ranked(h: Hierarchy, rank: map<NsId, nat>, bound: nat) {
    && rank.Keys == h.spaces.Keys && INVISIBLE !in h.spaces
    && (forall ns | ns in h.spaces :: rank[ns] < bound)
    && (forall ns | ns in h.spaces && Up(h, ns).Some? ::
          Up(h, ns).value in h.spaces && rank[Up(h, ns).value] < rank[ns])
  }

  /** `ns` and all its holders, up to a root or the invisible entry. */
  ghost function Line(h: Hierarchy, rank: map<NsId, nat>, bound: nat, ns: NsId): set<NsId>
    requires Ranked(h, rank, bound) && ns in h.spaces
    decreases rank[ns]
  {
    match Up(h, ns)
    case Some(p) => {ns} + Line(h, rank, bound, p)
    case None => {ns} + if Holder(h, ns).Some? then {INVISIBLE} else {}
  }

  datatype Attribs = Attribs(nsType: int, creatorUid: int, pids: seq<int>, children: seq<NsId>)

  type NamespaceList = map<NsId, Attribs>

  // ----- what the list must look like -----

  /** The attributes are the kernel's. */
  ghost predicate EntryOk(h: Hierarchy, list: NamespaceList, ns: NsId)
    requires ns in list
  {
    if ns == INVISIBLE then list[ns].nsType == CLONE_NEWUSER
    else
      && ns in h.spaces && list[ns].nsType == h.spaces[ns].nsType
      && (list[ns].nsType == CLONE_NEWUSER ==> list[ns].creatorUid == h.spaces[ns].creatorUid)
  }

  /** An entry that is not waiting to be linked has its holder in the list, itself linked. */
  ghost predicate HolderIn(h: Hierarchy, list: NamespaceList, waiting: set<NsId>, ns: NsId) {
    Holder(h, ns).Some? ==> Holder(h, ns).value in list && Holder(h, ns).value !in waiting
  }

  /** `c` occurs among the children of `p` once if it is linked there, and otherwise not at all. */
  ghost predicate ChildOnce(h: Hierarchy, list: NamespaceList, waiting: set<NsId>, p: NsId, c: NsId)
    requires p in list
  {
    multiset(list[p].children)[c] ==
    if c in list && c !in waiting && Holder(h, c) == Some(p) then 1 else 0
  }

  /** The list is right except that the entries of `waiting` are not linked yet. */
  ghost predicate Linked(h: Hierarchy, list: NamespaceList, waiting: set<NsId>) {
    && waiting <= list.Keys && INVISIBLE !in waiting
    && (forall ns {:trigger EntryOk(h, list, ns)} | ns in list :: EntryOk(h, list, ns))
    && (forall ns {:trigger HolderIn(h, list, waiting, ns)} | ns in list && ns !in waiting ::
          HolderIn(h, list, waiting, ns))
    && (forall p, c {:trigger ChildOnce(h, list, waiting, p, c)} | p in list :: ChildOnce(h, list, waiting, p, c))
  }

  /** Is `ns` a root of the hierarchy? */
  predicate IsTop(h: Hierarchy, ns: NsId) {
    ns in h.spaces && Holder(h, ns).None?
  }

  /** Where the line above `ns` ends. */
  ghost function TopOf(h: Hierarchy, rank: map<NsId, nat>, bound: nat, ns: NsId): (t: NsId)
    requires Ranked(h, rank, bound) && ns in h.spaces
    ensures t in h.spaces && rank[t] <= rank[ns]
    decreases rank[ns]
  {
    match Up(h, ns)
    case Some(p) => TopOf(h, rank, bound, p)
    case None => ns
  }

  /** The only root that can be in a line is its end. */
  lemma {:induction false} TopInLine(h: Hierarchy, rank: map<NsId, nat>, bound: nat, ns: NsId)
    requires Ranked(h, rank, bound) && ns in h.spaces
    ensures TopOf(h, rank, bound, ns) in Line(h, rank, bound, ns)
    ensures forall t | t in Line(h, rank, bound, ns) && IsTop(h, t) :: t == TopOf(h, rank, bound, ns)
    decreases rank[ns]
  {
    if Up(h, ns).Some? {
      TopInLine(h, rank, bound, Up(h, ns).value);
    }
  }

  /** `rootNS` after `ns` has been added to the entries `entered`: every root that is entered replaces the
      one before it. */
  ghost function RootAfter(h: Hierarchy, rank: map<NsId, nat>, bound: nat, ns: NsId,
                           entered: set<NsId>, rootNS: NsId): NsId
    requires Ranked(h, rank, bound) && ns in h.spaces
  {
    var t := TopOf(h, rank, bound, ns);
    if IsTop(h, t) && t !in entered then t else rootNS
  }

  /** `rootNS` is a root that has been entered; until there is one, it has its initial value, which
      happens to be the identity of the invisible entry. */
  ghost predicate RootNoted(h: Hierarchy, entered: set<NsId>, rootNS: NsId) {
    if rootNS == INVISIBLE then forall ns | ns in entered :: !IsTop(h, ns)
    else rootNS in entered && IsTop(h, rootNS)
  }

  lemma RootAfterNoted(h: Hierarchy, rank: map<NsId, nat>, bound: nat, ns: NsId, entered: set<NsId>, rootNS: NsId)
    requires Ranked(h, rank, bound) && ns in h.spaces && RootNoted(h, entered, rootNS)
    ensures RootNoted(h, entered + Line(h, rank, bound, ns), RootAfter(h, rank, bound, ns, entered, rootNS))
  {
    TopInLine(h, rank, bound, ns);
  }

  /** The processes recorded for `ns`. */
  function PidsIn(list: NamespaceList, ns: NsId): seq<int> {
    if ns in list then list[ns].pids else []
  }

  function WithPid(list: NamespaceList, ns: NsId, pid: int, x: NsId): seq<int> {
    if x == ns && pid > 0 then PidsIn(list, x) + [pid] else PidsIn(list, x)
  }

  ghost predicate PidsKept(before: NamespaceList, after: NamespaceList) {
    forall x | x in after :: after[x].pids == PidsIn(before, x)
  }

  // ----- one step at a time -----

  /** Entering a namespace that is in no list yet leaves it waiting. */
  lemma Enter(h: Hierarchy, list: NamespaceList, waiting: set<NsId>, ns: NsId, a: Attribs)
    requires Linked(h, list, waiting) && ns !in list && ns != INVISIBLE && ns in h.spaces
    requires a.children == [] && a.nsType == h.spaces[ns].nsType
    requires a.nsType == CLONE_NEWUSER ==> a.creatorUid == h.spaces[ns].creatorUid
    ensures Linked(h, list[ns := a], waiting + {ns})
  {
    var list', waiting' := list[ns := a], waiting + {ns};
    forall x | x in list'
      ensures EntryOk(h, list', x)
    {
      assert x in list ==> EntryOk(h, list, x);
    }
    forall x | x in list' && x !in waiting'
      ensures HolderIn(h, list', waiting', x)
    {
      assert HolderIn(h, list, waiting, x);
    }
    forall p, c | p in list'
      ensures ChildOnce(h, list', waiting', p, c)
    {
      if p == ns {
        assert c in list && c !in waiting ==> HolderIn(h, list, waiting, c);
      } else {
        assert ChildOnce(h, list, waiting, p, c);
      }
    }
  }

  /** Linking a waiting entry under its holder. */
  lemma Link(h: Hierarchy, list: NamespaceList, waiting: set<NsId>, ns: NsId, p: NsId)
    requires Linked(h, list, waiting) && ns in waiting && Holder(h, ns) == Some(p) && p in list && p !in waiting
    ensures Linked(h, list[p := list[p].(children := list[p].children + [ns])], waiting - {ns})
  {
    var list', waiting' := list[p := list[p].(children := list[p].children + [ns])], waiting - {ns};
    forall x | x in list'
      ensures EntryOk(h, list', x)
    {
      assert EntryOk(h, list, x);
    }
    forall x | x in list' && x !in waiting'
      ensures HolderIn(h, list', waiting', x)
    {
      assert x != ns ==> HolderIn(h, list, waiting, x);
    }
    forall q, c | q in list'
      ensures ChildOnce(h, list', waiting', q, c)
    {
      assert ChildOnce(h, list, waiting, q, c);
      if q == p {
        assert multiset(list'[p].children) == multiset(list[p].children) + multiset{ns};
      }
    }
  }

  /** A waiting root needs no link. */
  lemma Settle(h: Hierarchy, list: NamespaceList, waiting: set<NsId>, ns: NsId)
    requires Linked(h, list, waiting) && ns in waiting && Holder(h, ns).None?
    ensures Linked(h, list, waiting - {ns})
  {
    forall x | x in list && x !in waiting - {ns}
      ensures HolderIn(h, list, waiting - {ns}, x)
    {
      assert x != ns ==> HolderIn(h, list, waiting, x);
    }
    forall p, c | p in list
      ensures ChildOnce(h, list, waiting - {ns}, p, c)
    {
      assert ChildOnce(h, list, waiting, p, c);
    }
  }

  /** Creating the invisible entry. */
  lemma EnterInvisible(h: Hierarchy, list: NamespaceList, waiting: set<NsId>)
    requires Linked(h, list, waiting) && INVISIBLE !in list && INVISIBLE !in h.spaces
    ensures Linked(h, list[INVISIBLE := Attribs(CLONE_NEWUSER, 0, [], [])], waiting)
  {
    var list' := list[INVISIBLE := Attribs(CLONE_NEWUSER, 0, [], [])];
    forall x | x in list'
      ensures EntryOk(h, list', x)
    {
      assert x in list ==> EntryOk(h, list, x);
    }
    forall x | x in list' && x !in waiting
      ensures HolderIn(h, list', waiting, x)
    {
      assert x in list ==> HolderIn(h, list, waiting, x);
    }
    forall p, c | p in list'
      ensures ChildOnce(h, list', waiting, p, c)
    {
      if p == INVISIBLE {
        assert c in list && c !in waiting ==> HolderIn(h, list, waiting, c);
      } else {
        assert ChildOnce(h, list, waiting, p, c);
      }
    }
  }

  /** Adding a process to an entry. */
  lemma Enlist(h: Hierarchy, list: NamespaceList, waiting: set<NsId>, ns: NsId, pids: seq<int>)
    requires Linked(h, list, waiting) && ns in list
    ensures Linked(h, list[ns := list[ns].(pids := pids)], waiting)
  {
    var list' := list[ns := list[ns].(pids := pids)];
    forall x | x in list'
      ensures EntryOk(h, list', x)
    {
      assert EntryOk(h, list, x);
    }
    forall x | x in list' && x !in waiting
      ensures HolderIn(h, list', waiting, x)
    {
      assert HolderIn(h, list, waiting, x);
    }
    forall p, c | p in list'
      ensures ChildOnce(h, list', waiting, p, c)
    {
      assert ChildOnce(h, list, waiting, p, c);
    }
  }

  /** An entry that is linked has its whole line in the list. */
  lemma {:induction false} LineIn(h: Hierarchy, rank: map<NsId, nat>, bound: nat, list: NamespaceList,
                                  waiting: set<NsId>, ns: NsId)
    requires Ranked(h, rank, bound) && Linked(h, list, waiting) && ns in list && ns !in waiting && ns in h.spaces
    ensures Line(h, rank, bound, ns) <= list.Keys
    decreases rank[ns]
  {
    assert HolderIn(h, list, waiting, ns);
    if Up(h, ns).Some? {
      LineIn(h, rank, bound, list, waiting, Up(h, ns).value);
    }
  }

  /** The entries after `ns` and everything above it have been added. */
  lemma LineAdded(h: Hierarchy, rank: map<NsId, nat>, bound: nat, ns: NsId, keys: set<NsId>)
    requires Ranked(h, rank, bound) && ns in h.spaces
    ensures keys + Line(h, rank, bound, ns) ==
            keys + {ns} + match Up(h, ns)
                          case Some(p) => Line(h, rank, bound, p)
                          case None => if IsTop(h, ns) then {} else {INVISIBLE}
  {
  }

  class NamespaceInfo {
    var nsList: NamespaceList
    var rootNS: NsId

    constructor ()
      ensures nsList == map[] && rootNS == NsId(0, 0)
    {
      nsList := map[];
      rootNS := INVISIBLE;
    }

    /** Makes sure `ns` and all its holders have entries, and adds `pid` to it if it is positive.
        `waiting` are entries below `ns` that the callers have created and not linked yet. */
    method AddNamespace(h: Hierarchy, ns: NsId, pid: int, ghost rank: map<NsId, nat>, ghost bound: nat,
                        ghost waiting: set<NsId>)
      requires Ranked(h, rank, bound) && ns in h.spaces && Linked(h, nsList, waiting)
      requires waiting <= h.spaces.Keys && forall w | w in waiting :: rank[ns] < rank[w]
      modifies this
      ensures Linked(h, nsList, waiting)
      ensures rootNS == RootAfter(h, rank, bound, ns, old(nsList).Keys, old(rootNS))
      ensures nsList.Keys == old(nsList).Keys + Line(h, rank, bound, ns)
      ensures forall x | x in nsList :: nsList[x].pids == WithPid(old(nsList), ns, pid, x)
      decreases rank[ns], 1
    {
      if ns !in nsList {
        AddNamespaceToList(h, ns, rank, bound, waiting);
      } else {
        LineIn(h, rank, bound, nsList, waiting, ns);
        TopInLine(h, rank, bound, ns);
      }
      if pid > 0 {
        Enlist(h, nsList, waiting, ns, nsList[ns].pids + [pid]);
        nsList := nsList[ns := nsList[ns].(pids := nsList[ns].pids + [pid])];
      }
    }

    method AddNamespaceToList(h: Hierarchy, ns: NsId, ghost rank: map<NsId, nat>, ghost bound: nat,
                              ghost waiting: set<NsId>)
      requires Ranked(h, rank, bound) && ns in h.spaces && ns !in nsList
      requires Linked(h, nsList, waiting)
      requires waiting <= h.spaces.Keys && forall w | w in waiting :: rank[ns] < rank[w]
      modifies this
      ensures Linked(h, nsList, waiting)
      ensures rootNS == RootAfter(h, rank, bound, ns, old(nsList).Keys, old(rootNS))
      ensures nsList.Keys == old(nsList).Keys + Line(h, rank, bound, ns)
      ensures PidsKept(old(nsList), nsList)
      decreases rank[ns], 0
    {
      NewEntry(h, ns, waiting);
      LineAdded(h, rank, bound, ns, old(nsList).Keys);
      assert waiting + {ns} - {ns} == waiting;
      match Up(h, ns) {
        case None =>
          AddTopmost(h, ns, waiting + {ns});
        case Some(parent) =>
          AddUnderParent(h, ns, parent, rank, bound, waiting + {ns});
      }
    }

    /** Settles an entry above which nothing is visible: it is a root, or held by the invisible entry. */
    method AddTopmost(h: Hierarchy, ns: NsId, ghost waiting: set<NsId>)
      requires ns in h.spaces && Up(h, ns).None? && INVISIBLE !in h.spaces
      requires Linked(h, nsList, waiting) && ns in waiting
      modifies this
      ensures Linked(h, nsList, waiting - {ns}) && rootNS == if IsTop(h, ns) then ns else old(rootNS)
      ensures nsList.Keys == old(nsList).Keys + if IsTop(h, ns) then {} else {INVISIBLE}
      ensures PidsKept(old(nsList), nsList)
    {
      if h.spaces[ns].nsType == CLONE_NEWUSER || h.pidns {
        Settle(h, nsList, waiting, ns);
        rootNS := ns;
      } else {
        AddToInvisible(h, ns, waiting);
      }
    }

    /** Makes sure the parent has an entry, and links `ns`, which has one, under it. */
    method AddUnderParent(h: Hierarchy, ns: NsId, parent: NsId, ghost rank: map<NsId, nat>, ghost bound: nat,
                          ghost waiting: set<NsId>)
      requires Ranked(h, rank, bound) && ns in h.spaces && Up(h, ns) == Some(parent)
      requires Linked(h, nsList, waiting) && ns in waiting && waiting <= h.spaces.Keys
      requires forall w | w in waiting :: rank[ns] <= rank[w]
      modifies this
      ensures Linked(h, nsList, waiting - {ns})
      ensures rootNS == RootAfter(h, rank, bound, parent, old(nsList).Keys, old(rootNS))
      ensures nsList.Keys == old(nsList).Keys + Line(h, rank, bound, parent)
      ensures PidsKept(old(nsList), nsList)
      decreases rank[parent], 2
    {
      AddNamespace(h, parent, -1, rank, bound, waiting);
      AddChild(h, ns, parent, waiting);
    }

    method NewEntry(h: Hierarchy, ns: NsId, ghost waiting: set<NsId>)
      requires ns in h.spaces && ns !in nsList && ns != INVISIBLE && Linked(h, nsList, waiting)
      modifies this`nsList
      ensures Linked(h, nsList, waiting + {ns})
      ensures nsList.Keys == old(nsList).Keys + {ns} && PidsKept(old(nsList), nsList)
      ensures var space := h.spaces[ns];
              var creator := if space.nsType == 0x1000_0000 then space.creatorUid else 0;
              nsList == old(nsList)[ns := Attribs(space.nsType, creator, [], [])]
    {
      var space := h.spaces[ns];
      var entry := Attribs(space.nsType, if space.nsType == CLONE_NEWUSER then space.creatorUid else 0, [], []);
      Enter(h, nsList, waiting, ns, entry);
      nsList := nsList[ns := entry];
    }

    /** Appends `ns` to the children of `p`. */
    method AddChild(h: Hierarchy, ns: NsId, p: NsId, ghost waiting: set<NsId>)
      requires Linked(h, nsList, waiting) && ns in waiting && Holder(h, ns) == Some(p) && p in nsList && p !in waiting
      modifies this`nsList
      ensures Linked(h, nsList, waiting - {ns}) && nsList.Keys == old(nsList).Keys && PidsKept(old(nsList), nsList)
      ensures nsList == old(nsList)[p := old(nsList)[p].(children := old(nsList)[p].children + [ns])]
    {
      Link(h, nsList, waiting, ns, p);
      nsList := nsList[p := nsList[p].(children := nsList[p].children + [ns])];
    }

    /** Appends `ns` to the children of the invisible entry, which is created if need be. */
    method AddToInvisible(h: Hierarchy, ns: NsId, ghost waiting: set<NsId>)
      requires Linked(h, nsList, waiting) && ns in waiting && Holder(h, ns) == Some(INVISIBLE) && INVISIBLE !in h.spaces
      modifies this`nsList
      ensures Linked(h, nsList, waiting - {ns})
      ensures nsList.Keys == old(nsList).Keys + {INVISIBLE} && PidsKept(old(nsList), nsList)
      ensures nsList[INVISIBLE].nsType == CLONE_NEWUSER || INVISIBLE in old(nsList)
      ensures nsList[INVISIBLE].children ==
              (if INVISIBLE in old(nsList) then old(nsList)[INVISIBLE].children else []) + [ns]
    {
      if INVISIBLE !in nsList {
        EnterInvisible(h, nsList, waiting);
        nsList := nsList[INVISIBLE := Attribs(CLONE_NEWUSER, 0, [], [])];
      }
      AddChild(h, ns, INVISIBLE, waiting);
    }
  }
}
