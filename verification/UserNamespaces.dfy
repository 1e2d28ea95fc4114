/** ns_capable: is one user namespace an ancestor of another, and what capabilities follow? */
module UserNamespaces {
  import opened Wrappers

  type Ns = nat

  /** `parent` is None for the topmost namespace, where NS_GET_PARENT fails with EPERM. */
  datatype UserNs = UserNs(parent: Option<Ns>, ownerUid: int)

  type Hierarchy = map<Ns, UserNs>

  ghost predicate Ranked(h: Hierarchy, rank: map<Ns, nat>) {
    && rank.Keys == h.Keys
    && forall ns | ns in h && h[ns].parent.Some? :: h[ns].parent.value in h && rank[h[ns].parent.value] < rank[ns]
  }

  /** The chain from `ns` up to the topmost namespace. */
  ghost function Chain(h: Hierarchy, rank: map<Ns, nat>, ns: Ns): seq<Ns>
    requires Ranked(h, rank) && ns in h
    decreases rank[ns]
  {
    [ns] + match h[ns].parent { case None => [] case Some(p) => Chain(h, rank, p) }
  }

  /** A proper ancestor: on the chain above the namespace itself. */
  ghost predicate IsAncestor(h: Hierarchy, rank: map<Ns, nat>, x: Ns, y: Ns)
    requires Ranked(h, rank) && y in h
  {
    x in Chain(h, rank, y)[1..]
  }

  /** `c` is on the chain of `y`, immediately below `x`. */
  ghost predicate IsChildToward(h: Hierarchy, rank: map<Ns, nat>, c: Ns, x: Ns, y: Ns)
    requires Ranked(h, rank) && y in h
  {
    c in Chain(h, rank, y) && c in h && h[c].parent == Some(x)
  }

  lemma {:induction false} ChainRanks(h: Hierarchy, rank: map<Ns, nat>, y: Ns)
    requires Ranked(h, rank) && y in h
    ensures forall c | c in Chain(h, rank, y) :: c in h && rank[c] <= rank[y]
    decreases rank[y]
  {
    if h[y].parent.Some? {
      ChainRanks(h, rank, h[y].parent.value);
    }
  }

  /** One step up the chain. */
  lemma StepUp(h: Hierarchy, rank: map<Ns, nat>, x: Ns, y: Ns)
    requires Ranked(h, rank) && y in h
    ensures h[y].parent.None? ==> !IsAncestor(h, rank, x, y)
    ensures h[y].parent.Some? ==>
              (IsAncestor(h, rank, x, y) <==> x == h[y].parent.value || IsAncestor(h, rank, x, h[y].parent.value))
    ensures h[y].parent.Some? && h[y].parent != Some(x) ==>
              forall c :: IsChildToward(h, rank, c, x, y) <==> IsChildToward(h, rank, c, x, h[y].parent.value)
    ensures h[y].parent == Some(x) ==> forall c :: IsChildToward(h, rank, c, x, y) <==> c == y
  {
    if h[y].parent.Some? {
      var p := h[y].parent.value;
      assert Chain(h, rank, y)[1..] == Chain(h, rank, p);
      assert Chain(h, rank, p) == [p] + Chain(h, rank, p)[1..];
      assert forall c :: c in Chain(h, rank, y) <==> c == y || c in Chain(h, rank, p);
      ChainRanks(h, rank, p);
    }
  }

  /** Walks up from `y`. The answer is None exactly if `x` is not a proper ancestor of `y`; otherwise
      it is the one namespace on the chain of `y` whose parent is `x`. */
  method IsAncestorUserns(h: Hierarchy, x: Ns, y: Ns, ghost rank: map<Ns, nat>) returns (r: Option<Ns>)
    requires Ranked(h, rank) && y in h
    ensures r.None? <==> !IsAncestor(h, rank, x, y)
    ensures r.Some? ==> forall c :: IsChildToward(h, rank, c, x, y) <==> c == r.value
  {
    var child := y;
    while true
      invariant child in h
      invariant IsAncestor(h, rank, x, y) <==> IsAncestor(h, rank, x, child)
      invariant forall c :: IsChildToward(h, rank, c, x, y) <==> IsChildToward(h, rank, c, x, child)
      decreases rank[child]
    {
      StepUp(h, rank, x, child);
      match h[child].parent {
        case None => return None;
        case Some(parent) =>
          if parent == x {
            return Some(child);
          }
          child := parent;
      }
    }
  }

  // ----- the capability decision -----

  /** What the program reports about a process in a target user namespace. */
  datatype Verdict = InTarget | NotInAncestor | OwnsChild | NotOwner

  method Capabilities(h: Hierarchy, processNs: Ns, euid: int, target: Ns, ghost rank: map<Ns, nat>) returns (v: Verdict)
    requires Ranked(h, rank) && target in h
    ensures VerdictIs(h, rank, processNs, euid, target, v)
  {
    if processNs == target {
      return InTarget;
    }
    var child := IsAncestorUserns(h, processNs, target, rank);
    match child {
      case None => return NotInAncestor;
      case Some(c) =>
        assert IsChildToward(h, rank, c, processNs, target);
        return if euid == h[c].ownerUid then OwnsChild else NotOwner;
    }
  }

  /** The rule: all capabilities for the creator of the namespace through which the target
      descends from the process's own namespace. */
  ghost predicate VerdictIs(h: Hierarchy, rank: map<Ns, nat>, processNs: Ns, euid: int, target: Ns, v: Verdict)
    requires Ranked(h, rank) && target in h
  {
    match v
    case InTarget => processNs == target
    case NotInAncestor => processNs != target && !IsAncestor(h, rank, processNs, target)
    case OwnsChild =>
      && processNs != target && IsAncestor(h, rank, processNs, target)
      && exists c :: IsChildToward(h, rank, c, processNs, target) && h[c].ownerUid == euid
    case NotOwner =>
      && processNs != target && IsAncestor(h, rank, processNs, target)
      && exists c :: IsChildToward(h, rank, c, processNs, target) && h[c].ownerUid != euid
  }

  lemma {:induction false} ChildTowardBelow(h: Hierarchy, rank: map<Ns, nat>, c: Ns, x: Ns, y: Ns)
    requires Ranked(h, rank) && y in h && c in Chain(h, rank, y) && c in h && h[c].parent == Some(x)
    ensures x != y && IsAncestor(h, rank, x, y) && forall e :: IsChildToward(h, rank, e, x, y) <==> e == c
    decreases rank[y]
  {
    ChainRanks(h, rank, y);
    StepUp(h, rank, x, y);
    if c != y {
      var p := h[y].parent.value;
      assert Chain(h, rank, y) == [y] + Chain(h, rank, p);
      ChildTowardBelow(h, rank, c, x, p);
      if h[y].parent == Some(x) {
        ChainRanks(h, rank, p);
      }
    }
  }

  /** The verdict depends only on the child of the process's namespace that the target is
      below: it is the same for that child and for everything underneath it. */
  lemma SameVerdictBelowChild(h: Hierarchy, rank: map<Ns, nat>, processNs: Ns, euid: int, c: Ns, t1: Ns, t2: Ns,
                              v: Verdict)
    requires Ranked(h, rank) && t1 in h && t2 in h && c in h && h[c].parent == Some(processNs)
    requires c in Chain(h, rank, t1) && c in Chain(h, rank, t2)
    ensures VerdictIs(h, rank, processNs, euid, t1, v) <==> VerdictIs(h, rank, processNs, euid, t2, v)
    ensures VerdictIs(h, rank, processNs, euid, t1, v) <==> v == if euid == h[c].ownerUid then OwnsChild else NotOwner
  {
    ChildTowardBelow(h, rank, c, processNs, t1);
    ChildTowardBelow(h, rank, c, processNs, t2);
    assert IsChildToward(h, rank, c, processNs, t1) && IsChildToward(h, rank, c, processNs, t2);
  }
}
