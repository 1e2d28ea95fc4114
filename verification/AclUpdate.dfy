/** Applying a parsed list of entries to an ACL, entry by entry: the ACL as a list whose entries are
    found by linear search, and the map it stands for. */
module AclUpdate {
  import opened Wrappers
  import opened AclText

  datatype AclEntry = AclEntry(tag: Tag, qual: nat, perms: Perms)

  /** What identifies an entry: only named users and groups have a qualifier. */
  datatype Key = Key(tag: Tag, qual: nat)

  const MASK := Key(Mask, 0)

  function KeyOf(tag: Tag, qual: nat): Key {
    Key(tag, if Named(tag) then qual else 0)
  }

  function KeyAt(acl: seq<AclEntry>, i: nat): Key
    requires i < |acl|
  {
    KeyOf(acl[i].tag, acl[i].qual)
  }

  // ----- the list and the map -----

  /** The first entry with that key, or the length of the list. */
  function Find(acl: seq<AclEntry>, key: Key): (i: nat)
    ensures i <= |acl| && (i < |acl| ==> KeyAt(acl, i) == key)
    ensures forall j | 0 <= j < i :: KeyAt(acl, j) != key
  {
    if acl == [] || KeyAt(acl, 0) == key then 0
    else
      var i := Find(acl[1..], key);
      assert forall j | 0 < j < |acl| :: KeyAt(acl, j) == KeyAt(acl[1..], j - 1);
      i + 1
  }

  /** The permissions an ACL gives to a key. */
  function Lookup(acl: seq<AclEntry>, key: Key): Option<Perms> {
    if Find(acl, key) < |acl| then Some(acl[Find(acl, key)].perms) else None
  }

  ghost predicate UniqueKeys(acl: seq<AclEntry>) {
    forall i, j | 0 <= i < j < |acl| :: KeyAt(acl, i) != KeyAt(acl, j)
  }

  lemma FindIs(acl: seq<AclEntry>, key: Key, i: nat)
    requires i <= |acl| && (i < |acl| ==> KeyAt(acl, i) == key) && forall j | 0 <= j < i :: KeyAt(acl, j) != key
    ensures Find(acl, key) == i
  {
  }

  // ----- one change -----

  function Set(acl: seq<AclEntry>, tag: Tag, qual: nat, perms: Perms): seq<AclEntry> {
    var i := Find(acl, KeyOf(tag, qual));
    if i < |acl| then acl[i := acl[i].(perms := perms)]
    else acl + [AclEntry(tag, if Named(tag) then qual else 0, perms)]
  }

  function Remove(acl: seq<AclEntry>, key: Key): seq<AclEntry> {
    var i := Find(acl, key);
    if i < |acl| then acl[..i] + acl[i + 1..] else acl
  }

  lemma SetIsUpdate(acl: seq<AclEntry>, tag: Tag, qual: nat, perms: Perms, key: Key)
    ensures Lookup(Set(acl, tag, qual, perms), key) == if key == KeyOf(tag, qual) then Some(perms) else Lookup(acl, key)
  {
    var acl' := Set(acl, tag, qual, perms);
    var mine := KeyOf(tag, qual);
    assert forall j | 0 <= j < |acl| :: KeyAt(acl', j) == KeyAt(acl, j);
    if key == mine {
      FindIs(acl', key, Find(acl, mine));
    } else if Find(acl, key) < |acl| {
      FindIs(acl', key, Find(acl, key));
    } else {
      FindIs(acl', key, |acl'|);
    }
  }

  lemma SetKeepsUnique(acl: seq<AclEntry>, tag: Tag, qual: nat, perms: Perms)
    requires UniqueKeys(acl)
    ensures UniqueKeys(Set(acl, tag, qual, perms))
  {
    var acl' := Set(acl, tag, qual, perms);
    assert forall j | 0 <= j < |acl| :: KeyAt(acl', j) == KeyAt(acl, j);
  }

  lemma RemoveIsRemoval(acl: seq<AclEntry>, gone: Key, key: Key)
    requires UniqueKeys(acl)
    ensures UniqueKeys(Remove(acl, gone))
    ensures Lookup(Remove(acl, gone), key) == if key == gone then None else Lookup(acl, key)
  {
    var i, k := Find(acl, gone), Find(acl, key);
    if i < |acl| {
      RemoveAt(acl, Remove(acl, gone), i, key, k);
    }
  }

  lemma RemoveAt(acl: seq<AclEntry>, acl': seq<AclEntry>, i: nat, key: Key, k: nat)
    requires UniqueKeys(acl) && i < |acl| && acl' == acl[..i] + acl[i + 1..]
    requires k <= |acl| && (k < |acl| ==> KeyAt(acl, k) == key) && forall j | 0 <= j < k :: KeyAt(acl, j) != key
    ensures UniqueKeys(acl')
    ensures Lookup(acl', key) == if k == i || k == |acl| then None else Some(acl[k].perms)
  {
    assert forall j | 0 <= j < |acl'| :: acl'[j] == acl[if j < i then j else j + 1];
    assert forall j | 0 <= j < |acl'| :: KeyAt(acl', j) == KeyAt(acl, if j < i then j else j + 1);
    FindIs(acl', key, if k == i || k == |acl| then |acl'| else if k < i then k else k - 1);
  }

  // ----- the mask -----

  function Union(a: Perms, b: Perms): Perms {
    Perms(a.read || b.read, a.write || b.write, a.execute || b.execute)
  }

  /** The permissions of the group class: named users, the owning group, named groups. */
  function GroupClass(acl: seq<AclEntry>): Perms {
    if acl == [] then NO_PERMS
    else
      var rest := GroupClass(acl[..|acl| - 1]);
      var last := acl[|acl| - 1];
      if Named(last.tag) || last.tag == GroupObj then Union(rest, last.perms) else rest
  }

  /** Is `e` in the group class: a named user, the owning group or a named group? */
  predicate InGroupClass(e: AclEntry) {
    e.tag == User || e.tag == GroupObj || e.tag == Group
  }

  /** Each permission is in the union exactly if some entry of the group class has it. */
  lemma {:induction false} GroupClassIs(acl: seq<AclEntry>)
    ensures GroupClass(acl).read <==> exists e :: e in acl && InGroupClass(e) && e.perms.read
    ensures GroupClass(acl).write <==> exists e :: e in acl && InGroupClass(e) && e.perms.write
    ensures GroupClass(acl).execute <==> exists e :: e in acl && InGroupClass(e) && e.perms.execute
    decreases |acl|
  {
    if acl != [] {
      var init, last := acl[..|acl| - 1], acl[|acl| - 1];
      GroupClassIs(init);
      assert forall e :: e in acl <==> e in init || e == last;
    }
  }

  /** acl_calc_mask: the mask entry, created if need be, gets the union of the group class. */
  function CalcMask(acl: seq<AclEntry>): seq<AclEntry> {
    Set(acl, Mask, 0, GroupClass(acl))
  }

  lemma {:induction false} MaskNotInClass(acl: seq<AclEntry>, k: nat, perms: Perms)
    requires k < |acl| && acl[k].tag == Mask
    ensures GroupClass(acl[k := acl[k].(perms := perms)]) == GroupClass(acl)
    decreases |acl|
  {
    var n := |acl| - 1;
    var acl' := acl[k := acl[k].(perms := perms)];
    if k < n {
      assert acl'[..n] == acl[..n][k := acl[k].(perms := perms)];
      MaskNotInClass(acl[..n], k, perms);
    } else {
      assert acl'[..n] == acl[..n];
    }
  }

  /** After the calculation the mask is the union of the group class it belongs to. */
  lemma MaskIsClass(acl: seq<AclEntry>)
    ensures Lookup(CalcMask(acl), MASK) == Some(GroupClass(CalcMask(acl)))
    ensures var mask := Lookup(CalcMask(acl), Key(Mask, 0)).value;
            && (mask.read <==> exists e :: e in acl && InGroupClass(e) && e.perms.read)
            && (mask.write <==> exists e :: e in acl && InGroupClass(e) && e.perms.write)
            && (mask.execute <==> exists e :: e in acl && InGroupClass(e) && e.perms.execute)
  {
    GroupClassIs(acl);
    var perms := GroupClass(acl);
    SetIsUpdate(acl, Mask, 0, perms, MASK);
    var i := Find(acl, MASK);
    if i < |acl| {
      MaskNotInClass(acl, i, perms);
    } else {
      assert CalcMask(acl)[..|acl|] == acl;
    }
  }

  // ----- the list of changes -----

  /** What one parsed entry does to the ACL, before any recalculation of the mask. */
  function Changed(acl: seq<AclEntry>, e: Entry, remove: bool): seq<AclEntry>
    requires remove || e.perms.Some?
  {
    if remove then Remove(acl, KeyOf(e.tag, e.qual)) else Set(acl, e.tag, e.qual, e.perms.value)
  }

  function Step(acl: seq<AclEntry>, e: Entry, remove: bool, recalcMask: bool): seq<AclEntry>
    requires remove || e.perms.Some?
  {
    var changed := Changed(acl, e, remove);
    if recalcMask then CalcMask(changed) else changed
  }

  function ApplyAll(acl: seq<AclEntry>, list: seq<Entry>, remove: bool, recalcMask: bool): seq<AclEntry>
    requires remove || HavePerms(list)
    decreases |list|
  {
    if list == [] then acl
    else
      var n := |list| - 1;
      assert list[n] in list && forall e | e in list[..n] :: e in list;
      Step(ApplyAll(acl, list[..n], remove, recalcMask), list[n], remove, recalcMask)
  }

  /** The last entry of the list for a key decides what the key is bound to. */
  function LastWins(list: seq<Entry>, remove: bool, key: Key, before: Option<Perms>): Option<Perms>
    decreases |list|
  {
    if list == [] then before
    else
      var last := list[|list| - 1];
      if KeyOf(last.tag, last.qual) == key then (if remove then None else last.perms)
      else LastWins(list[..|list| - 1], remove, key, before)
  }

  /** The same, read off the list directly. */
  lemma {:induction false} LastWinsMeans(list: seq<Entry>, remove: bool, key: Key, before: Option<Perms>, i: nat)
    requires i < |list| && KeyOf(list[i].tag, list[i].qual) == key
    requires forall j | i < j < |list| :: KeyOf(list[j].tag, list[j].qual) != key
    ensures LastWins(list, remove, key, before) == if remove then None else list[i].perms
    decreases |list|
  {
    if i < |list| - 1 {
      LastWinsMeans(list[..|list| - 1], remove, key, before, i);
    }
  }

  /** And a key that no entry is for stays as it was. */
  lemma {:induction false} LastWinsElse(list: seq<Entry>, remove: bool, key: Key, before: Option<Perms>)
    requires forall j | 0 <= j < |list| :: KeyOf(list[j].tag, list[j].qual) != key
    ensures LastWins(list, remove, key, before) == before
    decreases |list|
  {
    if list != [] {
      LastWinsElse(list[..|list| - 1], remove, key, before);
    }
  }

  lemma StepIsMapStep(acl: seq<AclEntry>, e: Entry, remove: bool, recalcMask: bool, key: Key)
    requires UniqueKeys(acl) && (remove || e.perms.Some?)
    ensures UniqueKeys(Step(acl, e, remove, recalcMask))
    ensures key != MASK || !recalcMask ==>
              Lookup(Step(acl, e, remove, recalcMask), key) ==
              if key == KeyOf(e.tag, e.qual) then (if remove then None else e.perms) else Lookup(acl, key)
    ensures recalcMask ==>
              Lookup(Step(acl, e, remove, recalcMask), MASK) == Some(GroupClass(Step(acl, e, remove, recalcMask)))
  {
    var mine := KeyOf(e.tag, e.qual);
    RemoveIsRemoval(acl, mine, key);
    if !remove {
      SetIsUpdate(acl, e.tag, e.qual, e.perms.value, key);
      SetKeepsUnique(acl, e.tag, e.qual, e.perms.value);
    }
    if recalcMask {
      var changed := Changed(acl, e, remove);
      SetIsUpdate(changed, Mask, 0, GroupClass(changed), key);
      SetKeepsUnique(changed, Mask, 0, GroupClass(changed));
      MaskIsClass(changed);
    }
  }

  /** The theorem. Applying a list keeps the keys unique and acts on the map as a last-wins update, or
      as a removal; with recalculation, the mask instead ends up as the union of the group class. */
  lemma {:induction false} ApplyIsMapUpdate(acl: seq<AclEntry>, list: seq<Entry>, remove: bool, recalcMask: bool,
                                            key: Key)
    requires UniqueKeys(acl) && (remove || HavePerms(list))
    ensures var acl' := ApplyAll(acl, list, remove, recalcMask);
            && UniqueKeys(acl')
            && (key != MASK || !recalcMask ==> Lookup(acl', key) == LastWins(list, remove, key, Lookup(acl, key)))
            && (recalcMask && list != [] ==> Lookup(acl', MASK) == Some(GroupClass(acl')))
    decreases |list|
  {
    if list != [] {
      var n := |list| - 1;
      assert list[n] in list && forall e | e in list[..n] :: e in list;
      ApplyIsMapUpdate(acl, list[..n], remove, recalcMask, key);
      StepIsMapStep(ApplyAll(acl, list[..n], remove, recalcMask), list[n], remove, recalcMask, key);
    }
  }

  // ----- the loop -----

  /** The ACL was valid after each of the first `n` entries. */
  ghost predicate ValidSoFar(acl: seq<AclEntry>, list: seq<Entry>, n: nat, remove: bool, recalcMask: bool,
                             valid: seq<AclEntry> -> bool)
    requires n <= |list| && (remove || HavePerms(list))
  {
    n == 0 || (&& ValidSoFar(acl, list, n - 1, remove, recalcMask, valid)
               && (assert forall e | e in list[..n] :: e in list; valid(ApplyAll(acl, list[..n], remove, recalcMask))))
  }

  ghost predicate HavePerms(list: seq<Entry>) {
    forall e | e in list :: e.perms.Some?
  }

  /** `now` is the ACL after the first `n` entries. */
  ghost predicate Applied(acl: seq<AclEntry>, now: seq<AclEntry>, list: seq<Entry>, n: nat, remove: bool,
                          recalcMask: bool) {
    && n <= |list| && (remove || HavePerms(list[..n]))
    && now == ApplyAll(acl, list[..n], remove, recalcMask)
  }

  lemma ApplyOneMore(acl: seq<AclEntry>, now: seq<AclEntry>, list: seq<Entry>, n: nat, remove: bool, recalcMask: bool)
    requires Applied(acl, now, list, n, remove, recalcMask) && n < |list| && (remove || HavePerms(list))
    ensures remove || list[n].perms.Some?
    ensures Applied(acl, Step(now, list[n], remove, recalcMask), list, n + 1, remove, recalcMask)
  {
    var more := list[..n + 1];
    assert list[n] in list;
    assert more[..n] == list[..n] && more[n] == list[n];
    assert forall e | e in more :: e in list;
  }

  lemma ValidOneMore(acl: seq<AclEntry>, now: seq<AclEntry>, list: seq<Entry>, n: nat, remove: bool, recalcMask: bool,
                     valid: seq<AclEntry> -> bool)
    requires (remove || HavePerms(list)) && n < |list| && ValidSoFar(acl, list, n, remove, recalcMask, valid)
    requires Applied(acl, now, list, n + 1, remove, recalcMask) && valid(now)
    ensures ValidSoFar(acl, list, n + 1, remove, recalcMask, valid)
  {
  }

  /** Two entries are about the same subject if their tags agree and, for named users and groups, their qualifiers. */
  predicate SameSubject(e: AclEntry, tag: Tag, qual: nat) {
    e.tag == tag && (tag == User || tag == Group ==> e.qual == qual)
  }

  class Acl {
    var entries: seq<AclEntry>

    /** The position of the entry for a tag and qualifier, or -1. */
    method FindEntry(tag: Tag, qual: nat) returns (i: int)
      ensures -1 <= i < |entries|
      ensures i >= 0 ==> SameSubject(entries[i], tag, qual)
      ensures forall j | 0 <= j < (if i >= 0 then i else |entries|) :: !SameSubject(entries[j], tag, qual)
      ensures i == if Find(entries, KeyOf(tag, qual)) < |entries| then Find(entries, KeyOf(tag, qual)) else -1
    {
      for n := 0 to |entries|
        invariant forall j | 0 <= j < n :: KeyAt(entries, j) != KeyOf(tag, qual)
        invariant forall j | 0 <= j < n :: !SameSubject(entries[j], tag, qual)
      {
        assert KeyAt(entries, n) == KeyOf(tag, qual) <==> SameSubject(entries[n], tag, qual);
        if entries[n].tag == tag && (!Named(tag) || entries[n].qual == qual) {
          FindIs(entries, KeyOf(tag, qual), n);
          return n;
        }
      }
      FindIs(entries, KeyOf(tag, qual), |entries|);
      return -1;
    }

    /** Deletes, changes or creates the entry that `e` is about. */
    method ChangeEntry(e: Entry, remove: bool)
      requires remove || e.perms.Some?
      modifies this
      ensures entries == Changed(old(entries), e, remove)
    {
      var i := FindEntry(e.tag, e.qual);
      if remove {
        if i >= 0 {
          entries := entries[..i] + entries[i + 1..];
        }
      } else if i < 0 {
        entries := entries + [AclEntry(e.tag, if Named(e.tag) then e.qual else 0, e.perms.value)];
      } else {
        entries := entries[i := entries[i].(perms := e.perms.value)];
      }
    }

    method ApplyEntry(e: Entry, remove: bool, recalcMask: bool)
      requires remove || e.perms.Some?
      modifies this
      ensures entries == Step(old(entries), e, remove, recalcMask)
    {
      ChangeEntry(e, remove);
      if recalcMask {
        entries := CalcMask(entries);
      }
    }

    /** Applies the entries in order; gives up at the first one after which the ACL is not valid. */
    method Apply(list: seq<Entry>, remove: bool, recalcMask: bool, valid: seq<AclEntry> -> bool)
      returns (ok: bool, applied: nat)
      requires remove || HavePerms(list)
      modifies this
      ensures Applied(old(entries), entries, list, applied, remove, recalcMask)
      ensures if ok then applied == |list| else applied > 0 && !valid(entries)
      ensures ValidSoFar(old(entries), list, if ok then applied else applied - 1, remove, recalcMask, valid)
    {
      applied := 0;
      while applied < |list|
        invariant Applied(old(entries), entries, list, applied, remove, recalcMask)
        invariant ValidSoFar(old(entries), list, applied, remove, recalcMask, valid)
      {
        ok := ApplyNext(list, applied, remove, recalcMask, valid, old(entries));
        applied := applied + 1;
        if !ok {
          return false, applied;
        }
      }
      return true, applied;
    }

    /** One round of that loop. */
    method ApplyNext(list: seq<Entry>, n: nat, remove: bool, recalcMask: bool, valid: seq<AclEntry> -> bool,
                     ghost acl: seq<AclEntry>) returns (ok: bool)
      requires (remove || HavePerms(list)) && n < |list|
      requires Applied(acl, entries, list, n, remove, recalcMask)
      requires ValidSoFar(acl, list, n, remove, recalcMask, valid)
      modifies this
      ensures Applied(acl, entries, list, n + 1, remove, recalcMask) && ok == valid(entries)
      ensures ok ==> ValidSoFar(acl, list, n + 1, remove, recalcMask, valid)
    {
      ApplyOneMore(acl, entries, list, n, remove, recalcMask);
      ApplyEntry(list[n], remove, recalcMask);
      ok := valid(entries);
      if ok {
        ValidOneMore(acl, entries, list, n, remove, recalcMask, valid);
      }
    }
  }
}
