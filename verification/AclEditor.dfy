/** The editor as a whole: an argument is parsed, and what it says is applied to an ACL. */
module AclEditor {
  import opened Wrappers
  import Splitting
  import opened AclText
  import opened AclParse
  import opened AclUpdate

  /** The whole effect of an accepted argument on an ACL: keys stay unique, and each key ends up as the last entry
      for it says. */
  lemma EditIsMapUpdate(acl: seq<AclEntry>, s: string, remove: bool, recalcMask: bool, names: Names, key: Key)
    requires UniqueKeys(acl) && ParseAcl(s, !remove, names).Some?
    ensures var list := ParseAcl(s, !remove, names).value;
            && (remove || HavePerms(list))
            && var acl' := ApplyAll(acl, list, remove, recalcMask);
               && UniqueKeys(acl')
               && (key != MASK || !recalcMask ==> Lookup(acl', key) == LastWins(list, remove, key, Lookup(acl, key)))
               && (recalcMask && list != [] ==> Lookup(acl', MASK) == Some(GroupClass(acl')))
  {
    AllParsedPerms(Splitting.Fields(s, ',', 0), !remove, names);
    ApplyIsMapUpdate(acl, ParseAcl(s, !remove, names).value, remove, recalcMask, key);
  }

  /** A bad argument changes nothing. Otherwise its entries are applied in order, up to the first after which the
      ACL is not valid. */
  method EditAcl(acl: Acl, buf: array<char>, remove: bool, recalcMask: bool, names: Names,
                 valid: seq<AclEntry> -> bool, ghost end: nat) returns (parsed: bool, ok: bool, applied: nat)
    requires StringAt(buf[..], 0, end)
    modifies acl, buf
    ensures parsed == ParseAcl(old(buf[..end]), !remove, names).Some?
    ensures !parsed ==> acl.entries == old(acl.entries)
    ensures parsed ==>
              var list := ParseAcl(old(buf[..end]), !remove, names).value;
              && (remove || HavePerms(list))
              && Applied(old(acl.entries), acl.entries, list, applied, remove, recalcMask)
              && (if ok then applied == |list| else applied > 0 && !valid(acl.entries))
              && ValidSoFar(old(acl.entries), list, if ok then applied else applied - 1, remove, recalcMask, valid)
  {
    ghost var s := buf[..end];
    var aclist := new Entry[MAX_ENTRIES](_ => Entry(Other, 0, None));
    var numEntries := ParseACL(buf, aclist, !remove, names, end);
    if numEntries == -1 {
      return false, false, 0;
    }
    AllParsedPerms(Splitting.Fields(s, ',', 0), !remove, names);
    parsed := true;
    ok, applied := acl.Apply(aclist[..numEntries], remove, recalcMask, valid);
  }
}
