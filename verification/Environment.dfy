/** setenv and unsetenv on a NULL-terminated array of "name=value" strings, shifted in place. */
module Environment {
  import opened Wrappers

  /** The test of both functions and of getenv: the entry starts with the name and a '='. */
  predicate Matches(entry: string, name: string) {
    |name| < |entry| && entry[..|name|] == name && entry[|name|] == '='
  }

  /** A name that setenv and unsetenv accept. */
  predicate IsName(name: string) {
    name != "" && '=' !in name
  }

  predicate Accepted(name: Option<string>) {
    name.Some? && IsName(name.value)
  }

  // ----- the environment as a sequence -----

  /** getenv: the value in the first matching entry. */
  function Lookup(entries: seq<string>, name: string): Option<string> {
    if entries == [] then None
    else if Matches(entries[0], name) then Some(entries[0][|name| + 1..])
    else Lookup(entries[1..], name)
  }

  /** The first `k` entries without those of `name`, in order. */
  function Kept(entries: seq<string>, k: nat, name: string): seq<string>
    requires k <= |entries|
  {
    if k == 0 then []
    else if Matches(entries[k - 1], name) then Kept(entries, k - 1, name)
    else Kept(entries, k - 1, name) + [entries[k - 1]]
  }

  /** The entries other than those of `name`, in order. */
  function Without(entries: seq<string>, name: string): seq<string> {
    Kept(entries, |entries|, name)
  }

  /** An entry belongs to at most one acceptable name, even if one name is a prefix of another. */
  lemma OneName(entry: string, a: string, b: string)
    requires IsName(a) && IsName(b) && Matches(entry, a) && Matches(entry, b)
    ensures a == b
  {
    assert forall i | 0 <= i < |a| :: a[i] == entry[i];
    assert forall i | 0 <= i < |b| :: b[i] == entry[i];
  }

  lemma {:induction false} LookupAppend(a: seq<string>, b: seq<string>, name: string)
    ensures Lookup(a + b, name) == if Lookup(a, name).Some? then Lookup(a, name) else Lookup(b, name)
    decreases |a|
  {
    if a == [] {
      assert a + b == b;
    } else {
      assert (a + b)[1..] == a[1..] + b;
      LookupAppend(a[1..], b, name);
    }
  }

  lemma LookupOne(entry: string, name: string)
    ensures Lookup([entry], name) == if Matches(entry, name) then Some(entry[|name| + 1..]) else None
  {
    assert [entry][1..] == [];
  }

  lemma {:induction false} LookupKept(entries: seq<string>, k: nat, name: string, other: string)
    requires k <= |entries| && IsName(name) && IsName(other)
    ensures Lookup(Kept(entries, k, name), other) == if other == name then None else Lookup(entries[..k], other)
    decreases k
  {
    if k > 0 {
      var last := entries[k - 1];
      assert entries[..k] == entries[..k - 1] + [last];
      LookupKept(entries, k - 1, name, other);
      LookupAppend(entries[..k - 1], [last], other);
      LookupAppend(Kept(entries, k - 1, name), [last], other);
      LookupOne(last, other);
      if Matches(last, name) && Matches(last, other) {
        OneName(last, name, other);
      }
    }
  }

  /** Removing a name removes it from the map and leaves every other name as it was. */
  lemma LookupWithout(entries: seq<string>, name: string, other: string)
    requires IsName(name) && IsName(other)
    ensures Lookup(Without(entries, name), other) == if other == name then None else Lookup(entries, other)
  {
    LookupKept(entries, |entries|, name, other);
    assert entries[..|entries|] == entries;
  }

  lemma NewEntryMatches(name: string, value: string, other: string)
    requires IsName(name) && IsName(other)
    ensures Matches(name + "=" + value, other) <==> other == name
    ensures (name + "=" + value)[|name| + 1..] == value
  {
    var entry := name + "=" + value;
    assert entry[..|name|] == name && entry[|name|] == '=';
    if Matches(entry, other) {
      OneName(entry, name, other);
    }
  }

  /** Setting a name binds it and leaves every other name as it was. */
  lemma LookupSet(entries: seq<string>, name: string, value: string, other: string)
    requires IsName(name) && IsName(other)
    ensures Lookup(Without(entries, name) + [name + "=" + value], other) ==
            if other == name then Some(value) else Lookup(entries, other)
  {
    var entry := name + "=" + value;
    LookupAppend(Without(entries, name), [entry], other);
    LookupOne(entry, other);
    LookupWithout(entries, name, other);
    NewEntryMatches(name, value, other);
  }

  /** Setting a name and unsetting it is the same as unsetting it. */
  lemma SetThenRemove(entries: seq<string>, name: string, value: string)
    requires IsName(name)
    ensures Without(Without(entries, name) + [name + "=" + value], name) == Without(entries, name)
  {
    var kept, entry := Without(entries, name), name + "=" + value;
    NewEntryMatches(name, value, name);
    NoneKept(entries, |entries|, name);
    AllKept(kept + [entry], |kept|, name);
    assert (kept + [entry])[..|kept|] == kept;
  }

  lemma {:induction false} NoneKept(entries: seq<string>, k: nat, name: string)
    requires k <= |entries|
    ensures forall e | e in Kept(entries, k, name) :: !Matches(e, name)
    decreases k
  {
    if k > 0 {
      NoneKept(entries, k - 1, name);
    }
  }

  lemma {:induction false} AllKept(entries: seq<string>, k: nat, name: string)
    requires k <= |entries| && forall e | e in entries[..k] :: !Matches(e, name)
    ensures Kept(entries, k, name) == entries[..k]
    decreases k
  {
    if k > 0 {
      assert entries[..k] == entries[..k - 1] + [entries[k - 1]];
      AllKept(entries, k - 1, name);
    }
  }

  lemma {:induction false} NoneFound(entries: seq<string>, name: string)
    ensures Lookup(entries, name).None? <==> forall e | e in entries :: !Matches(e, name)
    decreases |entries|
  {
    if entries != [] {
      NoneFound(entries[1..], name);
      assert forall e :: e in entries <==> e == entries[0] || e in entries[1..];
    }
  }

  /** Removing a name leaves the environment as it was exactly if getenv does not find the name. */
  lemma NothingRemoved(entries: seq<string>, name: string)
    ensures Without(entries, name) == entries <==> Lookup(entries, name).None?
  {
    NoneFound(entries, name);
    NoneKept(entries, |entries|, name);
    if Lookup(entries, name).None? {
      assert entries[..|entries|] == entries;
      AllKept(entries, |entries|, name);
    }
  }

  // ----- the array -----

  /** The array holds these entries, then NULL; what follows does not matter. */
  ghost predicate Holds(environ: seq<Option<string>>, entries: seq<string>) {
    && |entries| < |environ| && environ[|entries|] == None
    && forall i | 0 <= i < |entries| :: environ[i] == Some(entries[i])
  }

  /** `rest` is still to be looked at; `kept` is what has been kept of the entries before it. */
  ghost predicate Halfway(before: seq<string>, kept: seq<string>, rest: seq<string>, name: string) {
    && |rest| <= |before| && rest == before[|before| - |rest|..]
    && kept == Kept(before, |before| - |rest|, name)
  }

  lemma StepPast(before: seq<string>, kept: seq<string>, rest: seq<string>, name: string)
    requires Halfway(before, kept, rest, name) && rest != []
    ensures Halfway(before, if Matches(rest[0], name) then kept else kept + [rest[0]], rest[1..], name)
    ensures kept + rest == kept + [rest[0]] + rest[1..]
  {
    var k := |before| - |rest|;
    assert rest == [rest[0]] + rest[1..] && rest[0] == before[k] && rest[1..] == before[k + 1..];
    KeptStep(before, k, name, kept);
  }

  lemma KeptStep(before: seq<string>, k: nat, name: string, kept: seq<string>)
    requires k < |before| && kept == Kept(before, k, name)
    ensures Kept(before, k + 1, name) == if Matches(before[k], name) then kept else kept + [before[k]]
  {
  }

  class Environ {
    var environ: array<Option<string>>
    ghost var entries: seq<string>

    ghost predicate Valid()
      reads this, environ
    {
      Holds(environ[..], entries)
    }

    /** The array a program starts with: its entries and a NULL. */
    constructor (initial: seq<string>)
      ensures Valid() && fresh(environ) && entries == initial
    {
      environ := new Option<string>[|initial| + 1](i requires 0 <= i =>
                                                     if i < |initial| then Some(initial[i]) else None);
      entries := initial;
    }

    method Getenv(name: string) returns (value: Option<string>)
      requires Valid()
      ensures value == Lookup(entries, name)
    {
      var ep := 0;
      while environ[ep].Some?
        invariant ep <= |entries|
        invariant Lookup(entries[ep..], name) == Lookup(entries, name)
        decreases |entries| - ep
      {
        var entry := environ[ep].value;
        if Matches(entry, name) {
          return Some(entry[|name| + 1..]);
        }
        ep := ep + 1;
      }
      return None;
    }

    /** Shifts everything behind `ep` back by one, up to and including the NULL. */
    method ShiftBack(ep: nat, ghost kept: seq<string>, ghost rest: seq<string>)
      requires Valid() && entries == kept + rest && ep == |kept| && rest != []
      modifies environ, this`entries
      ensures Valid() && entries == kept + rest[1..]
    {
      var sp := ep;
      ghost var es := entries;
      while environ[sp].Some?
        invariant entries == es && ep <= sp <= |es| < environ.Length
        invariant forall i | 0 <= i < ep :: environ[i] == Some(es[i])
        invariant forall i | ep <= i < sp :: environ[i] == if i + 1 < |es| then Some(es[i + 1]) else None
        invariant forall i | sp <= i < |es| :: environ[i] == Some(es[i])
        invariant environ[|es|] == None
        decreases |es| - sp
      {
        environ[sp] := environ[sp + 1];
        sp := sp + 1;
      }
      entries := kept + rest[1..];
    }

    /** The outer loop stands at `ep`, where it sees `entry`: it has kept `kept`, and `rest` is to come. */
    ghost predicate StandsAt(ep: nat, entry: Option<string>, name: string,
                             before: seq<string>, kept: seq<string>, rest: seq<string>)
      reads this, environ
    {
      && Valid() && entries == kept + rest && ep == |kept|
      && entry == (if rest == [] then None else Some(rest[0]))
      && Halfway(before, kept, rest, name)
    }

    /** Removes the entry at `ep` if it is one of `name`; otherwise moves past it. */
    method PassEntry(ep: nat, name: string, entry: string,
                     ghost before: seq<string>, ghost kept: seq<string>, ghost rest: seq<string>)
      returns (next: nat, nextEntry: Option<string>, ghost kept': seq<string>)
      requires StandsAt(ep, Some(entry), name, before, kept, rest)
      modifies environ, this`entries
      ensures StandsAt(next, nextEntry, name, before, kept', rest[1..])
    {
      StepPast(before, kept, rest, name);
      if Matches(entry, name) {
        ShiftBack(ep, kept, rest);
        next, kept' := ep, kept;
      } else {
        next, kept' := ep + 1, kept + [entry];
      }
      nextEntry := EntryAt(next, kept', rest[1..]);
    }

    method EntryAt(i: nat, ghost kept: seq<string>, ghost rest: seq<string>) returns (entry: Option<string>)
      requires Valid() && entries == kept + rest && i == |kept|
      ensures entry == if rest == [] then None else Some(rest[0])
    {
      entry := environ[i];
    }

    /** Removes every entry of `name`, keeping the others in order. */
    method Unsetenv(name: Option<string>) returns (ok: bool)
      requires Valid()
      modifies environ, this`entries
      ensures Valid() && (ok <==> name.Some? && name.value != "" && '=' !in name.value)
      ensures entries == if ok then Without(old(entries), name.value) else old(entries)
    {
      if name.None? || name.value == "" || '=' in name.value {
        return false;
      }
      RemoveAll(name.value);
      return true;
    }

    /** The loops of unsetenv. */
    method RemoveAll(name: string)
      requires Valid()
      modifies environ, this`entries
      ensures Valid() && entries == Without(old(entries), name)
    {
      var ep := 0;
      ghost var before, kept, rest := entries, [], entries;
      var entry := EntryAt(ep, kept, rest);
      while entry.Some?
        invariant StandsAt(ep, entry, name, before, kept, rest)
        decreases |rest|
      {
        ep, entry, kept := PassEntry(ep, name, entry.value, before, kept, rest);
        rest := rest[1..];
      }
    }

    /** Appends an entry whose name is not there yet, in a larger array. */
    method Putenv(entry: string)
      requires Valid()
      modifies this`environ, this`entries
      ensures Valid() && fresh(environ) && entries == old(entries) + [entry]
    {
      var n := 0;
      while environ[n].Some?
        invariant n <= |entries|
        decreases |entries| - n
      {
        n := n + 1;
      }
      var grown := new Option<string>[n + 2](i requires 0 <= i reads this, environ =>
                                               if i < n && i < environ.Length then environ[i]
                                               else if i == n then Some(entry) else None);
      environ := grown;
      entries := entries + [entry];
    }

    /** `memory` tells whether memory was available. Without it the call fails after the old
        entries have been removed. */
    method Setenv(name: Option<string>, value: Option<string>, overwrite: bool, memory: bool) returns (ok: bool)
      requires Valid()
      modifies this, environ
      ensures Valid()
      ensures name == None || name == Some("") || '=' in name.value || value.None? ==> !ok && entries == old(entries)
      ensures Accepted(name) && value.Some? ==>
                if Lookup(old(entries), name.value).Some? && !overwrite then ok && entries == old(entries)
                else
                  && ok == memory
                  && entries == Without(old(entries), name.value) + if ok then [name.value + "=" + value.value] else []
      ensures !ok ==> (entries == old(entries) <==>
                         !Accepted(name) || value.None? || Lookup(old(entries), name.value).None?)
    {
      if name.None? || name.value == "" || '=' in name.value || value.None? {
        return false;
      }
      var current := Getenv(name.value);
      if current.Some? && !overwrite {
        return true;
      }
      NothingRemoved(entries, name.value);
      var _ := Unsetenv(name);
      if !memory {
        return false;
      }
      Putenv(name.value + "=" + value.value);
      return true;
    }
  }

  /** A call that fails for want of memory and takes the old value of the variable with it. */
  method LostVariable() returns (env: Environ, ok: bool)
    ensures env.Valid() && !ok && env.entries == []
    ensures Lookup(["A=1"], "A") == Some("1") && Lookup(env.entries, "A") == None
  {
    env := new Environ(["A=1"]);
    assert Matches("A=1", "A") && "A=1"[2..] == "1";
    assert Kept(["A=1"], 1, "A") == Kept(["A=1"], 0, "A");
    ok := env.Setenv(Some("A"), Some("2"), true, false);
  }
}
