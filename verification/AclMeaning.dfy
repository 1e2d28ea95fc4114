/** What the texts that the ACL parser accepts mean, in terms of their letters: tags, names, numbers and permissions. */
module AclMeaning {
  import opened Wrappers
  import opened Splitting
  import opened AclText

  // ----- permissions -----

  predicate PermLetters(s: string) {
    forall i | 0 <= i < |s| :: s[i] == 'r' || s[i] == 'w' || s[i] == 'x' || s[i] == '-'
  }

  /** Permissions are letters in any order and number: each is given if its letter occurs. */
  lemma {:induction false} PermsAre(perms: Perms, s: string)
    ensures PermsFrom(perms, s).Some? <==> PermLetters(s)
    ensures PermLetters(s) ==>
              PermsFrom(perms, s) ==
              Some(Perms(perms.read || 'r' in s, perms.write || 'w' in s, perms.execute || 'x' in s))
    decreases |s|
  {
    if s != "" {
      var c, rest := s[0], s[1..];
      LettersCons(c, rest, s);
      var next := AddPerm(perms, c);
      if next.Some? {
        PermsAre(next.value, rest);
      }
    }
  }

  lemma LettersCons(c: char, rest: string, s: string)
    requires s == [c] + rest
    ensures PermLetters(s) <==> PermLetters([c]) && PermLetters(rest)
    ensures forall d :: d in s <==> d == c || d in rest
  {
    assert s[0] == c && forall i | 0 <= i < |rest| :: rest[i] == s[i + 1];
  }

  // ----- entries -----

  /** The text of an entry from its tag, its qualifier and, behind a second colon, its permissions. */
  function TextOf(t: string, q: string, p: Option<string>): string {
    t + ":" + q + if p.Some? then ":" + p.value else ""
  }

  /** Whom the tag and the qualifier of an entry name: the owner, a user, the owning group, a group, the mask or others.
      User names are looked up among users and group names among groups; the mask and others have no qualifier. */
  function Whom(t: string, q: string, names: Names): Option<(Tag, nat)> {
    if t == "u" || t == "user" then
      if q == "" then Some((UserObj, 0))
      else match IdFrom(q, names.users) { case None => None case Some(id) => Some((User, id)) }
    else if t == "g" || t == "group" then
      if q == "" then Some((GroupObj, 0))
      else match IdFrom(q, names.groups) { case None => None case Some(id) => Some((Group, id)) }
    else if t == "m" || t == "mask" then Some((Mask, 0))
    else if t == "o" || t == "other" then Some((Other, 0))
    else None
  }

  /** What the text denotes. Permissions must be there exactly if they are required; none behind a colon are none. */
  function Denotes(t: string, q: string, p: Option<string>, permsReqd: bool, names: Names): Option<Entry> {
    if (p.Some? && p.value != "") != permsReqd then None
    else
      match Whom(t, q, names)
      case None => None
      case Some((tag, id)) =>
        if !permsReqd then Some(Entry(tag, id, None))
        else
          match PermsFrom(NO_PERMS, p.value)
          case None => None
          case Some(perms) => Some(Entry(tag, id, Some(perms)))
  }

  lemma WhomIs(t: string, q: string, names: Names)
    ensures Whom(t, q, names) ==
            match TagFor(t, q != "")
            case None => None
            case Some(tag) => match QualFor(tag, q, names) { case None => None case Some(id) => Some((tag, id)) }
  {
  }

  /** The parts of a text, found at its colons. */
  lemma PartsAre(t: string, q: string, p: Option<string>, s: string, c1: nat, c2: nat)
    requires ':' !in t && ':' !in q && s == TextOf(t, q, p) && c1 == |t| && c2 == |t| + 1 + |q|
    ensures c1 < c2 <= |s| && SeparatorFrom(s, ':', 0) == c1 && SeparatorFrom(s, ':', c1 + 1) == c2
    ensures s[..c1] == t && s[c1 + 1..c2] == q && (c2 + 1 < |s| <==> p.Some? && p.value != "")
    ensures c2 + 1 < |s| ==> s[c2 + 1..] == p.value
  {
    var tail := if p.Some? then ":" + p.value else "";
    PrintedColons(t, q, tail);
    if p.None? {
      assert s[c1 + 1..c2] == s[c1 + 1..];
    } else {
      assert tail[1..] == p.value;
    }
  }

  lemma ReadAt(s: string, c1: nat, c2: nat, permsReqd: bool, names: Names, who: Option<(Tag, nat)>)
    requires c1 < c2 <= |s| && SeparatorFrom(s, ':', 0) == c1 && SeparatorFrom(s, ':', c1 + 1) == c2
    requires who == Whom(s[..c1], s[c1 + 1..c2], names)
    ensures ParseEntry(s, permsReqd, names) ==
            if (c2 + 1 < |s|) != permsReqd then None
            else
              match who
              case None => None
              case Some((tag, id)) =>
                if !permsReqd then Some(Entry(tag, id, None))
                else
                  match PermsFrom(NO_PERMS, s[c2 + 1..])
                  case None => None
                  case Some(perms) => Some(Entry(tag, id, Some(perms)))
  {
    WhomIs(s[..c1], s[c1 + 1..c2], names);
  }

  /** Every text with a colon is read as what it denotes, and nothing else is an entry. */
  lemma TextDenotes(t: string, q: string, p: Option<string>, permsReqd: bool, names: Names)
    requires ':' !in t && ':' !in q
    ensures ParseEntry(TextOf(t, q, p), permsReqd, names) == Denotes(t, q, p, permsReqd, names)
  {
    var s, c1, c2 := TextOf(t, q, p), |t|, |t| + 1 + |q|;
    PartsAre(t, q, p, s, c1, c2);
    ReadAt(s, c1, c2, permsReqd, names, Whom(t, q, names));
  }

  lemma NoColonNoEntry(s: string, permsReqd: bool, names: Names)
    requires ':' !in s
    ensures ParseEntry(s, permsReqd, names) == None
  {
  }

  /** A name that is no number stands for what the database says, unless that is the value of the error. */
  lemma IdOfName(name: string, database: string -> Option<nat>)
    requires name != "" && WholeNumber(name).None?
    ensures IdFrom(name, database) == if database(name) == Some(4294967295) then None else database(name)
  {
  }

  /** Without permissions, the entry for a user or group is that of its identifier. */
  lemma NamedEntry(t: string, name: string, names: Names, tag: Tag, id: Option<nat>)
    requires ':' !in t && ':' !in name
    requires Whom(t, name, names) == match id { case None => None case Some(n) => Some((tag, n)) }
    ensures ParseEntry(TextOf(t, name, None), false, names) ==
            match id { case None => None case Some(n) => Some(Entry(tag, n, None)) }
  {
    TextDenotes(t, name, None, false, names);
  }

  /** Names that are no numbers are looked up: those of users among users, those of groups among groups. */
  lemma UserNamesAreLookedUp(name: string, names: Names)
    requires name != "" && ':' !in name && WholeNumber(name).None? && names.users(name) != Some(4294967295)
    ensures ParseEntry(TextOf("u", name, None), false, names) ==
            match names.users(name) { case None => None case Some(id) => Some(Entry(User, id, None)) }
  {
    IdOfName(name, names.users);
    NamedEntry("u", name, names, User, names.users(name));
  }

  lemma GroupNamesAreLookedUp(name: string, names: Names)
    requires name != "" && ':' !in name && WholeNumber(name).None? && names.groups(name) != Some(4294967295)
    ensures ParseEntry(TextOf("g", name, None), false, names) ==
            match names.groups(name) { case None => None case Some(id) => Some(Entry(Group, id, None)) }
  {
    IdOfName(name, names.groups);
    NamedEntry("g", name, names, Group, names.groups(name));
  }

  /** The long tags mean what the short ones mean. */
  lemma {:induction false} LongTags(long: string, short: string, q: string, p: Option<string>, permsReqd: bool,
                                    names: Names)
    requires ':' !in q
    requires || (long == "user" && short == "u") || (long == "group" && short == "g")
             || (long == "other" && short == "o") || (long == "mask" && short == "m")
    ensures ParseEntry(TextOf(long, q, p), permsReqd, names) == ParseEntry(TextOf(short, q, p), permsReqd, names)
  {
    assert ':' !in long && ':' !in short;
    assert Whom(long, q, names) == Whom(short, q, names);
    SameEntries(long, short, q, p, permsReqd, names);
  }

  lemma SameEntries(t: string, t': string, q: string, p: Option<string>, permsReqd: bool, names: Names)
    requires ':' !in t && ':' !in t' && ':' !in q && Whom(t, q, names) == Whom(t', q, names)
    ensures ParseEntry(TextOf(t, q, p), permsReqd, names) == ParseEntry(TextOf(t', q, p), permsReqd, names)
  {
    TextDenotes(t, q, p, permsReqd, names);
    TextDenotes(t', q, p, permsReqd, names);
  }

  // ----- numbers -----

  /** The white space of the C locale, by code. */
  predicate AllBlank(s: string) {
    forall i | 0 <= i < |s| :: s[i] as int == 32 || 9 <= s[i] as int <= 13
  }

  predicate IsSign(sign: string) {
    sign == "" || sign == "+" || sign == "-"
  }

  function Signed(sign: string, n: int): int {
    if sign == "-" then -n else n
  }

  lemma {:induction false} BlanksSkipped(blanks: string, t: string)
    requires AllBlank(blanks) && (t != "" ==> !IsBlank(t[0]))
    ensures SkipSpace(blanks + t) == t
    decreases |blanks|
  {
    if blanks == "" {
      assert blanks + t == t;
    } else {
      assert (blanks + t)[1..] == blanks[1..] + t;
      BlanksSkipped(blanks[1..], t);
    }
  }

  /** A number may have blanks and a sign before it. */
  lemma {:induction false} SignedIsRead(blanks: string, sign: string, digits: string)
    requires AllBlank(blanks) && IsSign(sign) && digits != "" && AllDigits(digits)
    ensures WholeNumber(blanks + (sign + digits)) == Some(Clamp(Signed(sign, Value(digits))))
  {
    assert IsDigit(digits[0]);
    assert (sign + digits)[0] == if sign == "" then digits[0] else sign[0];
    assert sign != "" ==> (sign + digits)[1..] == digits;
    assert sign == "" ==> sign + digits == digits;
    BlanksSkipped(blanks, sign + digits);
  }

  /** Nothing else is a number. */
  lemma NumberHasForm(s: string) returns (blanks: string, sign: string, digits: string)
    requires WholeNumber(s).Some?
    ensures s == blanks + (sign + digits) && AllBlank(blanks) && IsSign(sign) && digits != "" && AllDigits(digits)
  {
    var t := SkipSpace(s);
    blanks := SkippedBlanks(s);
    if t[0] == '-' || t[0] == '+' {
      sign, digits := t[..1], t[1..];
    } else {
      sign, digits := "", t;
    }
    assert t == sign + digits;
  }

  lemma {:induction false} SkippedBlanks(s: string) returns (blanks: string)
    ensures s == blanks + SkipSpace(s) && AllBlank(blanks)
    decreases |s|
  {
    if s != "" && IsBlank(s[0]) {
      var rest := SkippedBlanks(s[1..]);
      blanks := [s[0]] + rest;
      assert s == [s[0]] + s[1..];
    } else {
      blanks := "";
      assert s == "" + s;
    }
  }

  /** Negative numbers wrap around as well: down to LONG_MIN by the same rule, and all below it like LONG_MIN, to 0.
      What becomes -1 in 32 bits is refused. */
  lemma {:induction false} NegativeIds(n: nat, digits: string, database: string -> Option<nat>)
    requires digits != "" && AllDigits(digits) && Value(digits) == n
    ensures var id := if n > 9223372036854775808 then 0 else (0 - n) % 4294967296;
            IdFrom("-" + digits, database) == if id == 4294967295 then None else Some(id)
  {
    SignedIsRead("", "-", digits);
    assert "" + ("-" + digits) == "-" + digits;
    assert (0 - 9223372036854775808) % 4294967296 == 0;
  }
}
