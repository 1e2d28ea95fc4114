/** The text form of an access control list: what the parser accepts, and that it reads back
    whatever is printed. */
module AclText {
  import opened Wrappers
  import opened Splitting

  const MAX_ENTRIES := 10000
  const TWO_32 := 0x1_0000_0000
  const LONG_MAX := 0x7fff_ffff_ffff_ffff

  datatype Tag = UserObj | User | GroupObj | Group | Mask | Other

  datatype Perms = Perms(read: bool, write: bool, execute: bool)

  const NO_PERMS := Perms(false, false, false)

  /** A parsed entry; there are no permissions in an entry to be removed. */
  datatype Entry = Entry(tag: Tag, qual: nat, perms: Option<Perms>)

  /** The user and group databases. */
  datatype Names = Names(users: string -> Option<nat>, groups: string -> Option<nat>)

  // ----- numbers -----

  predicate IsDigit(c: char) {
    '0' <= c <= '9'
  }

  /** What strtol skips before a number. */
  predicate IsBlank(c: char) {
    c == ' ' || '\t' <= c <= '\r'
  }

  predicate AllDigits(s: string) {
    forall i | 0 <= i < |s| :: IsDigit(s[i])
  }

  function Value(digits: string): nat
    requires AllDigits(digits)
  {
    if digits == "" then 0
    else
      var n := |digits| - 1;
      assert IsDigit(digits[n]);
      10 * Value(digits[..n]) + (digits[n] as int - '0' as int)
  }

  function SkipSpace(s: string): string {
    if s != "" && IsBlank(s[0]) then SkipSpace(s[1..]) else s
  }

  function Clamp(n: int): int {
    if n > LONG_MAX then LONG_MAX else if n < -LONG_MAX - 1 then -LONG_MAX - 1 else n
  }

  /** strtol in base 10, if it uses up the whole string. */
  function WholeNumber(s: string): Option<int> {
    var t := SkipSpace(s);
    var negative := t != "" && t[0] == '-';
    var digits := if t != "" && (t[0] == '-' || t[0] == '+') then t[1..] else t;
    if digits == "" || !AllDigits(digits) then None
    else
      var value: int := Value(digits);
      Some(Clamp(if negative then -value else value))
  }

  /** The identifier for a name or a number. The conversion to a 32-bit type wraps around, and
      the value that is -1 in that type counts as an error. */
  function IdFrom(s: string, database: string -> Option<nat>): Option<nat> {
    if s == "" then None
    else
      var id := match WholeNumber(s)
                case Some(n) => Some(n % TWO_32)
                case None => database(s);
      if id == Some(TWO_32 - 1) then None else id
  }

  // ----- one entry -----

  function AddPerm(perms: Perms, c: char): Option<Perms> {
    if c == 'r' then Some(perms.(read := true))
    else if c == 'w' then Some(perms.(write := true))
    else if c == 'x' then Some(perms.(execute := true))
    else if c == '-' then Some(perms)
    else None
  }

  function PermsFrom(perms: Perms, s: string): Option<Perms>
    decreases |s|
  {
    if s == "" then Some(perms)
    else
      match AddPerm(perms, s[0])
      case None => None
      case Some(p) => PermsFrom(p, s[1..])
  }

  /** The tag for a tag text; a qualifier makes an owner into a named user or group. */
  function TagFor(text: string, hasQual: bool): Option<Tag> {
    if text == "u" || text == "user" then Some(if hasQual then User else UserObj)
    else if text == "g" || text == "group" then Some(if hasQual then Group else GroupObj)
    else if text == "o" || text == "other" then Some(Other)
    else if text == "m" || text == "mask" then Some(Mask)
    else None
  }

  function QualFor(tag: Tag, text: string, names: Names): Option<nat> {
    match tag
    case User => IdFrom(text, names.users)
    case Group => IdFrom(text, names.groups)
    case _ => Some(0)
  }

  /** The entry in `s`, given its first colon and its second one, or the end. */
  function EntryFrom(s: string, colon1: nat, colon2: nat, names: Names): Option<Entry>
    requires colon1 < colon2 <= |s|
  {
    match TagFor(s[..colon1], colon1 + 1 < colon2)
    case None => None
    case Some(tag) => EntryWithTag(s, colon1, colon2, tag, names)
  }

  function EntryWithTag(s: string, colon1: nat, colon2: nat, tag: Tag, names: Names): Option<Entry>
    requires colon1 < colon2 <= |s|
  {
    match QualFor(tag, s[colon1 + 1..colon2], names)
    case None => None
    case Some(qual) =>
      if colon2 + 1 >= |s| then Some(Entry(tag, qual, None))
      else
        match PermsFrom(NO_PERMS, s[colon2 + 1..])
        case None => None
        case Some(perms) => Some(Entry(tag, qual, Some(perms)))
  }

  /** One entry of the form tag:[qualifier][:[permissions]]. */
  function ParseEntry(s: string, permsReqd: bool, names: Names): Option<Entry> {
    var colon1 := SeparatorFrom(s, ':', 0);
    if colon1 == |s| then None
    else
      var colon2 := SeparatorFrom(s, ':', colon1 + 1);
      if (colon2 + 1 < |s|) != permsReqd then None else EntryFrom(s, colon1, colon2, names)
  }

  // ----- a list of entries -----

  function ParseAll(texts: seq<string>, permsReqd: bool, names: Names): Option<seq<Entry>> {
    if texts == [] then Some([])
    else
      match ParseEntry(texts[0], permsReqd, names)
      case None => None
      case Some(e) =>
        match ParseAll(texts[1..], permsReqd, names)
        case None => None
        case Some(es) => Some([e] + es)
  }

  /** Comma-separated entries, at most 10000 of them. */
  function ParseAcl(s: string, permsReqd: bool, names: Names): Option<seq<Entry>> {
    var texts := Fields(s, ',', 0);
    if |texts| > MAX_ENTRIES then None else ParseAll(texts, permsReqd, names)
  }

  // ----- printing -----

  function Digit(d: nat): char
    requires d < 10
  {
    ('0' as int + d) as char
  }

  function Decimal(n: nat): string {
    if n < 10 then [Digit(n)] else Decimal(n / 10) + [Digit(n % 10)]
  }

  function TagText(tag: Tag): string {
    match tag
    case UserObj => "u"
    case User => "u"
    case GroupObj => "g"
    case Group => "g"
    case Mask => "m"
    case Other => "o"
  }

  predicate Named(tag: Tag) {
    tag == User || tag == Group
  }

  function PermsText(p: Perms): string {
    [if p.read then 'r' else '-', if p.write then 'w' else '-', if p.execute then 'x' else '-']
  }

  function QualText(e: Entry): string {
    if Named(e.tag) then Decimal(e.qual) else ""
  }

  function PrintEntry(e: Entry): string {
    TagText(e.tag) + ":" + QualText(e) + if e.perms.Some? then ":" + PermsText(e.perms.value) else ""
  }

  function PrintAll(es: seq<Entry>): seq<string> {
    if es == [] then [] else [PrintEntry(es[0])] + PrintAll(es[1..])
  }

  lemma {:induction false} PrintAllLength(es: seq<Entry>)
    ensures |PrintAll(es)| == |es|
    decreases |es|
  {
    if es != [] {
      PrintAllLength(es[1..]);
    }
  }

  function PrintAcl(es: seq<Entry>): string
    requires es != []
  {
    PrintAllLength(es);
    Joined(PrintAll(es), ',')
  }

  /** An entry the parser can produce: identifiers in range, and none where there is no name. */
  predicate Printable(e: Entry, permsReqd: bool) {
    && (if Named(e.tag) then e.qual < TWO_32 - 1 else e.qual == 0)
    && e.perms.Some? == permsReqd
  }

  predicate AllPrintable(es: seq<Entry>, permsReqd: bool) {
    forall i | 0 <= i < |es| :: Printable(es[i], permsReqd)
  }

  // ----- reading back -----

  lemma {:induction false} DecimalReadsBack(n: nat)
    ensures AllDigits(Decimal(n)) && Decimal(n) != "" && Value(Decimal(n)) == n
    decreases n
  {
    if n < 10 {
      assert [Digit(n)][..0] == "";
    } else {
      DecimalReadsBack(n / 10);
      var s := Decimal(n);
      assert s[..|s| - 1] == Decimal(n / 10) && s[|s| - 1] == Digit(n % 10);
    }
  }

  lemma DigitsAreNumber(s: string)
    requires s != "" && AllDigits(s)
    ensures WholeNumber(s) == Some(Clamp(Value(s)))
  {
    assert IsDigit(s[0]);
    assert SkipSpace(s) == s;
  }

  /** What is left of a number: above LONG_MAX it is clamped to it, the conversion to 32 bits wraps
      around, and what becomes -1 there is refused. */
  function Narrowed(n: nat): Option<nat> {
    var id := (if n > LONG_MAX then LONG_MAX else n) % TWO_32;
    if id == TWO_32 - 1 then None else Some(id)
  }

  /** Range by range: itself, refused, wrapped around, and refused. */
  lemma {:induction false} NarrowedRanges(n: nat)
    ensures Narrowed(n) == Some(n) <==> n < 4294967295
    ensures Narrowed(n) == None <==> n > 9223372036854775807 || n % 4294967296 == 4294967295
    ensures 4294967296 <= n <= 9223372036854775807 && n % 4294967296 != 4294967295 ==>
              Narrowed(n) == Some(n % 4294967296)
  {
    assert LONG_MAX % TWO_32 == TWO_32 - 1;
    if n < TWO_32 {
      assert n % TWO_32 == n;
    }
  }

  /** A decimal number is read as what is left of it, whatever the database holds. */
  lemma {:induction false} NumberIsReadAs(n: nat, database: string -> Option<nat>)
    ensures IdFrom(Decimal(n), database) == Narrowed(n)
  {
    DecimalReadsBack(n);
    ReadAs(Decimal(n), n, database);
  }

  lemma ReadAs(s: string, n: nat, database: string -> Option<nat>)
    requires s != "" && AllDigits(s) && Value(s) == n
    ensures IdFrom(s, database) == Narrowed(n)
  {
    DigitsAreNumber(s);
  }

  /** A decimal identifier stands for itself exactly if it is below 2^32 - 1. */
  lemma {:induction false} NumberIsItsId(n: nat, database: string -> Option<nat>)
    ensures IdFrom(Decimal(n), database) == Some(n) <==> n < TWO_32 - 1
  {
    NumberIsReadAs(n, database);
    NarrowedRanges(n);
  }

  lemma NextDigit(n: nat, init: string)
    requires n >= 10 && Decimal(n / 10) == init
    ensures Decimal(n) == init + [Digit(n % 10)]
  {
  }

  lemma DecimalOfTwo32()
    ensures Decimal(4294967295) == "4294967295" && Decimal(4294967296) == "4294967296"
  {
    assert Decimal(42949) == "42949";
    NextDigit(429496, "42949");
    NextDigit(4294967, "429496");
    NextDigit(42949672, "4294967");
    NextDigit(429496729, "42949672");
    NextDigit(4294967295, "429496729");
    NextDigit(4294967296, "429496729");
  }

  /** The smallest number that is refused and the smallest that is read as another one. */
  lemma {:induction false} NumbersNotTheirIds(database: string -> Option<nat>)
    ensures IdFrom("4294967295", database) == None && IdFrom("4294967296", database) == Some(0)
  {
    DecimalOfTwo32();
    NumberIsReadAs(4294967295, database);
    NumberIsReadAs(4294967296, database);
    assert Narrowed(4294967295) == None && Narrowed(4294967296) == Some(0);
  }

  lemma PermsReadBack(p: Perms)
    ensures PermsFrom(NO_PERMS, PermsText(p)) == Some(p)
  {
    var s := PermsText(p);
    var a := NO_PERMS.(read := p.read);
    var b := a.(write := p.write);
    assert s[1..] == [s[1], s[2]] && s[1..][1..] == [s[2]] && s[1..][1..][1..] == "";
    assert PermsFrom(NO_PERMS, s) == PermsFrom(a, s[1..]) == PermsFrom(b, s[1..][1..])
           == PermsFrom(p, s[1..][1..][1..]);
  }

  /** The separator found is the first one. */
  lemma {:induction false} SeparatorIs(s: string, sep: char, i: nat, j: nat)
    requires i <= j <= |s| && (j < |s| ==> s[j] == sep) && forall k | i <= k < j :: s[k] != sep
    ensures SeparatorFrom(s, sep, i) == j
  {
  }

  lemma PlainText(e: Entry)
    ensures ':' !in QualText(e) && ',' !in QualText(e) && (QualText(e) == "" <==> !Named(e.tag))
  {
    if Named(e.tag) {
      DecimalReadsBack(e.qual);
      assert forall i | 0 <= i < |Decimal(e.qual)| :: IsDigit(Decimal(e.qual)[i]);
    }
  }

  /** Where the colons of a printed entry are. */
  lemma PrintedColons(t: string, q: string, p: string)
    requires ':' !in t && ':' !in q
    ensures var s := t + ":" + q + p;
            && SeparatorFrom(s, ':', 0) == |t| && s[..|t|] == t
            && (p == "" ==> SeparatorFrom(s, ':', |t| + 1) == |s| && s[|t| + 1..] == q)
            && (p != "" && p[0] == ':' ==>
                  && SeparatorFrom(s, ':', |t| + 1) == |t| + 1 + |q|
                  && s[|t| + 1..|t| + 1 + |q|] == q && s[|t| + 1 + |q| + 1..] == p[1..])
  {
    var s := t + ":" + q + p;
    assert forall k | 0 <= k < |t| :: s[k] == t[k];
    assert forall k | |t| + 1 <= k < |t| + 1 + |q| :: s[k] == q[k - |t| - 1];
    SeparatorIs(s, ':', 0, |t|);
    if p == "" {
      SeparatorIs(s, ':', |t| + 1, |s|);
    } else if p[0] == ':' {
      SeparatorIs(s, ':', |t| + 1, |t| + 1 + |q|);
    }
  }

  /** What the parser makes of a text put together from three parts. */
  lemma PartsRead(t: string, q: string, p: string, tag: Tag, perms: Option<Perms>, permsReqd: bool, names: Names)
    requires ':' !in t && ':' !in q && TagFor(t, q != "") == Some(tag)
    requires if perms.None? then p == ""
             else |p| > 1 && p[0] == ':' && PermsFrom(NO_PERMS, p[1..]) == perms
    ensures ParseEntry(t + ":" + q + p, permsReqd, names) ==
            if perms.Some? != permsReqd then None
            else match QualFor(tag, q, names) { case None => None case Some(qual) => Some(Entry(tag, qual, perms)) }
  {
    PrintedColons(t, q, p);
    var s := t + ":" + q + p;
    if p == "" {
      assert s[|t| + 1..|s|] == s[|t| + 1..];
    }
  }

  /** What the parser makes of any printed entry. */
  lemma PrintedIsRead(e: Entry, permsReqd: bool, names: Names)
    ensures ParseEntry(PrintEntry(e), permsReqd, names) ==
            if e.perms.Some? != permsReqd then None
            else match QualFor(e.tag, QualText(e), names)
                 case None => None
                 case Some(qual) => Some(Entry(e.tag, qual, e.perms))
  {
    var p := if e.perms.Some? then ":" + PermsText(e.perms.value) else "";
    PlainText(e);
    if e.perms.Some? {
      PermsReadBack(e.perms.value);
      assert p[1..] == PermsText(e.perms.value);
    }
    PartsRead(TagText(e.tag), QualText(e), p, e.tag, e.perms, permsReqd, names);
  }

  /** A printed entry is read back as it was exactly if it is printable: a named user or group has an
      identifier below 2^32 - 1. */
  lemma EntryReadsBack(e: Entry, permsReqd: bool, names: Names)
    ensures ParseEntry(PrintEntry(e), permsReqd, names) == Some(e) <==> Printable(e, permsReqd)
  {
    PrintedIsRead(e, permsReqd, names);
    if Named(e.tag) {
      NumberIsItsId(e.qual, if e.tag == User then names.users else names.groups);
    }
  }

  /** For whom a printed entry for a named user or group is read, if it is read at all. */
  lemma NamedIsReadAs(e: Entry, names: Names)
    requires Named(e.tag)
    ensures ParseEntry(PrintEntry(e), e.perms.Some?, names) ==
            match Narrowed(e.qual) { case None => None case Some(id) => Some(e.(qual := id)) }
  {
    PrintedIsRead(e, e.perms.Some?, names);
    NumberIsReadAs(e.qual, if e.tag == User then names.users else names.groups);
  }

  lemma {:induction false} PrintedSeparated(es: seq<Entry>)
    ensures Separated(PrintAll(es), ',')
    decreases |es|
  {
    if es != [] {
      PlainText(es[0]);
      PrintedSeparated(es[1..]);
    }
  }

  lemma {:induction false} AllReadBack(es: seq<Entry>, permsReqd: bool, names: Names)
    ensures ParseAll(PrintAll(es), permsReqd, names) == Some(es) <==> AllPrintable(es, permsReqd)
    decreases |es|
  {
    if es != [] {
      AllReadBack(es[1..], permsReqd, names);
      EntryReadsBack(es[0], permsReqd, names);
      ParseAllCons(PrintEntry(es[0]), PrintAll(es[1..]), permsReqd, names);
      PrintableCons(es[0], es[1..], es, permsReqd);
      SameCons(es, ParseEntry(PrintEntry(es[0]), permsReqd, names), ParseAll(PrintAll(es[1..]), permsReqd, names));
    }
  }

  lemma PrintableCons(e: Entry, rest: seq<Entry>, es: seq<Entry>, permsReqd: bool)
    requires es == [e] + rest
    ensures AllPrintable(es, permsReqd) <==> Printable(e, permsReqd) && AllPrintable(rest, permsReqd)
  {
    assert es[0] == e && forall i | 0 <= i < |rest| :: rest[i] == es[i + 1];
  }

  lemma SameCons(es: seq<Entry>, e: Option<Entry>, rest: Option<seq<Entry>>)
    requires es != []
    ensures (if e.Some? && rest.Some? then Some([e.value] + rest.value) else None) == Some(es) <==>
            e == Some(es[0]) && rest == Some(es[1..])
  {
    assert es == [es[0]] + es[1..];
    assert rest.Some? && e.Some? ==> ([e.value] + rest.value)[1..] == rest.value;
  }

  lemma ParseAllCons(text: string, texts: seq<string>, permsReqd: bool, names: Names)
    ensures ParseAll([text] + texts, permsReqd, names) ==
            var e, es := ParseEntry(text, permsReqd, names), ParseAll(texts, permsReqd, names);
            if e.Some? && es.Some? then Some([e.value] + es.value) else None
  {
    assert ([text] + texts)[1..] == texts;
  }

  /** The round trip: printing a list of entries and parsing the text gives the same list exactly if there
      are at most 10000 entries and each is printable. */
  lemma AclReadsBack(es: seq<Entry>, permsReqd: bool, names: Names)
    requires es != []
    ensures ParseAcl(PrintAcl(es), permsReqd, names) == Some(es) <==>
            |es| <= 10000 && AllPrintable(es, permsReqd)
  {
    PrintAllLength(es);
    AllReadBack(es, permsReqd, names);
    PrintedSeparated(es);
    var s := PrintAcl(es);
    FieldsSplit(s, ',', 0, Fields(s, ',', 0));
    assert s[0..] == s;
    SplitIsUnique(Fields(s, ',', 0), PrintAll(es), ',', s);
  }

  /** A parsed entry has permissions exactly if they are required. */
  lemma ParsedPerms(s: string, permsReqd: bool, names: Names)
    ensures ParseEntry(s, permsReqd, names).Some? ==>
              ParseEntry(s, permsReqd, names).value.perms.Some? == permsReqd
  {
  }

  lemma {:induction false} AllParsedPerms(texts: seq<string>, permsReqd: bool, names: Names)
    ensures var r := ParseAll(texts, permsReqd, names);
            r.Some? ==> forall e | e in r.value :: e.perms.Some? == permsReqd
    decreases |texts|
  {
    if texts != [] {
      ParsedPerms(texts[0], permsReqd, names);
      AllParsedPerms(texts[1..], permsReqd, names);
    }
  }

  // ----- printing what was read -----

  /** The databases hold 32-bit identifiers. */
  ghost predicate WideEnough(names: Names) {
    && (forall s :: names.users(s).Some? ==> names.users(s).value < TWO_32)
    && (forall s :: names.groups(s).Some? ==> names.groups(s).value < TWO_32)
  }

  /** The parser yields only printable entries. */
  lemma ParsedIsPrintable(s: string, permsReqd: bool, names: Names)
    requires WideEnough(names)
    ensures ParseEntry(s, permsReqd, names).Some? ==> Printable(ParseEntry(s, permsReqd, names).value, permsReqd)
  {
  }

  lemma {:induction false} AllParsedPrintable(texts: seq<string>, permsReqd: bool, names: Names)
    requires WideEnough(names)
    ensures var r := ParseAll(texts, permsReqd, names);
            r.Some? ==> |r.value| == |texts| && AllPrintable(r.value, permsReqd)
    decreases |texts|
  {
    if texts != [] {
      ParsedIsPrintable(texts[0], permsReqd, names);
      AllParsedPrintable(texts[1..], permsReqd, names);
    }
  }

  /** The other round trip: an accepted text, printed and parsed again, gives the same list. */
  lemma AcceptedReadsBack(s: string, permsReqd: bool, names: Names)
    requires WideEnough(names) && ParseAcl(s, permsReqd, names).Some?
    ensures var es := ParseAcl(s, permsReqd, names).value;
            es != [] && ParseAcl(PrintAcl(es), permsReqd, names) == Some(es)
  {
    AllParsedPrintable(Fields(s, ',', 0), permsReqd, names);
    AclReadsBack(ParseAcl(s, permsReqd, names).value, permsReqd, names);
  }
}
