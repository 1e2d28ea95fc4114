/** The ACL parser as it works: on one buffer, in which it cuts out the pieces by overwriting the
    separators with terminators, filling a fixed-size table of entries. */
module AclParse {
  import opened Wrappers
  import opened Splitting
  import opened AclText

  const NUL := '\0'

  /** A string starts at `start` and is terminated at `end`. */
  ghost predicate StringAt(buf: seq<char>, start: nat, end: nat) {
    start <= end < |buf| && buf[end] == NUL && forall k | start <= k < end :: buf[k] != NUL
  }

  /** Positions `lo` to `hi` of the buffer hold what `s` has from `off` on. */
  ghost predicate Holds(buf: seq<char>, lo: nat, hi: nat, s: string, off: nat) {
    lo <= hi <= |buf| && off + (hi - lo) <= |s| && forall k | lo <= k < hi :: buf[k] == s[off + k - lo]
  }

  lemma HeldText(buf: seq<char>, lo: nat, hi: nat, s: string, off: nat)
    requires Holds(buf, lo, hi, s, off)
    ensures buf[lo..hi] == s[off..off + hi - lo]
  {
  }

  /** strchr: the first `c` in the string at `start`, or its terminator. */
  method Strchr(buf: array<char>, start: nat, c: char, ghost end: nat) returns (i: nat)
    requires StringAt(buf[..], start, end) && c != NUL
    ensures start <= i <= end && (buf[i] == NUL <==> i == end) && (i < end ==> buf[i] == c)
    ensures i - start == SeparatorFrom(buf[start..end], c, 0)
  {
    i := start;
    while buf[i] != NUL && buf[i] != c
      invariant start <= i <= end && forall k | start <= k < i :: buf[k] != c
      decreases end - i
    {
      i := i + 1;
    }
    SeparatorIs(buf[start..end], c, 0, i - start);
  }

  /** The string at `start`, as the library functions see it. */
  method TextAt(buf: array<char>, start: nat, ghost end: nat) returns (s: string)
    requires StringAt(buf[..], start, end)
    ensures s == buf[start..end]
  {
    s := "";
    var i := start;
    while buf[i] != NUL
      invariant start <= i <= end && s == buf[start..i]
      decreases end - i
    {
      s := s + [buf[i]];
      i := i + 1;
    }
  }

  method ParsePerms(buf: array<char>, start: nat, ghost end: nat) returns (r: Option<Perms>)
    requires StringAt(buf[..], start, end)
    ensures r == PermsFrom(NO_PERMS, buf[start..end])
  {
    var perms := NO_PERMS;
    var p := start;
    ghost var rest := buf[start..end];
    while buf[p] != NUL
      invariant start <= p <= end && rest == buf[p..end]
      invariant PermsFrom(perms, rest) == PermsFrom(NO_PERMS, buf[start..end])
      decreases end - p
    {
      var next := AddPerm(perms, buf[p]);
      if next.None? {
        return None;
      }
      perms := next.value;
      p := p + 1;
      rest := rest[1..];
    }
    return Some(perms);
  }

  /** The string at `start`, known to be a piece of `s`. */
  method HeldTextAt(buf: array<char>, start: nat, end: nat, ghost s: string, ghost off: nat) returns (text: string)
    requires StringAt(buf[..], start, end) && Holds(buf[..], start, end, s, off)
    ensures text == s[off..off + end - start]
  {
    text := TextAt(buf, start, end);
    HeldText(buf[..], start, end, s, off);
  }

  /** The permissions at `start`, known to be the last piece of `s`. */
  method HeldPermsAt(buf: array<char>, start: nat, ghost end: nat, ghost s: string, ghost off: nat)
    returns (r: Option<Perms>)
    requires StringAt(buf[..], start, end) && Holds(buf[..], start, end, s, off) && off + end - start == |s|
    ensures r == PermsFrom(NO_PERMS, s[off..])
  {
    r := ParsePerms(buf, start, end);
    HeldText(buf[..], start, end, s, off);
    assert s[off..off + end - start] == s[off..];
  }

  /** What follows the first colon, and what the parser then knows of the entry. */
  lemma SecondColon(s: string, colon1: nat, colon2: nat)
    requires colon1 < |s| && colon1 + 1 <= colon2 <= |s|
    requires colon2 - (colon1 + 1) == SeparatorFrom(s[colon1 + 1..], ':', 0)
    ensures SeparatorFrom(s, ':', colon1 + 1) == colon2
    ensures colon1 + 1 < colon2 <==> colon1 + 1 < |s| && s[colon1 + 1] != ':'
  {
    var t := s[colon1 + 1..];
    assert forall k | colon1 + 1 <= k < |s| :: s[k] == t[k - colon1 - 1];
    SeparatorIs(s, ':', colon1 + 1, colon2);
  }

  /** The buffer once the first colon has been overwritten. */
  lemma TagTerminated(before: seq<char>, after: seq<char>, start: nat, colon1: nat, end: nat, s: string)
    requires StringAt(before, start, end) && start <= colon1 < end && s == before[start..end]
    requires after == before[colon1 := NUL]
    ensures StringAt(after, start, colon1) && StringAt(after, colon1 + 1, end)
    ensures Holds(after, start, colon1, s, 0) && Holds(after, colon1 + 1, end, s, colon1 + 1 - start)
  {
  }

  /** Finds both colons of the entry `s` at `start` and terminates its tag text. */
  method FindColons(buf: array<char>, start: nat, ghost s: string, ghost end: nat)
    returns (found: bool, hasQual: bool, colon1: nat, colon2: nat)
    requires StringAt(buf[..], start, end) && s == buf[start..end]
    modifies buf
    ensures forall k | 0 <= k < buf.Length && !(start <= k < end) :: buf[k] == old(buf[k])
    ensures !found ==> SeparatorFrom(s, ':', 0) == |s|
    ensures found ==>
              && start <= colon1 < colon2 <= end && (hasQual <==> colon1 + 1 < colon2)
              && SeparatorFrom(s, ':', 0) == colon1 - start
              && SeparatorFrom(s, ':', colon1 - start + 1) == colon2 - start
              && StringAt(buf[..], start, colon1) && StringAt(buf[..], colon1 + 1, end)
              && Holds(buf[..], start, colon1, s, 0) && Holds(buf[..], colon1 + 1, end, s, colon1 + 1 - start)
  {
    ghost var before := buf[..];
    colon1 := Strchr(buf, start, ':', end);
    colon2, hasQual := colon1, false;
    found := buf[colon1] != NUL;
    if found {
      hasQual := buf[colon1 + 1] != NUL && buf[colon1 + 1] != ':';
      buf[colon1] := NUL;
      TagTerminated(before, buf[..], start, colon1, end, s);
      colon2 := FindSecondColon(buf, start, colon1, s, end);
    }
  }

  method FindSecondColon(buf: array<char>, start: nat, colon1: nat, ghost s: string, ghost end: nat)
    returns (colon2: nat)
    requires start <= colon1 < end && |s| == end - start
    requires StringAt(buf[..], colon1 + 1, end) && Holds(buf[..], colon1 + 1, end, s, colon1 + 1 - start)
    ensures colon1 < colon2 <= end && SeparatorFrom(s, ':', colon1 - start + 1) == colon2 - start
    ensures colon1 + 1 < colon2 <==> colon1 + 1 < end && s[colon1 + 1 - start] != ':'
  {
    colon2 := Strchr(buf, colon1 + 1, ':', end);
    HeldText(buf[..], colon1 + 1, end, s, colon1 + 1 - start);
    assert s[colon1 + 1 - start..end - start] == s[colon1 - start + 1..];
    SecondColon(s, colon1 - start, colon2 - start);
  }

  /** Reads the qualifier and the permissions of an entry whose tag text has been terminated. */
  method ReadRest(buf: array<char>, start: nat, colon1: nat, colon2: nat, hasPerms: bool, tag: Tag, names: Names,
                  ghost s: string, ghost end: nat) returns (r: Option<Entry>)
    requires start <= colon1 < colon2 <= end && |s| == end - start && hasPerms == (colon2 + 1 < end)
    requires StringAt(buf[..], colon1 + 1, end) && Holds(buf[..], colon1 + 1, end, s, colon1 + 1 - start)
    modifies buf
    ensures r == EntryWithTag(s, colon1 - start, colon2 - start, tag, names)
    ensures forall k | 0 <= k < buf.Length && (k == end || k != colon2) :: buf[k] == old(buf[k])
  {
    if buf[colon2] != NUL {
      buf[colon2] := NUL;
    }
    var qualText := HeldTextAt(buf, colon1 + 1, colon2, s, colon1 + 1 - start);
    var qual := QualFor(tag, qualText, names);
    if qual.None? {
      return None;
    }
    if !hasPerms {
      return Some(Entry(tag, qual.value, None));
    }
    var perms := HeldPermsAt(buf, colon2 + 1, end, s, colon2 + 1 - start);
    if perms.None? {
      return None;
    }
    return Some(Entry(tag, qual.value, perms));
  }

  /** Reads the tag, the qualifier and the permissions of an entry whose tag text has been terminated. */
  method ReadParts(buf: array<char>, start: nat, colon1: nat, colon2: nat, hasQual: bool, hasPerms: bool, names: Names,
                   ghost s: string, ghost end: nat) returns (r: Option<Entry>)
    requires start <= colon1 < colon2 <= end && |s| == end - start && hasQual == (colon1 + 1 < colon2)
    requires StringAt(buf[..], start, colon1) && StringAt(buf[..], colon1 + 1, end) && hasPerms == (colon2 + 1 < end)
    requires Holds(buf[..], start, colon1, s, 0) && Holds(buf[..], colon1 + 1, end, s, colon1 + 1 - start)
    modifies buf
    ensures r == EntryFrom(s, colon1 - start, colon2 - start, names)
    ensures forall k | 0 <= k < buf.Length && (k == end || k != colon2) :: buf[k] == old(buf[k])
  {
    var tagText := HeldTextAt(buf, start, colon1, s, 0);
    var tag := TagFor(tagText, hasQual);
    if tag.None? {
      return None;
    }
    r := ReadRest(buf, start, colon1, colon2, hasPerms, tag.value, names, s, end);
  }

  /** What is read once both colons are known. */
  ghost predicate Reads(r: Option<Entry>, s: string, colon1: nat, colon2: nat, permsReqd: bool, names: Names)
    requires colon1 < colon2 <= |s|
  {
    r == if (colon2 + 1 < |s|) != permsReqd then None else EntryFrom(s, colon1, colon2, names)
  }

  /** What the parser does without a colon, and once it knows both. */
  lemma BetweenColons(s: string, colon1: nat, colon2: nat, permsReqd: bool, names: Names, r: Option<Entry>)
    requires SeparatorFrom(s, ':', 0) == colon1
    requires colon1 == |s| ==> r == None
    requires colon1 < |s| ==>
               && colon1 < colon2 <= |s| && SeparatorFrom(s, ':', colon1 + 1) == colon2
               && Reads(r, s, colon1, colon2, permsReqd, names)
    ensures r == ParseEntry(s, permsReqd, names)
  {
  }

  /** Parses the entry at `start`, cutting it up in place; nothing outside it is touched. */
  method ParseEntrySpec(buf: array<char>, start: nat, permsReqd: bool, names: Names, ghost end: nat)
    returns (r: Option<Entry>)
    requires StringAt(buf[..], start, end)
    modifies buf
    ensures r == ParseEntry(old(buf[start..end]), permsReqd, names)
    ensures forall k | 0 <= k < buf.Length && !(start <= k < end) :: buf[k] == old(buf[k])
  {
    ghost var s, c1, c2 := buf[start..end], 0, 0;
    r, c1, c2 := ParseText(buf, start, permsReqd, names, s, end);
    BetweenColons(s, c1, c2, permsReqd, names, r);
  }

  /** The same, with the two colons at `c1` and `c2`. */
  method ParseText(buf: array<char>, start: nat, permsReqd: bool, names: Names, ghost s: string, ghost end: nat)
    returns (r: Option<Entry>, ghost c1: nat, ghost c2: nat)
    requires StringAt(buf[..], start, end) && s == buf[start..end]
    modifies buf
    ensures SeparatorFrom(s, ':', 0) == c1 && (c1 == |s| ==> r == None)
    ensures c1 < |s| ==> c1 < c2 <= |s| && SeparatorFrom(s, ':', c1 + 1) == c2 && Reads(r, s, c1, c2, permsReqd, names)
    ensures forall k | 0 <= k < buf.Length && !(start <= k < end) :: buf[k] == old(buf[k])
  {
    var found, hasQual, colon1, colon2 := FindColons(buf, start, s, end);
    if !found {
      return None, |s|, |s|;
    }
    c1, c2 := colon1 - start, colon2 - start;
    r := ReadEntry(buf, start, colon1, colon2, hasQual, permsReqd, names, s, end, c1, c2);
  }

  /** Checks whether there are permissions, and reads the entry. */
  method ReadEntry(buf: array<char>, start: nat, colon1: nat, colon2: nat, hasQual: bool, permsReqd: bool, names: Names,
                   ghost s: string, ghost end: nat, ghost c1: nat, ghost c2: nat) returns (r: Option<Entry>)
    requires start <= colon1 < colon2 <= end && |s| == end - start && hasQual == (colon1 + 1 < colon2)
    requires c1 == colon1 - start && c2 == colon2 - start
    requires StringAt(buf[..], start, colon1) && StringAt(buf[..], colon1 + 1, end)
    requires Holds(buf[..], start, colon1, s, 0) && Holds(buf[..], colon1 + 1, end, s, colon1 + 1 - start)
    modifies buf
    ensures Reads(r, s, c1, c2, permsReqd, names)
    ensures forall k | 0 <= k < buf.Length && !(start <= k < end) :: buf[k] == old(buf[k])
  {
    var hasPerms := buf[colon2] != NUL && buf[colon2 + 1] != NUL;
    if hasPerms != permsReqd {
      return None;
    }
    r := ReadParts(buf, start, colon1, colon2, hasQual, hasPerms, names, s, end);
  }

  // ----- the list -----

  /** `done` has been parsed and `texts` is left: together they decide the result. */
  ghost predicate Decides(result: Option<seq<Entry>>, done: seq<Entry>, texts: seq<string>, permsReqd: bool,
                          names: Names) {
    result == match ParseAll(texts, permsReqd, names) { case None => None case Some(es) => Some(done + es) }
  }

  lemma DecidesNext(result: Option<seq<Entry>>, done: seq<Entry>, texts: seq<string>, permsReqd: bool, names: Names,
                    e: Option<Entry>)
    requires texts != [] && Decides(result, done, texts, permsReqd, names)
    requires e == ParseEntry(texts[0], permsReqd, names)
    ensures match e
            case None => result == None
            case Some(entry) => Decides(result, done + [entry], texts[1..], permsReqd, names)
  {
    if e.Some? && ParseAll(texts[1..], permsReqd, names).Some? {
      var es := ParseAll(texts[1..], permsReqd, names).value;
      assert done + ([e.value] + es) == done + [e.value] + es;
    }
  }

  /** The texts from `i` on: the first ends at the next comma, if there is one. */
  lemma NextText(s: string, i: nat, comma: nat, texts: seq<string>)
    requires Left(s, false, i, texts) && i <= comma <= |s| && comma - i == SeparatorFrom(s[i..], ',', 0)
    ensures texts != [] && texts[0] == s[i..comma] && Left(s, comma == |s|, comma + 1, texts[1..])
  {
    SeparatorShifts(s, i, s[i..], comma);
    FirstText(s, i, comma, texts);
  }

  lemma FirstText(s: string, i: nat, comma: nat, texts: seq<string>)
    requires i <= comma <= |s| && SeparatorFrom(s, ',', i) == comma && texts == Fields(s, ',', i)
    ensures texts != [] && texts[0] == s[i..comma] && Left(s, comma == |s|, comma + 1, texts[1..])
  {
    FirstField(s, ',', i, texts);
  }

  lemma SeparatorShifts(s: string, i: nat, t: string, comma: nat)
    requires i <= comma <= |s| && t == s[i..] && comma - i == SeparatorFrom(t, ',', 0)
    ensures SeparatorFrom(s, ',', i) == comma
  {
    assert forall k | i <= k < |s| :: s[k] == t[k - i];
    SeparatorIs(s, ',', i, comma);
  }

  /** Terminates the entry at `start` at the next comma and parses it. */
  method NextEntry(buf: array<char>, start: nat, permsReqd: bool, names: Names, ghost s: string, ghost end: nat,
                   ghost texts: seq<string>)
    returns (entry: Option<Entry>, next: nat, last: bool)
    requires StringAt(buf[..], start, end) && |s| == end && Holds(buf[..], start, end, s, start)
    requires Left(s, false, start, texts)
    modifies buf
    ensures start < next && texts != [] && Left(s, last, next, texts[1..])
    ensures entry == ParseEntry(texts[0], permsReqd, names)
    ensures !last ==> StringAt(buf[..], next, end) && Holds(buf[..], next, end, s, next)
  {
    var comma := NextComma(buf, start, s, end, texts);
    last := buf[comma] == NUL;
    Terminate(buf, start, comma, s, end);
    entry := ParseEntrySpec(buf, start, permsReqd, names, comma);
    next := comma + 1;
  }

  /** Puts a terminator where the entry at `start` ends. */
  method Terminate(buf: array<char>, start: nat, comma: nat, ghost s: string, ghost end: nat)
    requires StringAt(buf[..], start, end) && |s| == end && Holds(buf[..], start, end, s, start)
    requires start <= comma <= end
    modifies buf
    ensures StringAt(buf[..], start, comma) && buf[start..comma] == s[start..comma]
    ensures forall k | comma < k < buf.Length :: buf[k] == old(buf[k])
  {
    buf[comma] := NUL;
    HeldText(buf[..], start, comma, s, start);
  }

  /** The comma that ends the entry at `start`, or the end of the text. */
  method NextComma(buf: array<char>, start: nat, ghost s: string, ghost end: nat, ghost texts: seq<string>)
    returns (comma: nat)
    requires StringAt(buf[..], start, end) && |s| == end && Holds(buf[..], start, end, s, start)
    requires Left(s, false, start, texts)
    ensures start <= comma <= end && (buf[comma] == NUL <==> comma == end)
    ensures texts != [] && texts[0] == s[start..comma] && Left(s, comma == end, comma + 1, texts[1..])
  {
    comma := Strchr(buf, start, ',', end);
    HeldText(buf[..], start, end, s, start);
    assert s[start..end] == s[start..];
    NextText(s, start, comma, texts);
  }

  lemma AllDone(result: Option<seq<Entry>>, done: seq<Entry>, permsReqd: bool, names: Names)
    requires Decides(result, done, [], permsReqd, names)
    ensures result == Some(done)
  {
    assert done + [] == done;
  }

  /** Parses the text in `buf` into `aclist`; the number of entries, or -1 for a bad text. */
  method ParseACL(buf: array<char>, aclist: array<Entry>, permsReqd: bool, names: Names, ghost end: nat)
    returns (cnt: int)
    requires StringAt(buf[..], 0, end) && aclist.Length == MAX_ENTRIES
    modifies buf, aclist
    ensures match ParseAcl(old(buf[..end]), permsReqd, names)
            case None => cnt == -1
            case Some(es) => 0 <= cnt <= MAX_ENTRIES && aclist[..cnt] == es
  {
    ghost var s := buf[..end];
    ghost var all := Fields(s, ',', 0);
    ghost var result := ParseAll(all, permsReqd, names);
    assert result.Some? ==> [] + result.value == result.value;
    cnt := ParseTexts(buf, aclist, permsReqd, names, s, end, all, result);
  }

  /** The loop over the entries. */
  method ParseTexts(buf: array<char>, aclist: array<Entry>, permsReqd: bool, names: Names,
                    ghost s: string, ghost end: nat, ghost all: seq<string>, ghost result: Option<seq<Entry>>)
    returns (cnt: int)
    requires StringAt(buf[..], 0, end) && aclist.Length == MAX_ENTRIES && |s| == end && Holds(buf[..], 0, end, s, 0)
    requires Left(s, false, 0, all) && Decides(result, [], all, permsReqd, names)
    modifies buf, aclist
    ensures if |all| > MAX_ENTRIES || result.None? then cnt == -1
            else 0 <= cnt <= MAX_ENTRIES && result == Some(aclist[..cnt])
  {
    var nextEntry, n, last := 0, 0, false;
    ghost var texts, done := all, [];
    while !last
      invariant n <= MAX_ENTRIES && |all| == n + |texts| && done == aclist[..n]
      invariant !last ==> StringAt(buf[..], nextEntry, end) && Holds(buf[..], nextEntry, end, s, nextEntry)
      invariant Left(s, last, nextEntry, texts) && Decides(result, done, texts, permsReqd, names)
      decreases !last, end - nextEntry
    {
      if n >= MAX_ENTRIES {
        FieldsStep(s, ',', nextEntry);
        return -1;
      }
      var entry;
      entry, nextEntry, last := NextEntry(buf, nextEntry, permsReqd, names, s, end, texts);
      DecidesNext(result, done, texts, permsReqd, names, entry);
      if entry.None? {
        return -1;
      }
      aclist[n] := entry.value;
      texts, done, n := texts[1..], done + [entry.value], n + 1;
    }
    AllDone(result, done, permsReqd, names);
    return n;
  }

  /** The texts not parsed yet. */
  ghost predicate Left(s: string, last: bool, nextEntry: nat, texts: seq<string>) {
    if last then texts == [] else nextEntry <= |s| && texts == Fields(s, ',', nextEntry)
  }
}
