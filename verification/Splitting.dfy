/** Splitting a string at a separator character, as the PATH search and the ACL parser do. */
module Splitting {

  /** strchr: the first separator from `i` on, or the end of the string. */
  function SeparatorFrom(s: string, sep: char, i: nat): (j: nat)
    requires i <= |s|
    ensures i <= j <= |s| && (j < |s| ==> s[j] == sep)
    ensures forall k | i <= k < j :: s[k] != sep
    decreases |s| - i
  {
    if i == |s| || s[i] == sep then i else SeparatorFrom(s, sep, i + 1)
  }

  /** The fields of `s` from position `i` on. */
  function Fields(s: string, sep: char, i: nat): seq<string>
    requires i <= |s|
    decreases |s| - i
  {
    var j := SeparatorFrom(s, sep, i);
    [s[i..j]] + if j == |s| then [] else Fields(s, sep, j + 1)
  }

  function Joined(fields: seq<string>, sep: char): string
    requires fields != []
  {
    if |fields| == 1 then fields[0] else fields[0] + [sep] + Joined(fields[1..], sep)
  }

  ghost predicate Separated(fields: seq<string>, sep: char) {
    forall i | 0 <= i < |fields| :: sep !in fields[i]
  }

  /** A list of fields without separators that, joined by them, makes up `s`. */
  ghost predicate Splits(fields: seq<string>, sep: char, s: string) {
    fields != [] && Separated(fields, sep) && Joined(fields, sep) == s
  }

  /** The fields of a string split it. */
  lemma {:induction false} FieldsSplit(s: string, sep: char, i: nat, fields: seq<string>)
    requires i <= |s| && fields == Fields(s, sep, i)
    ensures Splits(fields, sep, s[i..])
    decreases |s| - i
  {
    var j := SeparatorFrom(s, sep, i);
    FieldsStep(s, sep, i);
    if j < |s| {
      var rest := Fields(s, sep, j + 1);
      FieldsSplit(s, sep, j + 1, rest);
      SplitsCons(s[i..j], rest, sep, s[j + 1..]);
      CutAtSeparator(s, i, j);
    }
  }

  lemma SplitsCons(field: string, fields: seq<string>, sep: char, s: string)
    requires Splits(fields, sep, s) && sep !in field
    ensures Splits([field] + fields, sep, field + [sep] + s)
  {
    assert ([field] + fields)[1..] == fields;
  }

  lemma {:induction false} JoinedAppend(texts: seq<string>, text: string, sep: char)
    requires texts != []
    ensures Joined(texts + [text], sep) == Joined(texts, sep) + [sep] + text
    decreases |texts|
  {
    assert (texts + [text])[1..] == texts[1..] + [text];
    if |texts| > 1 {
      JoinedAppend(texts[1..], text, sep);
    }
  }

  lemma SplitsSnoc(fields: seq<string>, field: string, sep: char, s: string)
    requires Splits(fields, sep, s) && sep !in field
    ensures Splits(fields + [field], sep, s + [sep] + field)
  {
    JoinedAppend(fields, field, sep);
  }

  lemma CutAtSeparator(s: string, i: nat, j: nat)
    requires i <= j < |s|
    ensures s[i..] == s[i..j] + [s[j]] + s[j + 1..]
  {
  }

  lemma FieldsStep(s: string, sep: char, i: nat)
    requires i <= |s|
    ensures var j := SeparatorFrom(s, sep, i);
            if j == |s| then Fields(s, sep, i) == [s[i..]] && sep !in s[i..]
            else Fields(s, sep, i) == [s[i..j]] + Fields(s, sep, j + 1) && sep !in s[i..j]
  {
    var j := SeparatorFrom(s, sep, i);
    if j == |s| {
      assert s[i..j] == s[i..];
    }
  }

  /** The first field and the others. */
  lemma FirstField(s: string, sep: char, i: nat, fields: seq<string>)
    requires i <= |s| && fields == Fields(s, sep, i)
    ensures var j := SeparatorFrom(s, sep, i);
            && fields != [] && fields[0] == s[i..j]
            && fields[1..] == if j == |s| then [] else Fields(s, sep, j + 1)
  {
    var j := SeparatorFrom(s, sep, i);
    var rest := if j == |s| then [] else Fields(s, sep, j + 1);
    assert fields == [s[i..j]] + rest;
    assert ([s[i..j]] + rest)[1..] == rest;
  }

  lemma FirstFieldIsUnique(f: string, x: string, g: string, y: string, sep: char)
    requires sep !in f && sep !in g && f + [sep] + x == g + [sep] + y
    ensures f == g && x == y
  {
    var s := f + [sep] + x;
    assert s[|f|] == sep && s[|g|] == sep;
    assert forall k | 0 <= k < |f| :: s[k] == f[k];
    assert forall k | 0 <= k < |g| :: s[k] == g[k];
    assert |f| == |g|;
    assert f == s[..|f|] && g == s[..|g|] && x == s[|f| + 1..] && y == s[|g| + 1..];
  }

  lemma OneFieldNoSeparator(fields: seq<string>, sep: char)
    requires fields != [] && Separated(fields, sep)
    ensures sep in Joined(fields, sep) <==> |fields| > 1
  {
    if |fields| > 1 {
      assert Joined(fields, sep)[|fields[0]|] == sep;
    }
  }

  /** There is only one way to split a string at its separators. */
  lemma {:induction false} SplitIsUnique(a: seq<string>, b: seq<string>, sep: char, s: string)
    requires Splits(a, sep, s) && Splits(b, sep, s)
    ensures a == b
    decreases |a|
  {
    OneFieldNoSeparator(a, sep);
    OneFieldNoSeparator(b, sep);
    if |a| > 1 {
      FirstFieldIsUnique(a[0], Joined(a[1..], sep), b[0], Joined(b[1..], sep), sep);
      SplitIsUnique(a[1..], b[1..], sep, Joined(a[1..], sep));
      assert a == [a[0]] + a[1..] && b == [b[0]] + b[1..];
    }
  }
}
