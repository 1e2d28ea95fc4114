/** The greedy text wrapper of namespaces_of: what it keeps, what it guarantees of every line, and
    that no other wrapping needs fewer lines. */
module WrapText {
  import Splitting

  /** White space as the library that splits the text has it: the Unicode property of that name. */
  predicate IsSpace(c: char) {
    || '\t' <= c <= '\r' || c == ' ' || c == '\U{85}' || c == '\U{a0}' || c == '\U{1680}'
    || '\U{2000}' <= c <= '\U{200a}' || c == '\U{2028}' || c == '\U{2029}' || c == '\U{202f}'
    || c == '\U{205f}' || c == '\U{3000}'
  }

  /** How many bytes a character takes in UTF-8. */
  function Size(c: char): nat {
    if c < '\U{80}' then 1 else if c < '\U{800}' then 2 else if c < '\U{10000}' then 3 else 4
  }

  /** The length of a string as the program counts it. */
  function Bytes(s: string): nat {
    if s == "" then 0 else Size(s[0]) + Bytes(s[1..])
  }

  /** The 25 code points that Unicode counts as white space. */
  lemma SpaceCodes(c: char)
    ensures IsSpace(c) <==>
            c as int in {0x9, 0xa, 0xb, 0xc, 0xd, 0x20, 0x85, 0xa0, 0x1680,
                         0x2000, 0x2001, 0x2002, 0x2003, 0x2004, 0x2005, 0x2006, 0x2007, 0x2008, 0x2009, 0x200a,
                         0x2028, 0x2029, 0x202f, 0x205f, 0x3000}
  {
  }

  /** UTF-8: one to four bytes, of which all but the first carry six bits each. */
  function Utf8(c: char): seq<int> {
    var n := c as int;
    if n < 0x80 then [n]
    else if n < 0x800 then [0xc0 + n / 0x40, 0x80 + n % 0x40]
    else if n < 0x1_0000 then [0xe0 + n / 0x1000, 0x80 + n / 0x40 % 0x40, 0x80 + n % 0x40]
    else [0xf0 + n / 0x4_0000, 0x80 + n / 0x1000 % 0x40, 0x80 + n / 0x40 % 0x40, 0x80 + n % 0x40]
  }

  function Encoded(s: string): seq<int> {
    if s == "" then [] else Utf8(s[0]) + Encoded(s[1..])
  }

  /** The length the program counts is that of the encoded string; for ASCII text it is the number of characters. */
  lemma {:induction false} BytesAreEncoded(s: string)
    ensures Bytes(s) == |Encoded(s)|
    ensures (forall i | 0 <= i < |s| :: s[i] as int < 128) ==> Bytes(s) == |s|
    decreases |s|
  {
    if s != "" {
      BytesAreEncoded(s[1..]);
      assert |Utf8(s[0])| == Size(s[0]);
    }
  }

  lemma {:induction false} BytesAppend(s: string, t: string)
    ensures Bytes(s + t) == Bytes(s) + Bytes(t)
    decreases |s|
  {
    if s == "" {
      assert s + t == t;
    } else {
      assert (s + t)[1..] == s[1..] + t;
      BytesAppend(s[1..], t);
    }
  }

  predicate AllSpace(s: string) {
    forall i | 0 <= i < |s| :: IsSpace(s[i])
  }

  /** A nonempty run of characters other than white space. */
  predicate IsWord(w: string) {
    w != "" && forall i | 0 <= i < |w| :: !IsSpace(w[i])
  }

  predicate AllWords(words: seq<string>) {
    forall i | 0 <= i < |words| :: IsWord(words[i])
  }

  /** The words of a text; `word` is the part of the current word already seen. */
  function FieldsFrom(word: string, text: string): seq<string>
    decreases |text|
  {
    var done := if word == "" then [] else [word];
    if text == "" then done
    else if IsSpace(text[0]) then done + FieldsFrom("", text[1..])
    else FieldsFrom(word + [text[0]], text[1..])
  }

  function Fields(text: string): seq<string> {
    FieldsFrom("", text)
  }

  lemma {:induction false} FieldsAreWords(word: string, text: string)
    requires word == "" || IsWord(word)
    ensures AllWords(FieldsFrom(word, text))
    decreases |text|
  {
    if text != "" {
      if IsSpace(text[0]) {
        FieldsAreWords("", text[1..]);
      } else {
        FieldsAreWords(word + [text[0]], text[1..]);
      }
    }
  }

  lemma {:induction false} FieldsOfWord(word: string, more: string)
    requires forall i | 0 <= i < |more| :: !IsSpace(more[i])
    ensures FieldsFrom(word, more) == if word + more == "" then [] else [word + more]
    decreases |more|
  {
    if more == "" {
      assert word + more == word;
    } else {
      FieldsOfWord(word + [more[0]], more[1..]);
      assert word + [more[0]] + more[1..] == word + more;
    }
  }

  lemma {:induction false} FieldsSkipSpace(space: string, text: string)
    requires AllSpace(space)
    ensures Fields(space + text) == Fields(text)
    decreases |space|
  {
    if space == "" {
      assert space + text == text;
    } else {
      assert (space + text)[1..] == space[1..] + text;
      FieldsSkipSpace(space[1..], text);
    }
  }

  /** White space and a word behind a text add that word to its words. */
  /** What is seen so far of the current word, as a list of words. */
  function Done(word: string): seq<string> {
    if word == "" then [] else [word]
  }

  lemma FieldsStep(word: string, text: string, c: char, rest: string)
    requires text == [c] + rest
    ensures FieldsFrom(word, text) ==
            if IsSpace(c) then Done(word) + FieldsFrom("", rest) else FieldsFrom(word + [c], rest)
  {
    assert text[0] == c && text[1..] == rest;
  }

  lemma FieldsEnd(word: string, space: string, last: string)
    requires AllSpace(space) && space != "" && IsWord(last)
    ensures FieldsFrom(word, space + last) == Done(word) + [last]
  {
    FieldsStep(word, space + last, space[0], space[1..] + last);
    FieldsSkipSpace(space[1..], last);
    FieldsOfWord("", last);
    assert "" + last == last;
  }

  lemma {:induction false} FieldsAppend(word: string, text: string, space: string, last: string)
    requires AllSpace(space) && space != "" && IsWord(last)
    ensures FieldsFrom(word, text + (space + last)) == FieldsFrom(word, text) + [last]
    decreases |text|
  {
    if text == "" {
      FieldsEnd(word, space, last);
      assert text + (space + last) == space + last;
    } else {
      var c, rest := text[0], text[1..];
      FieldsStep(word, text, c, rest);
      FieldsStep(word, text + (space + last), c, rest + (space + last));
      FieldsAppend(if IsSpace(c) then "" else word + [c], rest, space, last);
    }
  }

  /** White space at the end makes no word. */
  lemma {:induction false} FieldsTrail(word: string, text: string, trail: string)
    requires AllSpace(trail)
    ensures FieldsFrom(word, text + trail) == FieldsFrom(word, text)
    decreases |text| + |trail|
  {
    if text != "" {
      var c, rest := text[0], text[1..];
      FieldsStep(word, text, c, rest);
      FieldsStep(word, text + trail, c, rest + trail);
      FieldsTrail(if IsSpace(c) then "" else word + [c], rest, trail);
    } else if trail != "" {
      assert text + trail == trail && "" + trail[1..] == trail[1..];
      FieldsStep(word, trail, trail[0], trail[1..]);
      FieldsTrail("", "", trail[1..]);
    } else {
      assert text + trail == text;
    }
  }

  /** Words, each with the white space before it. */
  function Spread(gaps: seq<string>, words: seq<string>): string
    requires |gaps| == |words|
    decreases |words|
  {
    if words == [] then ""
    else
      var n := |words| - 1;
      Spread(gaps[..n], words[..n]) + (gaps[n] + words[n])
  }

  predicate AreGaps(gaps: seq<string>) {
    forall i | 0 <= i < |gaps| :: AllSpace(gaps[i]) && (i > 0 ==> gaps[i] != "")
  }

  /** Whatever white space there is before, between and after them, the words of a text are its words. */
  lemma {:induction false} FieldsOfSpread(gaps: seq<string>, words: seq<string>, trail: string)
    requires |gaps| == |words| && AreGaps(gaps) && AllWords(words) && AllSpace(trail)
    ensures Fields(Spread(gaps, words) + trail) == words
    decreases |words|
  {
    var text := Spread(gaps, words);
    FieldsTrail("", text, trail);
    if words != [] {
      var n := |words| - 1;
      FieldsOfSpread(gaps[..n], words[..n], "");
      assert Spread(gaps[..n], words[..n]) + "" == Spread(gaps[..n], words[..n]);
      LastOfSpread(Spread(gaps[..n], words[..n]), gaps[n], words[..n], words[n]);
      assert words[..n] + [words[n]] == words;
    }
  }

  lemma LastOfSpread(text: string, gap: string, init: seq<string>, word: string)
    requires Fields(text) == init && AllSpace(gap) && IsWord(word) && (gap == "" ==> text == "")
    ensures Fields(text + (gap + word)) == init + [word]
  {
    if gap == "" {
      assert text + (gap + word) == word && "" + word == word;
      FieldsOfWord("", word);
    } else {
      FieldsAppend("", text, gap, word);
    }
  }

  // ----- lines -----

  type Line = seq<string>

  /** Its width when written with single spaces. */
  function Width(line: Line): nat {
    if line == [] then 0
    else if |line| == 1 then Bytes(line[0])
    else Width(line[..|line| - 1]) + 1 + Bytes(line[|line| - 1])
  }

  function Last<T>(s: seq<T>): T
    requires s != []
  {
    s[|s| - 1]
  }

  function Init<T>(s: seq<T>): seq<T>
    requires s != []
  {
    s[..|s| - 1]
  }

  function AddWord(lines: seq<Line>, word: string, width: int): (r: seq<Line>)
    requires lines != []
    ensures r != []
  {
    if Width(Last(lines)) + Bytes(word) + 1 > width then lines + [[word]]
    else Init(lines) + [Last(lines) + [word]]
  }

  /** The lines the wrapper makes. */
  function Wrap(words: seq<string>, width: int): (lines: seq<Line>)
    requires words != []
    ensures lines != []
    decreases |words|
  {
    if |words| == 1 then [[words[0]]] else AddWord(Wrap(Init(words), width), Last(words), width)
  }

  function WriteLine(line: Line): string {
    if line == [] then "" else if |line| == 1 then line[0] else WriteLine(Init(line)) + " " + Last(line)
  }

  function Write(lines: seq<Line>, indent: string): string {
    if lines == [] then ""
    else if |lines| == 1 then indent + WriteLine(lines[0])
    else Write(Init(lines), indent) + "\n" + indent + WriteLine(Last(lines))
  }

  /** What the loop writes before the next word. */
  function Separator(lines: seq<Line>, word: string, width: int, indent: string): string
    requires lines != []
  {
    if Width(Last(lines)) + Bytes(word) + 1 > width then "\n" + indent else " "
  }

  lemma WriteLineAppend(line: Line, word: string)
    requires line != []
    ensures WriteLine(line + [word]) == WriteLine(line) + " " + word
  {
    assert Init(line + [word]) == line && Last(line + [word]) == word;
  }

  lemma WriteNewLine(lines: seq<Line>, word: string, indent: string)
    requires lines != []
    ensures Write(lines + [[word]], indent) == Write(lines, indent) + ("\n" + indent + word)
  {
    var more := lines + [[word]];
    assert Init(more) == lines && Last(more) == [word];
    assert WriteLine([word]) == word;
    assert Write(lines, indent) + "\n" + indent + word == Write(lines, indent) + ("\n" + indent + word);
  }

  lemma WriteSameLine(lines: seq<Line>, word: string, indent: string)
    requires lines != [] && Last(lines) != []
    ensures Write(Init(lines) + [Last(lines) + [word]], indent) == Write(lines, indent) + (" " + word)
  {
    var last := Last(lines);
    var more := Init(lines) + [last + [word]];
    WriteLineAppend(last, word);
    assert Last(more) == last + [word] && Init(more) == Init(lines);
    var head := if |lines| == 1 then indent else Write(Init(lines), indent) + "\n" + indent;
    assert Write(lines, indent) == head + WriteLine(last);
    assert Write(more, indent) == head + (WriteLine(last) + " " + word);
    assert head + (WriteLine(last) + " " + word) == head + WriteLine(last) + (" " + word);
  }

  /** What adding a word does to the text: the two branches of the loop. */
  lemma WriteAddWord(lines: seq<Line>, word: string, width: int, indent: string)
    requires lines != [] && Last(lines) != []
    ensures Write(AddWord(lines, word, width), indent) ==
            Write(lines, indent) + (Separator(lines, word, width, indent) + word)
  {
    WriteNewLine(lines, word, indent);
    WriteSameLine(lines, word, indent);
  }

  function Flatten(lines: seq<Line>): seq<string> {
    if lines == [] then [] else Flatten(Init(lines)) + Last(lines)
  }

  /** A way of breaking `words` into lines, each within `width` unless it is a single word. */
  ghost predicate IsWrapping(lines: seq<Line>, words: seq<string>, width: int) {
    && Flatten(lines) == words
    && forall l | l in lines :: l != [] && (Width(l) <= width || |l| == 1)
  }

  lemma WidthOfAppend(line: Line, word: string)
    requires line != []
    ensures Width(line + [word]) == Width(line) + 1 + Bytes(word)
  {
    assert (line + [word])[..|line|] == line;
  }

  lemma AddWordWraps(lines: seq<Line>, init: seq<string>, word: string, width: int, words: seq<string>, more: seq<Line>)
    requires lines != [] && IsWrapping(lines, init, width)
    requires words == init + [word] && more == AddWord(lines, word, width)
    ensures IsWrapping(more, words, width)
  {
    assert Last(lines) in lines;
    if Width(Last(lines)) + Bytes(word) + 1 > width {
      assert Init(more) == lines && Last(more) == [word];
    } else {
      WidthOfAppend(Last(lines), word);
      assert Init(more) == Init(lines) && Last(more) == Last(lines) + [word];
      assert forall l | l in Init(lines) :: l in lines;
    }
  }

  lemma InitAndLast<T>(s: seq<T>)
    requires s != []
    ensures s == Init(s) + [Last(s)]
  {
  }

  lemma OneLine(word: string, width: int)
    ensures IsWrapping([[word]], [word], width)
  {
    assert Init([[word]]) == [];
  }

  /** The wrapper keeps the words, in order, and every line fits or is a single word. */
  lemma {:induction false} WrapWraps(words: seq<string>, width: int)
    requires words != []
    ensures IsWrapping(Wrap(words, width), words, width)
    decreases |words|
  {
    if |words| == 1 {
      OneLine(words[0], width);
      assert words == [words[0]];
    } else {
      WrapWraps(Init(words), width);
      InitAndLast(words);
      AddWordWraps(Wrap(Init(words), width), Init(words), Last(words), width, words, Wrap(words, width));
    }
  }

  // ----- no wrapping is shorter -----

  /** Fewer lines, or as many and no more words on the last one. */
  ghost predicate Ahead(a: seq<Line>, b: seq<Line>)
    requires a != [] && b != []
  {
    |a| < |b| || (|a| == |b| && |Last(a)| <= |Last(b)|)
  }

  lemma {:induction false} SuffixIsNarrower(line: Line, k: nat)
    requires k < |line|
    ensures Width(line[k..]) <= Width(line)
    decreases |line|
  {
    if |line| > 1 && k < |line| - 1 {
      SuffixIsNarrower(Init(line), k);
      assert line[k..] == Init(line)[k..] + [Last(line)];
      WidthOfAppend(Init(line)[k..], Last(line));
    } else if |line| > 1 {
      assert line[k..] == [Last(line)];
    } else {
      assert line[k..] == line;
    }
  }

  /** Of two endings of the same words, the one with fewer words is no wider. */
  lemma FewerIsNarrower(words: seq<string>, a: Line, b: Line)
    requires 0 < |a| <= |b| <= |words| && words[|words| - |a|..] == a && words[|words| - |b|..] == b
    ensures Width(a) <= Width(b)
  {
    assert a == b[|b| - |a|..];
    SuffixIsNarrower(b, |b| - |a|);
  }

  lemma LastIsSuffix(lines: seq<Line>)
    requires lines != []
    ensures |Last(lines)| <= |Flatten(lines)|
    ensures Flatten(lines)[|Flatten(lines)| - |Last(lines)|..] == Last(lines)
  {
  }

  /** Takes the last word off a wrapping. */
  function DropWord(lines: seq<Line>): seq<Line>
    requires lines != [] && Last(lines) != []
  {
    if |Last(lines)| == 1 then Init(lines) else Init(lines) + [Init(Last(lines))]
  }

  lemma DropWordWraps(lines: seq<Line>, words: seq<string>, width: int)
    requires lines != [] && words != [] && IsWrapping(lines, words, width)
    ensures Last(lines) != [] && Last(Last(lines)) == Last(words)
    ensures IsWrapping(DropWord(lines), Init(words), width)
  {
    var last := Last(lines);
    assert last in lines;
    assert forall l | l in Init(lines) :: l in lines;
    assert words == Flatten(Init(lines)) + last;
    if |last| == 1 {
      assert Init(words) == Flatten(Init(lines));
    } else {
      var less := Init(lines) + [Init(last)];
      assert Init(less) == Init(lines) && Last(less) == Init(last);
      assert Init(words) == Flatten(Init(lines)) + Init(last);
      assert last == Init(last) + [Last(last)];
      WidthOfAppend(Init(last), Last(last));
    }
  }

  lemma {:induction false} GreedyStaysAhead(words: seq<string>, width: int, lines: seq<Line>)
    requires words != [] && lines != [] && IsWrapping(lines, words, width)
    ensures Ahead(Wrap(words, width), lines)
    decreases |words|
  {
    assert Last(lines) in lines;
    if |words| > 1 {
      DropWordWraps(lines, words, width);
      var less := DropWord(lines);
      assert less == [] ==> Flatten(less) == [];
      GreedyStaysAhead(Init(words), width, less);
      WrapWraps(Init(words), width);
      LastLineNonempty(Init(words), width);
      OneWordMore(words, width, lines, Wrap(Init(words), width), less);
    }
  }

  /** If another wrapping has room for one more word on its last line, the greedy one, which has no more words
      there, has room as well. */
  lemma {:induction false} RoomForOneMore(init: seq<string>, word: string, width: int, greedy: seq<Line>,
                                          less: seq<Line>)
    requires greedy != [] && Last(greedy) != [] && less != [] && Flatten(greedy) == init == Flatten(less)
    requires |Last(greedy)| <= |Last(less)| && Width(Last(less) + [word]) <= width
    ensures Width(Last(greedy)) + Bytes(word) + 1 <= width
  {
    LastIsSuffix(greedy);
    LastIsSuffix(less);
    FewerIsNarrower(init, Last(greedy), Last(less));
    WidthOfAppend(Last(less), word);
  }

  /** The greedy choice for one more word keeps the wrapper ahead. */
  lemma OneWordMore(words: seq<string>, width: int, lines: seq<Line>, greedy: seq<Line>, less: seq<Line>)
    requires |words| > 1 && lines != [] && greedy != [] && less != []
    requires Last(greedy) != [] && Flatten(greedy) == Init(words) == Flatten(less)
    requires Last(lines) != [] && (Width(Last(lines)) <= width || |Last(lines)| == 1)
    requires less == DropWord(lines) && Last(Last(lines)) == Last(words) && Ahead(greedy, less)
    ensures Ahead(AddWord(greedy, Last(words), width), lines)
  {
    var last := Last(lines);
    if |last| > 1 && |greedy| == |lines| {
      assert Last(less) == Init(last) && last == Init(last) + [Last(words)];
      RoomForOneMore(Init(words), Last(words), width, greedy, less);
    }
  }

  /** No wrapping of the same words within the same width has fewer lines. */
  lemma WrapIsShortest(words: seq<string>, width: int, lines: seq<Line>)
    requires words != [] && IsWrapping(lines, words, width)
    ensures |Wrap(words, width)| <= |lines|
  {
    assert lines == [] ==> Flatten(lines) == [];
    GreedyStaysAhead(words, width, lines);
  }

  // ----- the text -----

  /** Splitting the wrapped text gives back the words. */
  lemma {:induction false} WrappedTextKeepsWords(words: seq<string>, width: int, indent: string)
    requires words != [] && AllWords(words) && AllSpace(indent)
    ensures Fields(Write(Wrap(words, width), indent)) == words
    decreases |words|
  {
    if |words| == 1 {
      FirstWord(words[0], indent);
    } else {
      var lines, word := Wrap(Init(words), width), Last(words);
      WrappedTextKeepsWords(Init(words), width, indent);
      LastLineNonempty(Init(words), width);
      WriteAddWord(lines, word, width, indent);
      FieldsAppend("", Write(lines, indent), Separator(lines, word, width, indent), word);
      assert Init(words) + [word] == words;
    }
  }

  lemma FirstWord(word: string, indent: string)
    requires IsWord(word) && AllSpace(indent)
    ensures Write([[word]], indent) == indent + word && Fields(indent + word) == [word]
  {
    assert WriteLine([word]) == word;
    FieldsSkipSpace(indent, word);
    FieldsOfWord("", word);
    assert "" + word == word;
  }

  lemma LastLineNonempty(words: seq<string>, width: int)
    requires words != []
    ensures Last(Wrap(words, width)) != []
  {
    WrapWraps(words, width);
    assert Last(Wrap(words, width)) in Wrap(words, width);
  }

  method WrapTextAt(text: string, width: int, indent: string) returns (result: string)
    ensures Fields(text) == [] ==> result == ""
    ensures Fields(text) != [] ==> result == Write(Wrap(Fields(text), width), indent)
  {
    var words := Fields(text);
    if |words| == 0 {
      return "";
    }
    result := indent + words[0];
    var col := Bytes(words[0]);
    ghost var lines := [[words[0]]];
    assert words[..1] == [words[0]];
    for n := 1 to |words|
      invariant lines == Wrap(words[..n], width)
      invariant result == Write(lines, indent) && col == Width(Last(lines))
    {
      var word := words[n];
      LastLineNonempty(words[..n], width);
      WriteAddWord(lines, word, width, indent);
      WidthOfAppend(Last(lines), word);
      assert Init(words[..n + 1]) == words[..n] && Last(words[..n + 1]) == word;
      if col + Bytes(word) + 1 > width {
        result := result + ("\n" + indent + word);
        col := Bytes(word);
      } else {
        result := result + (" " + word);
        col := col + 1 + Bytes(word);
      }
      lines := AddWord(lines, word, width);
    }
    assert words[..|words|] == words;
  }

  /** For any text: splitting what the wrapper writes gives back the words that were read. */
  lemma WrapKeepsText(text: string, width: int, indent: string)
    requires AllSpace(indent) && Fields(text) != []
    ensures Fields(Write(Wrap(Fields(text), width), indent)) == Fields(text)
  {
    FieldsAreWords("", text);
    WrappedTextKeepsWords(Fields(text), width, indent);
  }

  // ----- the lines of the text -----

  /** Each line as it is written. */
  function LineTexts(lines: seq<Line>, indent: string): (r: seq<string>)
    ensures |r| == |lines|
    decreases |lines|
  {
    if lines == [] then [] else LineTexts(Init(lines), indent) + [indent + WriteLine(Last(lines))]
  }

  lemma {:induction false} WidthIsLength(line: Line)
    ensures Bytes(WriteLine(line)) == Width(line)
    decreases |line|
  {
    if |line| > 1 {
      WidthIsLength(Init(line));
      BytesAppend(WriteLine(Init(line)) + " ", Last(line));
      BytesAppend(WriteLine(Init(line)), " ");
      assert " "[1..] == "";
    }
  }

  lemma {:induction false} NoBreakInLine(line: Line)
    requires AllWords(line)
    ensures '\n' !in WriteLine(line)
    decreases |line|
  {
    if line != [] {
      assert IsWord(Last(line));
      NoBreakInLine(Init(line));
    }
  }

  lemma WriteStep(lines: seq<Line>, indent: string)
    requires lines != []
    ensures var init, text := Init(lines), indent + WriteLine(Last(lines));
            if |lines| == 1 then LineTexts(lines, indent) == [text] && Write(lines, indent) == text
            else
              && LineTexts(lines, indent) == LineTexts(init, indent) + [text]
              && Write(lines, indent) == Write(init, indent) + "\n" + text
  {
    var init, line := Init(lines), WriteLine(Last(lines));
    if |lines| > 1 {
      Associates(Write(init, indent) + "\n", indent, line);
    }
  }

  lemma Associates(a: string, b: string, c: string)
    ensures a + b + c == a + (b + c)
  {
  }

  /** Cut at its newlines, the text falls into the lines that were written. */
  lemma {:induction false} WriteSplits(lines: seq<Line>, indent: string)
    requires lines != [] && '\n' !in indent && forall l | l in lines :: AllWords(l)
    ensures Splitting.Splits(LineTexts(lines, indent), '\n', Write(lines, indent))
    decreases |lines|
  {
    assert Last(lines) in lines && forall l | l in Init(lines) :: l in lines;
    NoBreakInLine(Last(lines));
    WriteStep(lines, indent);
    if |lines| > 1 {
      WriteSplits(Init(lines), indent);
      Splitting.SplitsSnoc(LineTexts(Init(lines), indent), indent + WriteLine(Last(lines)), '\n',
                           Write(Init(lines), indent));
    }
  }

  lemma {:induction false} LineTextAt(lines: seq<Line>, indent: string, k: nat)
    requires k < |lines|
    ensures LineTexts(lines, indent)[k] == indent + WriteLine(lines[k])
    decreases |lines|
  {
    if k < |lines| - 1 {
      LineTextAt(Init(lines), indent, k);
    }
  }

  lemma {:induction false} LinesHaveWords(lines: seq<Line>, words: seq<string>)
    requires Flatten(lines) == words && AllWords(words)
    ensures forall l | l in lines :: AllWords(l)
    decreases |lines|
  {
    if lines != [] {
      var init, last := Init(lines), Last(lines);
      assert words == Flatten(init) + last;
      assert forall i | 0 <= i < |Flatten(init)| :: words[i] == Flatten(init)[i];
      assert forall i | 0 <= i < |last| :: words[|Flatten(init)| + i] == last[i];
      LinesHaveWords(init, Flatten(init));
      assert forall l | l in lines :: l in init || l == last;
    }
  }

  /** A line of the text is indented and, behind the indentation, within the width or without a space. */
  predicate LineFits(text: string, indent: string, width: int) {
    indent <= text && (Bytes(text[|indent|..]) <= width || ' ' !in text[|indent|..])
  }

  lemma {:induction false} FittingLine(line: Line, indent: string, width: int)
    requires AllWords(line) && (Width(line) <= width || |line| == 1)
    ensures LineFits(indent + WriteLine(line), indent, width)
  {
    WidthIsLength(line);
    assert (indent + WriteLine(line))[|indent|..] == WriteLine(line);
    if |line| == 1 {
      assert IsWord(line[0]);
    }
  }

  /** For any text: every line of the result fits, and no wrapping of the same words has fewer lines. */
  lemma ResultLines(text: string, width: int, indent: string, other: seq<Line>)
    requires '\n' !in indent && Fields(text) != [] && IsWrapping(other, Fields(text), width)
    ensures var lines := Splitting.Fields(Write(Wrap(Fields(text), width), indent), '\n', 0);
            && (forall k | 0 <= k < |lines| :: LineFits(lines[k], indent, width))
            && |lines| <= |other|
  {
    var words := Fields(text);
    var lines := Wrap(words, width);
    WrapWraps(words, width);
    FieldsAreWords("", text);
    LinesHaveWords(lines, words);
    WrittenLines(lines, indent);
    forall k | 0 <= k < |lines|
      ensures LineFits(LineTexts(lines, indent)[k], indent, width)
    {
      assert lines[k] in lines;
      LineTextAt(lines, indent, k);
      FittingLine(lines[k], indent, width);
    }
    WrapIsShortest(words, width, other);
  }

  lemma WrittenLines(lines: seq<Line>, indent: string)
    requires lines != [] && '\n' !in indent && forall l | l in lines :: AllWords(l)
    ensures Splitting.Fields(Write(lines, indent), '\n', 0) == LineTexts(lines, indent)
  {
    var text := Write(lines, indent);
    WriteSplits(lines, indent);
    Splitting.FieldsSplit(text, '\n', 0, Splitting.Fields(text, '\n', 0));
    assert text[0..] == text;
    Splitting.SplitIsUnique(Splitting.Fields(text, '\n', 0), LineTexts(lines, indent), '\n', text);
  }
}
