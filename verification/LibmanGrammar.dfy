/** Key-value files as they may be written by hand: entries with white space about them, blank lines and comments. */
module LibmanGrammar {
  import opened Sequences
  import opened Wrappers
  import opened Text
  import opened LibmanParse

  datatype Line =
    | Blank(space: string)
    | Comment(space: string, text: string)
    | Entry(before: string, key: string, gap: string, space: string, value: string, after: string)

  /** White space within a line. */
  predicate IsBlankText(s: string) {
    forall c | c in s :: c in " \t\r\U{B}\U{C}"
  }

  /** The text of a key: a colon is part of it together with the character after it, which is not a space. */
  datatype KeyPart = Other(c: char) | Colon(after: char)

  predicate ValidPart(p: KeyPart) {
    if p.Other? then p.c != ':' else p.after != ' '
  }

  function SpellKey(parts: seq<KeyPart>): string {
    if parts == [] then ""
    else (if parts[0].Other? then [parts[0].c] else [':', parts[0].after]) + SpellKey(parts[1..])
  }

  ghost predicate IsKeyText(key: string) {
    exists parts :: (forall p | p in parts :: ValidPart(p)) && SpellKey(parts) == key
  }

  lemma {:induction false} PartsEnd(parts: seq<KeyPart>)
    requires forall p | p in parts :: ValidPart(p)
    ensures KeyEnds(SpellKey(parts), 0)
  {
    if parts != [] {
      var p, rest := parts[0], SpellKey(parts[1..]);
      assert p in parts;
      PartsEnd(parts[1..]);
      var head := if p.Other? then [p.c] else [':', p.after];
      KeyEndsAfter(head, rest, 0);
    }
  }

  /** Whether the scan comes out at the end of a key does not depend on what has been passed. */
  lemma {:induction false} KeyEndsAfter(head: string, key: string, i: nat)
    requires i <= |key|
    ensures KeyEnds(head + key, |head| + i) <==> KeyEnds(key, i)
    decreases |key| - i
  {
    if i < |key| {
      assert (head + key)[|head| + i] == key[i];
      KeyEndsAfter(head, key, i + 1);
      if i + 1 < |key| {
        KeyEndsAfter(head, key, i + 2);
      }
    }
  }

  lemma {:induction false} EndHasParts(key: string, i: nat) returns (parts: seq<KeyPart>)
    requires i <= |key| && KeyEnds(key, i)
    ensures (forall p | p in parts :: ValidPart(p)) && SpellKey(parts) == key[i..]
    decreases |key| - i
  {
    if i == |key| {
      parts := [];
    } else if key[i] != ':' {
      var rest := EndHasParts(key, i + 1);
      parts := [Other(key[i])] + rest;
      assert key[i..] == [key[i]] + key[i + 1..];
    } else {
      var rest := EndHasParts(key, i + 2);
      parts := [Colon(key[i + 1])] + rest;
      assert key[i..] == [':', key[i + 1]] + key[i + 2..];
    }
  }

  /** These are the keys that the scan passes over. */
  lemma KeyTexts(key: string)
    ensures KeyEnds(key, 0) <==> IsKeyText(key)
  {
    if KeyEnds(key, 0) {
      var parts := EndHasParts(key, 0);
      assert key[0..] == key;
    }
    if parts :| (forall p | p in parts :: ValidPart(p)) && SpellKey(parts) == key {
      PartsEnd(parts);
    }
  }

  ghost predicate ValidEntry(l: Line)
    requires l.Entry?
  {
    && IsBlankText(l.before) && IsBlankText(l.gap) && IsBlankText(l.space) && IsBlankText(l.after)
    && Clean(Pair(l.key, l.value))
    && IsKeyText(l.key + l.gap) && (l.key == "" ==> l.gap == "")
    && if l.value == "" then l.space == "" else l.space != "" && l.space[0] == ' '
  }

  ghost predicate ValidLine(l: Line) {
    match l
    case Blank(space) => IsBlankText(space)
    case Comment(space, text) => IsBlankText(space) && '\n' !in text
    case Entry(_, _, _, _, _, _) => ValidEntry(l)
  }

  function SpellLine(l: Line): string {
    match l
    case Blank(space) => space
    case Comment(space, text) => space + ("#" + text)
    case Entry(before, key, gap, space, value, after) => before + (key + gap + (":" + (space + value))) + after
  }

  /** The lines with a newline after each, but for the last one if the file ends without. */
  function SpellFile(lines: seq<Line>, ended: bool): string {
    if lines == [] then ""
    else if |lines| == 1 && !ended then SpellLine(lines[0])
    else SpellLine(lines[0]) + ("\n" + SpellFile(lines[1..], ended))
  }

  function PairsOf(lines: seq<Line>): seq<Pair> {
    if lines == [] then []
    else (if lines[0].Entry? then [Pair(lines[0].key, lines[0].value)] else []) + PairsOf(lines[1..])
  }

  // -- Lines -----------------------------------------------------------------------------------

  lemma BlankIsSpace(s: string)
    requires IsBlankText(s)
    ensures AllSpace(s) && '\n' !in s
  {
    forall i | 0 <= i < |s| ensures IsSpace(s[i]) {
      assert s[i] in s;
    }
  }

  lemma {:induction false} TrimOfSpace(s: string)
    requires AllSpace(s)
    ensures Trim(s) == ""
  {
    assert s == s + "" + "";
    TrimAround(s, "", "");
  }

  lemma BlankMeansNothing(space: string)
    requires IsBlankText(space)
    ensures LineMeaning(space) == Success([])
  {
    BlankIsSpace(space);
    TrimOfSpace(space);
  }

  lemma CommentMeansNothing(space: string, text: string)
    requires IsBlankText(space)
    ensures LineMeaning(space + ("#" + text)) == Success([])
  {
    BlankIsSpace(space);
    TrimFirst(space, "#" + text);
  }

  /** An entry without the white space around it. */
  function Core(l: Line): string
    requires l.Entry?
  {
    l.key + l.gap + (":" + (l.space + l.value))
  }

  lemma CoreIsTrimmed(l: Line)
    requires l.Entry? && ValidEntry(l)
    ensures Trimmed(Core(l)) && Core(l) != "" && Core(l)[0] != '#'
  {
    var s := Core(l);
    if l.key == "" {
      assert s[0] == ':';
    } else {
      assert s[0] == l.key[0];
    }
    if l.value == "" {
      assert s[|s| - 1] == ':';
    } else {
      assert s[|s| - 1] == l.value[|l.value| - 1];
    }
  }

  lemma CoreIsCut(l: Line)
    requires l.Entry? && ValidEntry(l)
    ensures var at := |l.key + l.gap| + 1;
      && Scan(Core(l), 0) == Some(at)
      && Trim(Core(l)[..at - 1]) == l.key && Trim(Core(l)[at..]) == l.value
  {
    var tail := ":" + (l.space + l.value);
    var at := |l.key + l.gap| + 1;
    assert l.value == "" ==> tail == ":";
    assert l.value != "" ==> tail[1] == l.space[0];
    KeyTexts(l.key + l.gap);
    ScanPrinted(l.key + l.gap, tail, 0);
    assert Core(l)[..at - 1] == "" + l.key + l.gap && Core(l)[at..] == l.space + l.value + "";
    BlankIsSpace(l.gap);
    BlankIsSpace(l.space);
    TrimAround("", l.key, l.gap);
    TrimAround(l.space, l.value, "");
  }

  lemma EntryMeansPair(l: Line)
    requires l.Entry? && ValidEntry(l)
    ensures LineMeaning(SpellLine(l)) == Success([Pair(l.key, l.value)])
  {
    BlankIsSpace(l.before);
    BlankIsSpace(l.after);
    CoreIsTrimmed(l);
    TrimAround(l.before, Core(l), l.after);
    CoreIsCut(l);
  }

  lemma LineMeans(l: Line)
    requires ValidLine(l)
    ensures LineMeaning(SpellLine(l)) == Success(if l.Entry? then [Pair(l.key, l.value)] else [])
  {
    match l
    case Blank(space) => BlankMeansNothing(space);
    case Comment(space, text) => CommentMeansNothing(space, text);
    case Entry(_, _, _, _, _, _) => EntryMeansPair(l);
  }

  lemma NoNewlineInside(l: Line)
    requires ValidLine(l)
    ensures '\n' !in SpellLine(l)
  {
    match l
    case Blank(space) => BlankIsSpace(space);
    case Comment(space, text) => BlankIsSpace(space);
    case Entry(before, key, gap, space, value, after) =>
      BlankIsSpace(before);
      BlankIsSpace(gap);
      BlankIsSpace(space);
      BlankIsSpace(after);
  }

  // -- Files -----------------------------------------------------------------------------------

  lemma LinesOfFile(l: Line, rest: string)
    requires ValidLine(l)
    ensures Lines(SpellLine(l) + ("\n" + rest)) == [SpellLine(l)] + Lines(rest)
  {
    var line, s := SpellLine(l), SpellLine(l) + ("\n" + rest);
    NoNewlineInside(l);
    assert s[..|line|] == line && s[|line| + 1..] == rest;
    CutLine(s, |line|);
  }

  lemma LastLineMeans(l: Line)
    requires ValidLine(l)
    ensures ParseLines(Lines(SpellLine(l))) == Success(PairsOf([l]))
  {
    assert [l][1..] == [];
    LineMeans(l);
    BlankMeansNothing("");
    NothingAfter(LineMeaning(SpellLine(l)).value);
    if SpellLine(l) != "" {
      NoNewlineInside(l);
      LastLine(SpellLine(l));
      assert [SpellLine(l)][1..] == [];
    }
  }

  /** A file is parsed to its entries, whatever blank lines and comments stand between them, whatever white space is
      around keys and values, and whether or not it ends with a newline. */
  lemma {:induction false} FileMeans(lines: seq<Line>, ended: bool)
    requires forall l | l in lines :: ValidLine(l)
    ensures ParseLines(Lines(SpellFile(lines, ended))) == Success(PairsOf(lines))
  {
    if lines != [] {
      var l, rest := lines[0], lines[1..];
      if rest == [] && !ended {
        assert lines == [l];
        LastLineMeans(l);
      } else {
        LineMeans(l);
        LinesOfFile(l, SpellFile(rest, ended));
        FileMeans(rest, ended);
        ConsTail(SpellLine(l), Lines(SpellFile(rest, ended)));
      }
    }
  }

  /** A line without a colon that is neither blank nor a comment. */
  predicate IsFaulty(line: string) {
    Trim(line) != "" && Trim(line)[0] != '#' && ':' !in line && '\n' !in line
  }

  lemma {:induction false} NothingScanned(line: string, i: nat)
    requires i <= |line| && ':' !in line
    ensures Scan(line, i) == None
    decreases |line| - i
  {
    if i < |line| {
      assert line[i] in line;
      NothingScanned(line, i + 1);
    }
  }

  /** The first faulty line is reported, as it stands in the file. */
  lemma {:induction false} FaultyLineFails(lines: seq<Line>, line: string, rest: string)
    requires (forall l | l in lines :: ValidLine(l)) && IsFaulty(line)
    ensures ParseLines(Lines(SpellFile(lines, true) + (line + ("\n" + rest)))) == Failure(InvalidLine(line))
  {
    var tail := line + ("\n" + rest);
    if lines == [] {
      NothingBefore(tail);
      TrimContains(line, ':');
      NothingScanned(Trim(line), 0);
      assert tail[..|line|] == line && tail[|line| + 1..] == rest;
      CutLine(tail, |line|);
    } else {
      var l, more := lines[0], SpellFile(lines[1..], true);
      LineMeans(l);
      Associate(SpellLine(l), "\n" + more, tail);
      Associate("\n", more, tail);
      LinesOfFile(l, more + tail);
      FaultyLineFails(lines[1..], line, rest);
      ConsTail(SpellLine(l), Lines(more + tail));
    }
  }
}
