/** Key-value files: lines of `key: value`, parsed and printed. */
module LibmanParse {
  import opened Sequences
  import opened Wrappers
  import opened Text

  datatype Pair = Pair(key: string, value: string)

  datatype ParseError = InvalidLine(line: string)

  // -- Lines -----------------------------------------------------------------------------------

  /** Where the scan for the separator stops: just after a colon at the end of the line or before a space.
      The character after any other colon is not looked at. */
  function Scan(line: string, i: nat): (r: Option<nat>)
    requires i <= |line|
    ensures r.Some? ==> i < r.value <= |line| && line[r.value - 1] == ':'
    ensures r.Some? ==> r.value == |line| || line[r.value] == ' '
    decreases |line| - i
  {
    if i == |line| then None
    else if line[i] != ':' then Scan(line, i + 1)
    else if i + 1 == |line| || line[i + 1] == ' ' then Some(i + 1)
    else Scan(line, i + 2)
  }

  /** What a line adds: nothing if it is blank or a comment. */
  function LineMeaning(whole: string): Result<seq<Pair>, ParseError> {
    var line := Trim(whole);
    if line == "" || line[0] == '#' then Success([])
    else
      match Scan(line, 0)
      case None => Failure(InvalidLine(whole))
      case Some(at) => Success([Pair(Trim(line[..at - 1]), Trim(line[at..]))])
  }

  method ParseLine(pairs: seq<Pair>, wholeLine: string) returns (r: Result<seq<Pair>, ParseError>)
    ensures LineMeaning(wholeLine).Failure? ==> r == Failure(InvalidLine(wholeLine))
    ensures LineMeaning(wholeLine).Success? ==> r == Success(pairs + LineMeaning(wholeLine).value)
  {
    var line := TrimView(wholeLine);
    if line == "" || line[0] == '#' {
      assert pairs + [] == pairs;
      return Success(pairs);
    }
    var iter := 0;
    while true
      invariant 0 <= iter <= |line| && Scan(line, iter) == Scan(line, 0)
      decreases |line| - iter
    {
      if iter == |line| {
        return Failure(InvalidLine(wholeLine));
      }
      if line[iter] == ':' {
        iter := iter + 1;
        if iter == |line| {
          break;
        } else if line[iter] == ' ' {
          break;
        }
      }
      iter := iter + 1;
    }
    var key := TrimView(line[..iter - 1]);
    var value := TrimView(line[iter..]);
    return Success(pairs + [Pair(key, value)]);
  }

  // -- Files -----------------------------------------------------------------------------------

  /** The lines of a text; what follows the last newline is a line unless it is empty. */
  function Lines(s: string): seq<string>
    decreases |s|
  {
    if s == "" then []
    else
      var at := IndexOf(s, '\n');
      if at == |s| then [s] else [s[..at]] + Lines(s[at + 1..])
  }

  function ParseLines(lines: seq<string>): Result<seq<Pair>, ParseError> {
    if lines == [] then Success([])
    else
      var first := LineMeaning(lines[0]);
      if first.Failure? then first
      else
        var rest := ParseLines(lines[1..]);
        if rest.Failure? then rest else Success(first.value + rest.value)
  }

  ghost function After(pairs: seq<Pair>, rest: Result<seq<Pair>, ParseError>): Result<seq<Pair>, ParseError> {
    if rest.Failure? then rest else Success(pairs + rest.value)
  }

  /** What the text from position `at` on means. */
  ghost function Meaning(s: string, at: nat): Result<seq<Pair>, ParseError>
    requires at <= |s|
  {
    ParseLines(Lines(s[at..]))
  }

  ghost predicate NoNewline(s: string, from: nat, to: nat)
    requires from <= to <= |s|
  {
    '\n' !in s[from..to]
  }

  lemma NoNewlineNext(s: string, from: nat, at: nat)
    requires from <= at < |s| && NoNewline(s, from, at) && s[at] != '\n'
    ensures NoNewline(s, from, at + 1)
  {
    assert s[from..at + 1] == s[from..at] + [s[at]];
  }

  method ParseString(s: string) returns (r: Result<seq<Pair>, ParseError>)
    ensures r == ParseLines(Lines(s))
  {
    MeaningAtStart(s);
    r := ParseEach(s, ParseLines(Lines(s)));
  }

  /** The loop over the characters. */
  method ParseEach(s: string, ghost whole: Result<seq<Pair>, ParseError>) returns (r: Result<seq<Pair>, ParseError>)
    requires whole == Meaning(s, 0) == After([], whole)
    ensures r == whole
  {
    var pairs: seq<Pair> := [];
    var lineBegin, iter := 0, 0;
    ghost var left := whole;
    while iter != |s|
      invariant 0 <= lineBegin <= iter <= |s|
      invariant NoNewline(s, lineBegin, iter)
      invariant left == Meaning(s, lineBegin) && whole == After(pairs, left)
    {
      if s[iter] == '\n' {
        r, left := TakeLine(pairs, s, lineBegin, iter, left);
        if r.Failure? {
          return;
        }
        pairs := r.value;
        lineBegin := iter + 1;
      } else {
        NoNewlineNext(s, lineBegin, iter);
      }
      iter := iter + 1;
    }
    r := TakeLast(pairs, s, lineBegin, left);
  }

  /** One complete line. */
  method TakeLine(pairs: seq<Pair>, s: string, from: nat, at: nat, ghost left: Result<seq<Pair>, ParseError>)
    returns (r: Result<seq<Pair>, ParseError>, ghost next: Result<seq<Pair>, ParseError>)
    requires from <= at < |s| && s[at] == '\n' && NoNewline(s, from, at) && left == Meaning(s, from)
    ensures next == Meaning(s, at + 1) && NoNewline(s, at + 1, at + 1)
    ensures After(pairs, left) == if r.Failure? then r else After(r.value, next)
  {
    MeaningAtNewline(pairs, s, from, at);
    next := Meaning(s, at + 1);
    r := ParseLine(pairs, s[from..at]);
  }

  /** What follows the last newline. */
  method TakeLast(pairs: seq<Pair>, s: string, from: nat, ghost left: Result<seq<Pair>, ParseError>)
    returns (r: Result<seq<Pair>, ParseError>)
    requires from <= |s| && NoNewline(s, from, |s|) && left == Meaning(s, from)
    ensures r == After(pairs, left)
  {
    MeaningAtEnd(pairs, s, from);
    if from != |s| {
      r := ParseLine(pairs, s[from..]);
    } else {
      r := Success(pairs);
    }
  }

  lemma MeaningAtStart(s: string)
    ensures Meaning(s, 0) == ParseLines(Lines(s)) == After([], ParseLines(Lines(s)))
  {
    assert s[0..] == s;
    var whole := ParseLines(Lines(s));
    if whole.Success? {
      NothingBefore(whole.value);
    }
  }

  lemma MeaningAtNewline(pairs: seq<Pair>, s: string, from: nat, at: nat)
    requires from <= at < |s| && s[at] == '\n' && NoNewline(s, from, at)
    ensures After(pairs, Meaning(s, from)) ==
      var first := LineMeaning(s[from..at]);
      if first.Failure? then first else After(pairs + first.value, Meaning(s, at + 1))
  {
    var rest := s[from..];
    assert rest[..at - from] == s[from..at] && rest[at - from + 1..] == s[at + 1..];
    CutLine(rest, at - from);
    AfterLine(pairs, s[from..at], Lines(s[at + 1..]));
  }

  lemma MeaningAtEnd(pairs: seq<Pair>, s: string, from: nat)
    requires from <= |s| && NoNewline(s, from, |s|)
    ensures After(pairs, Meaning(s, from)) ==
      if from == |s| then Success(pairs)
      else var last := LineMeaning(s[from..]); if last.Failure? then last else Success(pairs + last.value)
  {
    NothingAfter(pairs);
    if from < |s| {
      var last := LineMeaning(s[from..]);
      assert s[from..] == s[from..|s|];
      LastLine(s[from..]);
      NothingAfter([s[from..]]);
      AfterLine(pairs, s[from..], []);
      if last.Success? {
        NothingAfter(pairs + last.value);
      }
    }
  }

  lemma CutLine(s: string, at: nat)
    requires at < |s| && s[at] == '\n' && '\n' !in s[..at]
    ensures Lines(s) == [s[..at]] + Lines(s[at + 1..])
  {
    IndexIs(s, '\n', at);
  }

  lemma LastLine(s: string)
    requires s != "" && '\n' !in s
    ensures Lines(s) == [s]
  {
    IndexFinds(s, '\n');
  }

  lemma AfterLine(pairs: seq<Pair>, line: string, lines: seq<string>)
    ensures LineMeaning(line).Failure? ==> After(pairs, ParseLines([line] + lines)) == LineMeaning(line)
    ensures LineMeaning(line).Success? ==>
      After(pairs, ParseLines([line] + lines)) == After(pairs + LineMeaning(line).value, ParseLines(lines))
  {
    assert ([line] + lines)[1..] == lines;
    var rest := ParseLines(lines);
    if LineMeaning(line).Success? && rest.Success? {
      assert pairs + (LineMeaning(line).value + rest.value) == pairs + LineMeaning(line).value + rest.value;
    }
  }

  // -- Printing --------------------------------------------------------------------------------

  function LineOf(p: Pair): string {
    p.key + ": " + p.value
  }

  function Print(pairs: seq<Pair>): string {
    if pairs == [] then "" else LineOf(pairs[0]) + "\n" + Print(pairs[1..])
  }

  /** The text written to the file. */
  method WritePairs(pairs: seq<Pair>) returns (text: string)
    ensures text == Print(pairs)
  {
    text := "";
    for i := 0 to |pairs|
      invariant Print(pairs) == text + Print(pairs[i..])
    {
      assert pairs[i..][1..] == pairs[i + 1..];
      var line := pairs[i].key + ": " + pairs[i].value + "\n";
      assert text + (line + Print(pairs[i + 1..])) == text + line + Print(pairs[i + 1..]);
      text := text + line;
    }
  }

  // -- What a printed list parses to -----------------------------------------------------------

  /** The scan over the key comes out exactly at its end, neither stopping at a colon inside it nor jumping
      over the colon that the printer puts after it. */
  predicate KeyEnds(key: string, i: nat)
    requires i <= |key|
    decreases |key| - i
  {
    if i == |key| then true
    else if key[i] != ':' then KeyEnds(key, i + 1)
    else i + 1 < |key| && key[i + 1] != ' ' && KeyEnds(key, i + 2)
  }

  /** What every parsed pair looks like. */
  predicate Clean(p: Pair) {
    && Trimmed(p.key) && Trimmed(p.value)
    && '\n' !in p.key && '\n' !in p.value
    && (p.key != "" ==> p.key[0] != '#')
  }

  predicate Storable(p: Pair) {
    Clean(p) && KeyEnds(p.key, 0)
  }

  lemma {:induction false} ColonFreeKeyEnds(key: string, i: nat)
    requires i <= |key| && ':' !in key
    ensures KeyEnds(key, i)
    decreases |key| - i
  {
    if i < |key| {
      assert key[i] in key;
      ColonFreeKeyEnds(key, i + 1);
    }
  }

  /** The scan of a printed line: it stops after the key exactly if the key allows it. */
  lemma {:induction false} ScanPrinted(key: string, tail: string, i: nat)
    requires i <= |key|
    requires tail != "" && tail[0] == ':' && (|tail| == 1 || tail[1] == ' ')
    ensures KeyEnds(key, i) <==> Scan(key + tail, i) == Some(|key| + 1)
    decreases |key| - i
  {
    var line := key + tail;
    if i < |key| {
      if key[i] != ':' {
        ScanPrinted(key, tail, i + 1);
      } else if i + 1 < |key| {
        if key[i + 1] != ' ' {
          ScanPrinted(key, tail, i + 2);
        }
      } else {
        assert line[i + 1] == ':';
        assert Scan(line, i) == Scan(line, i + 2);
      }
    }
  }

  /** A printed line after trimming. */
  ghost function Body(p: Pair): string {
    p.key + TailOf(p)
  }

  ghost function TailOf(p: Pair): string {
    ":" + if p.value == "" then "" else " " + p.value
  }

  lemma TrimPrinted(p: Pair)
    requires Clean(p)
    ensures Trim(LineOf(p)) == Body(p) && Body(p)[0] != '#'
  {
    if p.value == "" {
      assert LineOf(p) == "" + Body(p) + " ";
      TrimAround("", Body(p), " ");
    } else {
      assert LineOf(p) == Body(p);
    }
  }

  /** What a printed line means, by where the scan of it stops. */
  lemma PrintedMeaning(p: Pair)
    requires Clean(p)
    ensures LineMeaning(LineOf(p)) ==
      match Scan(Body(p), 0)
      case None => Failure(InvalidLine(LineOf(p)))
      case Some(at) => Success([Pair(Trim(Body(p)[..at - 1]), Trim(Body(p)[at..]))])
  {
    TrimPrinted(p);
  }

  /** A printed line gives its pair back exactly when the key ends where the scan stops, and never gives
      anything but one pair or an error. */
  lemma PrintedLine(p: Pair)
    requires Clean(p)
    ensures KeyEnds(p.key, 0) <==> LineMeaning(LineOf(p)) == Success([p])
    ensures LineMeaning(LineOf(p)).Success? ==> |LineMeaning(LineOf(p)).value| == 1
  {
    PrintedMeaning(p);
    ScanPrinted(p.key, TailOf(p), 0);
    match Scan(Body(p), 0)
    case None =>
    case Some(at) =>
      var found := Pair(Trim(Body(p)[..at - 1]), Trim(Body(p)[at..]));
      assert LineMeaning(LineOf(p)) == Success([found]);
      if at == |p.key| + 1 {
        RightCut(p);
        assert found == p;
      } else {
        WrongCut(p, at);
        assert found.key != p.key && [found][0] != [p][0];
      }
  }

  lemma RightCut(p: Pair)
    requires Clean(p)
    ensures Trim(Body(p)[..|p.key|]) == p.key && Trim(Body(p)[|p.key| + 1..]) == p.value
  {
    var line := Body(p);
    assert line[..|p.key|] == p.key;
    if p.value == "" {
      assert line[|p.key| + 1..] == "";
    } else {
      assert line[|p.key| + 1..] == " " + p.value + "";
      TrimAround(" ", p.value, "");
    }
  }

  /** Cut anywhere else, the key is too short or too long. */
  lemma WrongCut(p: Pair, at: nat)
    requires Clean(p) && 0 < at <= |Body(p)| && at != |p.key| + 1
    requires Body(p)[at - 1] == ':' && (p.key == "" ==> at == 1)
    ensures Trim(Body(p)[..at - 1]) != p.key
  {
    var key := Body(p)[..at - 1];
    if at - 1 < |p.key| {
      TrimShortens(key);
    } else {
      assert key[0] == p.key[0] && key[|p.key|] == ':';
      TrimKeeps(key, |p.key|);
    }
  }

  lemma {:induction false} LinesOfPrint(pairs: seq<Pair>)
    requires pairs != [] && '\n' !in pairs[0].key && '\n' !in pairs[0].value
    ensures Lines(Print(pairs)) == [LineOf(pairs[0])] + Lines(Print(pairs[1..]))
  {
    var line, text := LineOf(pairs[0]), Print(pairs);
    assert text[..|line|] == line && text[|line|] == '\n' && text[|line| + 1..] == Print(pairs[1..]);
    CutLine(text, |line|);
  }

  /** A clean list comes back exactly when all its keys end properly. */
  lemma {:induction false} ParsePrinted(pairs: seq<Pair>)
    requires forall p | p in pairs :: Clean(p)
    ensures ParseLines(Lines(Print(pairs))) == Success(pairs) <==> forall p | p in pairs :: KeyEnds(p.key, 0)
  {
    if pairs != [] {
      var p, rest := pairs[0], pairs[1..];
      assert Clean(p);
      LinesOfPrint(pairs);
      PrintedLine(p);
      ParsePrinted(rest);
      var lines := Lines(Print(pairs));
      assert lines[1..] == Lines(Print(rest));
      assert pairs == [p] + rest;
      var first, others := LineMeaning(LineOf(p)), ParseLines(Lines(Print(rest)));
      if first.Success? && others.Success? {
        assert (first.value + others.value)[..1] == first.value && (first.value + others.value)[1..] == others.value;
        assert pairs[..1] == [p];
      }
    }
  }

  lemma {:induction false} LinesHaveNoNewline(s: string)
    ensures forall line | line in Lines(s) :: '\n' !in line
    decreases |s|
  {
    if s != "" {
      var at := IndexOf(s, '\n');
      IndexFinds(s, '\n');
      assert s[..at] == if at == |s| then s else s[..at];
      if at < |s| {
        LinesHaveNoNewline(s[at + 1..]);
      }
    }
  }

  lemma MeaningIsClean(line: string)
    requires '\n' !in line && LineMeaning(line).Success?
    ensures forall p | p in LineMeaning(line).value :: Clean(p)
  {
    var t := Trim(line);
    TrimContains(line, '\n');
    if t != "" && t[0] != '#' {
      var at := Scan(t, 0).value;
      var key, value := t[..at - 1], t[at..];
      TrimContains(key, '\n');
      TrimContains(value, '\n');
      if key != "" {
        assert key[0] == t[0] && !IsSpace(key[0]);
        TrimKeeps(key, 0);
      }
    }
  }

  lemma {:induction false} ParsedIsClean(lines: seq<string>)
    requires forall line | line in lines :: '\n' !in line
    requires ParseLines(lines).Success?
    ensures forall p | p in ParseLines(lines).value :: Clean(p)
  {
    if lines != [] {
      assert lines[0] in lines;
      MeaningIsClean(lines[0]);
      ParsedIsClean(lines[1..]);
    }
  }

  /** The round trip holds exactly for lists of storable pairs: trimmed, on one line, no `#` in front, and a
      key that the scan for the separator passes over. */
  lemma RoundTripExactly(pairs: seq<Pair>)
    ensures ParseLines(Lines(Print(pairs))) == Success(pairs) <==> forall p | p in pairs :: Storable(p)
  {
    if forall p | p in pairs :: Clean(p) {
      ParsePrinted(pairs);
    } else if ParseLines(Lines(Print(pairs))) == Success(pairs) {
      LinesHaveNoNewline(Print(pairs));
      ParsedIsClean(Lines(Print(pairs)));
    }
  }

  /** In particular for keys without colons. */
  lemma ColonFreeRoundTrip(pairs: seq<Pair>)
    requires forall p | p in pairs :: Clean(p) && ':' !in p.key
    ensures ParseLines(Lines(Print(pairs))) == Success(pairs)
  {
    forall p | p in pairs ensures Storable(p) {
      ColonFreeKeyEnds(p.key, 0);
    }
    RoundTripExactly(pairs);
  }

  /** Printing and parsing; parsing never produces a pair that is not clean. */
  method WriteThenParse(pairs: seq<Pair>) returns (r: Result<seq<Pair>, ParseError>)
    ensures r == Success(pairs) <==> forall p | p in pairs :: Storable(p)
    ensures r.Success? ==> forall p | p in r.value :: Clean(p)
  {
    var text := WritePairs(pairs);
    r := ParseString(text);
    RoundTripExactly(pairs);
    LinesHaveNoNewline(text);
    if r.Success? {
      ParsedIsClean(Lines(text));
    }
  }
}
