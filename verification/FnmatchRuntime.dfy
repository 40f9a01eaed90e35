/** The runtime matcher: a pattern string is compiled into a list of elements that ends in `End`, and each
    element matches a stretch of the text before handing over to the next. */
module FnmatchRuntime {
  import opened FnPattern
  import opened Sequences
  import opened Wrappers

  datatype PatternError = UnterminatedGroup | TrailingBackslash

  /** A list under construction: no negated groups, and not closed yet. */
  ghost predicate Open(nodes: seq<Elem>) {
    forall i | 0 <= i < |nodes| :: !nodes[i].NotOneOf? && !nodes[i].End?
  }

  /** One more element, which may stand in an open list. */
  ghost predicate AddsOne(before: seq<Elem>, after: seq<Elem>) {
    |after| == |before| + 1 && before <= after && !after[|before|].NotOneOf? && !after[|before|].End?
  }

  class PatternImpl {
    var nodes: seq<Elem>  // the element after nodes[i] is nodes[i + 1]

    constructor ()
      ensures nodes == []
    {
      nodes := [];
    }

    /** The list is closed by its only `End`. */
    ghost predicate Closed()
      reads this
    {
      |nodes| > 0 && nodes[|nodes| - 1] == End && Open(nodes[..|nodes| - 1])
    }

    method AddElem(e: Elem)
      modifies this
      ensures nodes == old(nodes) + [e]
    {
      nodes := nodes + [e];
    }

    /** Compiles the group whose first character is at `cur`; the result is where the group ends. */
    method CompileOneof(str: string, cur: nat) returns (r: Result<nat, PatternError>)
      requires cur <= |str|
      modifies this
      ensures r.Success? <==> ReadGroup(str[cur..]).Some?
      ensures r.Success? ==>
        && cur < r.value <= |str|
        && str[r.value..] == ReadGroup(str[cur..]).value.rest
        && nodes == old(nodes) + [OneOf(ReadGroup(str[cur..]).value.chars)]
      ensures r.Failure? ==> nodes == old(nodes)
    {
      var chars, end := GatherGroup(str, cur);
      if end.None? {
        return Failure(UnterminatedGroup);
      }
      AddElem(OneOf(chars));
      return Success(end.value);
    }

    /** Compiles the run of literal characters at `cur` into one element. */
    method CompileLit(str: string, cur: nat) returns (r: Result<nat, PatternError>)
      requires cur < |str| && !Special(str[cur])
      modifies this
      ensures r.Success? ==>
        && cur < r.value <= |str| && AddsOne(old(nodes), nodes) && nodes[|old(nodes)|].Lit?
        && Tokens(str[cur..], false) == After(Expand([nodes[|old(nodes)|]]), Tokens(str[r.value..], false))
      ensures r.Failure? ==> Tokens(str[cur..], false).None?
    {
      var lit := "";
      var at := cur;
      ghost var whole := Tokens(str[cur..], false);
      assert whole == After(Singles(""), whole) by {
        if whole.Some? { assert [] + whole.value == whole.value; }
      }
      while at != |str|
        invariant cur <= at <= |str| && (at == cur ==> lit == "") && nodes == old(nodes)
        invariant whole == After(Singles(lit), Tokens(str[at..], false))
        invariant at == cur ==> !Special(str[cur])
      {
        var c := str[at];
        if Special(c) {
          break;
        }
        if c == '\\' {
          at := at + 1;
          if at == |str| {
            return Failure(TrailingBackslash);
          }
          assert str[at - 1..][2..] == str[at + 1..] && str[at - 1..][1] == str[at];
          AfterStep(lit, str[at], Tokens(str[at + 1..], false));
          lit := lit + [str[at]];
          at := at + 1;
          continue;
        } else {
          assert str[at..][1..] == str[at + 1..];
          AfterStep(lit, c, Tokens(str[at + 1..], false));
          lit := lit + [c];
        }
        at := at + 1;
      }
      AddElem(Lit(lit));
      ExpandOne(Lit(lit));
      return Success(at);
    }

    /** Compiles the element that starts at `first`: one turn of `CompileNext`. */
    method CompileUnit(str: string, first: nat) returns (r: Result<nat, PatternError>)
      requires first < |str|
      modifies this
      ensures r.Success? ==>
        && first < r.value <= |str| && AddsOne(old(nodes), nodes)
        && Tokens(str[first..], false) == After(Expand([nodes[|old(nodes)|]]), Tokens(str[r.value..], false))
      ensures r.Failure? ==> Tokens(str[first..], false).None?
    {
      var c := str[first];
      assert str[first..][1..] == str[first + 1..];
      if c == '*' {
        AddElem(Star);
        ExpandOne(Star);
        return Success(first + 1);
      } else if c == '[' {
        r := CompileOneof(str, first + 1);
        if r.Success? {
          ExpandOne(nodes[|old(nodes)|]);
        }
      } else if c == '?' {
        AddElem(AnyOne);
        ExpandOne(AnyOne);
        return Success(first + 1);
      } else {
        r := CompileLit(str, first);
      }
    }

    /** Compiles the pattern from `first` on.  The elements added are, literals taken character by
        character, the tokens of that part of the string. */
    method CompileNext(str: string, first: nat) returns (error: Option<PatternError>)
      requires first <= |str|
      requires Open(nodes)
      modifies this
      ensures error.None? <==> Tokens(str[first..], false).Some?
      ensures error.None? ==>
        && old(nodes) <= nodes && Open(nodes)
        && Expand(nodes[|old(nodes)|..]) == Tokens(str[first..], false).value
      decreases |str| - first
    {
      ghost var before := nodes;
      if first == |str| {
        assert nodes[|before|..] == [];
        return None;
      }
      var r := CompileUnit(str, first);
      if r.Failure? {
        return Some(r.error);
      }
      ghost var middle := nodes;
      error := CompileNext(str, r.value);
      if error.None? {
        assert nodes[|before|..] == [middle[|before|]] + nodes[|middle|..];
        ExpandConcat([middle[|before|]], nodes[|middle|..]);
      }
    }

    /** Whether the text from `first` on matches the list from element `node` on. */
    method MatchFrom(node: nat, text: string, first: nat) returns (b: bool)
      requires Closed() && node < |nodes| && first <= |text|
      ensures b <==> Accepts(nodes[node..], text[first..])
      decreases |nodes| - node, 1
    {
      match nodes[node]
      case Star => b := MatchStar(node, text, first);
      case AnyOne => b := MatchAnyChar(node, text, first);
      case OneOf(_) => b := MatchOneof(node, text, first);
      case Lit(_) => b := MatchLit(node, text, first);
      case End =>
        ghost var rest, s := nodes[node..], text[first..];
        assert rest[0] == End && rest[1..] == [];
        AcceptsFixed(rest, s, 0);
        AcceptsEmpty(s[0..]);
        b := first == |text|;
    }

    method MatchStar(node: nat, text: string, first: nat) returns (b: bool)
      requires Closed() && node < |nodes| && nodes[node].Star? && first <= |text|
      ensures b <==> Accepts(nodes[node..], text[first..])
      decreases |nodes| - node, 0
    {
      ghost var rest := nodes[node..];
      assert rest[0] == Star && rest[1..] == nodes[node + 1..];
      var at := first;
      while at != |text|
        invariant first <= at <= |text|
        invariant forall k | first <= k < at :: !Accepts(rest[1..], text[k..])
      {
        var matched := MatchFrom(node + 1, text, at);
        if matched {
          StarAccepts(rest, text, first, at);
          return true;
        }
        at := at + 1;
      }
      b := MatchFrom(node + 1, text, at);
      if b {
        StarAccepts(rest, text, first, at);
      } else {
        StarRejects(rest, text, first);
      }
    }

    method MatchAnyChar(node: nat, text: string, first: nat) returns (b: bool)
      requires Closed() && node < |nodes| && nodes[node].AnyOne? && first <= |text|
      ensures b <==> Accepts(nodes[node..], text[first..])
      decreases |nodes| - node, 0
    {
      HeadFixed(nodes, node, text, first, 1);
      if first == |text| {
        return false;
      }
      b := MatchFrom(node + 1, text, first + 1);
    }

    method MatchOneof(node: nat, text: string, first: nat) returns (b: bool)
      requires Closed() && node < |nodes| && nodes[node].OneOf? && first <= |text|
      ensures b <==> Accepts(nodes[node..], text[first..])
      decreases |nodes| - node, 0
    {
      HeadFixed(nodes, node, text, first, 1);
      if first == |text| || text[first] !in nodes[node].chars {
        return false;
      }
      b := MatchFrom(node + 1, text, first + 1);
    }

    method MatchLit(node: nat, text: string, first: nat) returns (b: bool)
      requires Closed() && node < |nodes| && nodes[node].Lit? && first <= |text|
      ensures b <==> Accepts(nodes[node..], text[first..])
      decreases |nodes| - node, 0
    {
      var lit := nodes[node].text;
      HeadFixed(nodes, node, text, first, |lit|);
      if |text| - first < |lit| || text[first..first + |lit|] != lit {
        return false;
      }
      b := MatchFrom(node + 1, text, first + |lit|);
    }

    method Match(text: string) returns (b: bool)
      requires Closed()
      ensures b <==> Accepts(nodes, text)
    {
      assert nodes[0..] == nodes && text[0..] == text;
      b := MatchFrom(0, text, 0);
    }
  }

  /** The throwing constructor. */
  method Compile(str: string) returns (r: Result<PatternImpl, PatternError>)
    ensures r.Success? <==> Tokens(str, false).Some?
    ensures r.Success? ==>
      && fresh(r.value) && r.value.Closed()
      && Expand(r.value.nodes) == Tokens(str, false).value + [End]
  {
    var impl := new PatternImpl();
    assert str[0..] == str;
    var error := impl.CompileNext(str, 0);
    if error.Some? {
      return Failure(error.value);
    }
    ghost var body := impl.nodes;
    assert body[0..] == body;
    impl.AddElem(End);
    assert impl.nodes[..|body|] == body;
    ExpandConcat(body, [End]);
    ExpandOne(End);
    return Success(impl);
  }

  /** Compiling and matching: the strings accepted are exactly those that the tokens of the pattern split
      up, one piece for each token. */
  method CompileAndMatch(str: string, text: string) returns (r: Result<bool, PatternError>)
    ensures r.Success? <==> Tokens(str, false).Some?
    ensures r.Success? ==> (r.value <==> Accepts(Tokens(str, false).value, text))
  {
    var impl := Compile(str);
    if impl.Failure? {
      return Failure(impl.error);
    }
    var b := impl.value.Match(text);
    ExpandKeepsLanguage(impl.value.nodes, text);
    AcceptsEnd(Tokens(str, false).value, text);
    return Success(b);
  }

  // -- Reasoning about the cursor loops --------------------------------------------------------

  /** The characters that end a run of literals. */
  predicate Special(c: char) {
    c == '*' || c == '[' || c == '?'
  }

  /** A group whose characters before this point are `chars`. */
  ghost function AfterChars(chars: string, g: Option<Group>): Option<Group> {
    if g.None? then None else Some(Group(chars + g.value.chars, g.value.rest))
  }

  /** The loop over the characters of a group, up to behind its bracket. */
  method GatherGroup(str: string, cur: nat) returns (chars: string, end: Option<nat>)
    requires cur <= |str|
    ensures end.None? ==> ReadGroup(str[cur..]) == None
    ensures end.Some? ==> cur < end.value <= |str| && ReadGroup(str[cur..]) == Some(Group(chars, str[end.value..]))
  {
    chars := "";
    var at := cur;
    ghost var left := ReadGroup(str[cur..]);
    ghost var whole := left;
    NothingRead(left);
    while at != |str|
      invariant cur <= at <= |str|
      invariant left == ReadGroup(str[at..]) && whole == AfterChars(chars, left)
    {
      var c := str[at];
      if c == ']' {
        GroupCloses(str, at, chars);
        return chars, Some(at + 1);
      }
      GroupGoesOn(str, at, chars);
      if c == '\\' {
        at := at + 1;
        if at == |str| {
          return chars, None;
        }
        chars := chars + [str[at]];
      } else {
        chars := chars + [c];
      }
      at := at + 1;
      left := ReadGroup(str[at..]);
    }
    return chars, None;
  }

  lemma NothingRead(g: Option<Group>)
    ensures AfterChars("", g) == g
  {
    if g.Some? {
      NothingBefore(g.value.chars);
    }
  }

  lemma GroupCloses(str: string, at: nat, chars: string)
    requires at < |str| && str[at] == ']'
    ensures AfterChars(chars, ReadGroup(str[at..])) == Some(Group(chars, str[at + 1..]))
  {
    DropNext(str, at);
    NothingAfter(chars);
  }

  /** Any other character is taken into the group, or the one after it if it is a backslash. */
  lemma GroupGoesOn(str: string, at: nat, chars: string)
    requires at < |str| && str[at] != ']'
    ensures var skip := if str[at] == '\\' then 1 else 0;
      AfterChars(chars, ReadGroup(str[at..])) ==
        if at + skip == |str| then None else AfterChars(chars + [str[at + skip]], ReadGroup(str[at + skip + 1..]))
  {
    DropNext(str, at);
    var skip := if str[at] == '\\' then 1 else 0;
    if at + skip < |str| {
      assert str[at..][skip] == str[at + skip] && str[at..][skip + 1..] == str[at + skip + 1..];
      var g := ReadGroup(str[at + skip + 1..]);
      if g.Some? {
        Associate(chars, [str[at + skip]], g.value.chars);
      }
    }
  }

  lemma AfterStep(lit: string, c: char, rest: Option<seq<Elem>>)
    ensures After(Singles(lit), Prepend(Lit([c]), rest)) == After(Singles(lit + [c]), rest)
  {
    if rest.Some? {
      SinglesAppend(lit, c);
      assert Singles(lit) + ([Lit([c])] + rest.value) == Singles(lit) + [Lit([c])] + rest.value;
    }
  }

  lemma {:induction false} SinglesAppend(lit: string, c: char)
    ensures Singles(lit + [c]) == Singles(lit) + [Lit([c])]
  {
    if lit == "" {
      assert lit + [c] == [c] && [c][..1] == [c] && [c][1..] == "";
    } else {
      assert (lit + [c])[1..] == lit[1..] + [c] && (lit + [c])[..1] == lit[..1];
      SinglesAppend(lit[1..], c);
    }
  }

  lemma ExpandOne(e: Elem)
    ensures Expand([e]) == if e.Lit? then Singles(e.text) else [e]
  {
    assert [e][1..] == [];
  }
}
