/** File-name patterns: their elements, the language that a list of elements stands for, and the tokens of
    a pattern string.  Both matchers are measured against this. */
module FnPattern {
  import opened Sequences
  import opened Wrappers

  datatype Elem =
    | Star
    | AnyOne
    | OneOf(chars: string)
    | NotOneOf(chars: string)
    | Lit(text: string)
    | End                     // closes the runtime matcher's list

  /** The strings that one element stands for. */
  ghost predicate InElem(e: Elem, s: string) {
    match e
    case Star => true
    case AnyOne => |s| == 1
    case OneOf(chars) => |s| == 1 && s[0] in chars
    case NotOneOf(chars) => |s| == 1 && s[0] !in chars
    case Lit(text) => s == text
    case End => s == ""
  }

  ghost function Concat(pieces: seq<string>): string {
    if pieces == [] then "" else pieces[0] + Concat(pieces[1..])
  }

  ghost predicate PiecesFit(pattern: seq<Elem>, pieces: seq<string>) {
    |pieces| == |pattern| && forall i | 0 <= i < |pattern| :: InElem(pattern[i], pieces[i])
  }

  /** `s` is cut into consecutive pieces, one for each element and in its language. */
  ghost predicate Accepts(pattern: seq<Elem>, s: string) {
    exists pieces :: PiecesFit(pattern, pieces) && Concat(pieces) == s
  }

  lemma AcceptsEmpty(s: string)
    ensures Accepts([], s) <==> s == ""
  {
    assert PiecesFit([], []) && Concat([]) == "";
  }

  lemma AcceptsCons(e: Elem, rest: seq<Elem>, s: string, k: nat)
    requires k <= |s| && InElem(e, s[..k]) && Accepts(rest, s[k..])
    ensures Accepts([e] + rest, s)
  {
    var pieces :| PiecesFit(rest, pieces) && Concat(pieces) == s[k..];
    var all := [s[..k]] + pieces;
    assert all[1..] == pieces;
    assert Concat(all) == s[..k] + s[k..] == s;
    assert PiecesFit([e] + rest, all);
  }

  lemma AcceptsHead(e: Elem, rest: seq<Elem>, s: string) returns (k: nat)
    requires Accepts([e] + rest, s)
    ensures k <= |s| && InElem(e, s[..k]) && Accepts(rest, s[k..])
  {
    var pattern := [e] + rest;
    var pieces :| PiecesFit(pattern, pieces) && Concat(pieces) == s;
    k := |pieces[0]|;
    assert s[..k] == pieces[0] && s[k..] == Concat(pieces[1..]);
    forall i | 0 <= i < |rest| ensures InElem(rest[i], pieces[1..][i]) {
      assert InElem(pattern[i + 1], pieces[i + 1]);
    }
    assert PiecesFit(rest, pieces[1..]);
  }

  /** A string is accepted exactly when some prefix fits the first element and the remainder the others. */
  lemma AcceptsUnfold(pattern: seq<Elem>, s: string)
    requires pattern != []
    ensures Accepts(pattern, s) <==>
      exists k :: 0 <= k <= |s| && InElem(pattern[0], s[..k]) && Accepts(pattern[1..], s[k..])
  {
    assert pattern == [pattern[0]] + pattern[1..];
    if Accepts(pattern, s) {
      var k := AcceptsHead(pattern[0], pattern[1..], s);
    }
    if k :| 0 <= k <= |s| && InElem(pattern[0], s[..k]) && Accepts(pattern[1..], s[k..]) {
      AcceptsCons(pattern[0], pattern[1..], s, k);
    }
  }

  /** An element whose strings all have length `n`. */
  lemma AcceptsFixed(pattern: seq<Elem>, s: string, n: nat)
    requires pattern != []
    requires forall t | InElem(pattern[0], t) :: |t| == n
    ensures Accepts(pattern, s) <==>
      n <= |s| && InElem(pattern[0], s[..n]) && Accepts(pattern[1..], s[n..])
  {
    AcceptsUnfold(pattern, s);
  }

  /** The choice at an element whose strings all have length `n`. */
  lemma HeadFixed(nodes: seq<Elem>, node: nat, text: string, first: nat, n: nat)
    requires node < |nodes| && first <= |text|
    requires forall t | InElem(nodes[node], t) :: |t| == n
    ensures Accepts(nodes[node..], text[first..]) <==>
      && first + n <= |text| && InElem(nodes[node], text[first..first + n])
      && Accepts(nodes[node + 1..], text[first + n..])
  {
    var rest, s := nodes[node..], text[first..];
    assert rest[0] == nodes[node] && rest[1..] == nodes[node + 1..];
    AcceptsFixed(rest, s, n);
    if n <= |s| {
      assert s[..n] == text[first..first + n] && s[n..] == text[first + n..];
    }
  }

  lemma StarAccepts(rest: seq<Elem>, text: string, first: nat, at: nat)
    requires rest != [] && rest[0] == Star && first <= at <= |text|
    requires Accepts(rest[1..], text[at..])
    ensures Accepts(rest, text[first..])
  {
    var s := text[first..];
    assert s[at - first..] == text[at..];
    AcceptsUnfold(rest, s);
    assert InElem(Star, s[..at - first]);
  }

  lemma StarRejects(rest: seq<Elem>, text: string, first: nat)
    requires rest != [] && rest[0] == Star && first <= |text|
    requires forall k | first <= k <= |text| :: !Accepts(rest[1..], text[k..])
    ensures !Accepts(rest, text[first..])
  {
    var s := text[first..];
    AcceptsUnfold(rest, s);
    forall k | 0 <= k <= |s| ensures !Accepts(rest[1..], s[k..]) {
      assert s[k..] == text[first + k..];
    }
  }

  // -- Literals character by character ---------------------------------------------------------

  ghost function Singles(text: string): seq<Elem> {
    if text == "" then [] else [Lit(text[..1])] + Singles(text[1..])
  }

  /** Every literal split into its characters. */
  ghost function Expand(pattern: seq<Elem>): seq<Elem> {
    if pattern == [] then []
    else (if pattern[0].Lit? then Singles(pattern[0].text) else [pattern[0]]) + Expand(pattern[1..])
  }

  lemma {:induction false} AcceptsSingles(text: string, rest: seq<Elem>, s: string)
    ensures Accepts(Singles(text) + rest, s) <==> text <= s && Accepts(rest, s[|text|..])
  {
    if text == "" {
      NothingBefore(rest);
      assert s[0..] == s;
    } else {
      var more := Singles(text[1..]) + rest;
      Associate([Lit(text[..1])], Singles(text[1..]), rest);
      ConsTail(Lit(text[..1]), more);
      AcceptsFixed([Lit(text[..1])] + more, s, 1);
      if s != "" {
        AcceptsSingles(text[1..], rest, s[1..]);
        PrefixTail(text, s);
      }
    }
  }

  lemma PrefixTail(text: string, s: string)
    requires text != "" && s != ""
    ensures text <= s <==> text[..1] == s[..1] && text[1..] <= s[1..]
    ensures text <= s ==> s[1..][|text| - 1..] == s[|text|..]
  {
    if text[..1] == s[..1] && text[1..] <= s[1..] {
      assert text[0] == text[..1][0] == s[0];
      HeadTail(text);
      HeadTail(s);
    }
  }

  /** Grouping literal characters does not change the language. */
  lemma {:induction false} ExpandKeepsLanguage(pattern: seq<Elem>, s: string)
    ensures Accepts(Expand(pattern), s) <==> Accepts(pattern, s)
  {
    if pattern != [] {
      var e, rest := pattern[0], pattern[1..];
      AcceptsUnfold(pattern, s);
      if e.Lit? {
        AcceptsSingles(e.text, Expand(rest), s);
        AcceptsFixed(pattern, s, |e.text|);
        if e.text <= s {
          ExpandKeepsLanguage(rest, s[|e.text|..]);
        }
      } else {
        assert Expand(pattern)[0] == e && Expand(pattern)[1..] == Expand(rest);
        AcceptsUnfold(Expand(pattern), s);
        forall k | 0 <= k <= |s| ensures Accepts(Expand(rest), s[k..]) <==> Accepts(rest, s[k..]) {
          ExpandKeepsLanguage(rest, s[k..]);
        }
      }
    }
  }

  lemma {:induction false} ExpandConcat(p: seq<Elem>, q: seq<Elem>)
    ensures Expand(p + q) == Expand(p) + Expand(q)
  {
    if p == [] {
      assert p + q == q;
    } else {
      assert (p + q)[1..] == p[1..] + q;
      ExpandConcat(p[1..], q);
    }
  }

  /** The closing element accepts nothing more. */
  lemma {:induction false} AcceptsEnd(pattern: seq<Elem>, s: string)
    ensures Accepts(pattern + [End], s) <==> Accepts(pattern, s)
  {
    if pattern == [] {
      AcceptsEmpty(s);
      assert pattern + [End] == [End];
      AcceptsFixed([End], s, 0);
      assert s[0..] == s && [End][1..] == [];
    } else {
      assert (pattern + [End])[1..] == pattern[1..] + [End];
      AcceptsUnfold(pattern, s);
      AcceptsUnfold(pattern + [End], s);
      forall k | 0 <= k <= |s| ensures Accepts(pattern[1..] + [End], s[k..]) <==> Accepts(pattern[1..], s[k..]) {
        AcceptsEnd(pattern[1..], s[k..]);
      }
    }
  }

  // -- Tokens of a pattern string --------------------------------------------------------------

  datatype Group = Group(chars: string, rest: string)

  /** The characters of a group up to its closing bracket, and what follows the bracket. */
  function ReadGroup(p: string): Option<Group> {
    if p == "" then None
    else if p[0] == ']' then Some(Group("", p[1..]))
    else if p[0] == '\\' && |p| == 1 then None
    else
      var skip := if p[0] == '\\' then 1 else 0;
      match ReadGroup(p[skip + 1..])
      case None => None
      case Some(g) => Some(Group([p[skip]] + g.chars, g.rest))
  }

  lemma {:induction false} GroupConsumes(p: string)
    ensures ReadGroup(p).Some? ==> |ReadGroup(p).value.rest| < |p|
  {
    if p != "" && p[0] != ']' && !(p[0] == '\\' && |p| == 1) {
      GroupConsumes(p[(if p[0] == '\\' then 1 else 0) + 1..]);
    }
  }

  /** One element for each unit of the pattern string, or nothing if it ends inside a group or after a
      backslash.  `negation` says whether a group that starts with `!` is a negated one. */
  function Tokens(p: string, negation: bool): Option<seq<Elem>>
    decreases |p|
  {
    if p == "" then Some([])
    else if p[0] == '[' then
      var negated := negation && |p| > 1 && p[1] == '!';
      var body := if negated then p[2..] else p[1..];
      match ReadGroup(body)
      case None => None
      case Some(g) =>
        GroupConsumes(body);
        Prepend(if negated then NotOneOf(g.chars) else OneOf(g.chars), Tokens(g.rest, negation))
    else if p[0] == '\\' then
      if |p| == 1 then None else Prepend(Lit([p[1]]), Tokens(p[2..], negation))
    else
      Prepend(if p[0] == '*' then Star else if p[0] == '?' then AnyOne else Lit([p[0]]), Tokens(p[1..], negation))
  }

  function Prepend(e: Elem, rest: Option<seq<Elem>>): Option<seq<Elem>> {
    if rest.None? then None else Some([e] + rest.value)
  }

  ghost function After(before: seq<Elem>, rest: Option<seq<Elem>>): Option<seq<Elem>> {
    if rest.None? then None else Some(before + rest.value)
  }

  /** No group of the pattern starts with `!`. */
  predicate NoBangGroups(p: string)
    decreases |p|
  {
    if p == "" then true
    else if p[0] == '[' then
      !(|p| > 1 && p[1] == '!') &&
      match ReadGroup(p[1..])
      case None => true
      case Some(g) => GroupConsumes(p[1..]); NoBangGroups(g.rest)
    else if p[0] == '\\' then |p| == 1 || NoBangGroups(p[2..])
    else NoBangGroups(p[1..])
  }

  lemma {:induction false} NegationIrrelevant(p: string)
    requires NoBangGroups(p)
    ensures Tokens(p, true) == Tokens(p, false)
    decreases |p|
  {
    if p != "" {
      if p[0] == '[' {
        var g := ReadGroup(p[1..]);
        GroupConsumes(p[1..]);
        if g.Some? { NegationIrrelevant(g.value.rest); }
      } else if p[0] == '\\' {
        if |p| > 1 { NegationIrrelevant(p[2..]); }
      } else {
        NegationIrrelevant(p[1..]);
      }
    }
  }

  // -- Spelling --------------------------------------------------------------------------------

  /** Every character with a backslash before it. */
  function Escape(text: string): string {
    if text == "" then "" else ['\\', text[0]] + Escape(text[1..])
  }

  function Spell(e: Elem): string
    requires !e.End?
  {
    match e
    case Star => "*"
    case AnyOne => "?"
    case OneOf(chars) => "[" + Escape(chars) + "]"
    case NotOneOf(chars) => "[!" + Escape(chars) + "]"
    case Lit(text) => Escape(text)
  }

  function SpellAll(pattern: seq<Elem>): string
    requires forall e | e in pattern :: !e.End?
  {
    if pattern == [] then "" else Spell(pattern[0]) + SpellAll(pattern[1..])
  }

  lemma {:induction false} ReadEscaped(chars: string, rest: string)
    ensures ReadGroup(Escape(chars) + "]" + rest) == Some(Group(chars, rest))
  {
    var p := Escape(chars) + "]" + rest;
    if chars == "" {
      assert p == "]" + rest;
    } else {
      assert p[0] == '\\' && p[1] == chars[0];
      assert p[2..] == Escape(chars[1..]) + "]" + rest;
      ReadEscaped(chars[1..], rest);
      assert [p[1]] + chars[1..] == chars;
    }
  }

  lemma TokensOfGroup(chars: string, tail: string)
    ensures Tokens("[" + Escape(chars) + "]" + tail, true) == Prepend(OneOf(chars), Tokens(tail, true))
  {
    var p := "[" + Escape(chars) + "]" + tail;
    assert p[1..] == Escape(chars) + "]" + tail;
    assert p[1] != '!';
    ReadEscaped(chars, tail);
  }

  lemma TokensOfNegatedGroup(chars: string, tail: string)
    ensures Tokens("[!" + Escape(chars) + "]" + tail, true) == Prepend(NotOneOf(chars), Tokens(tail, true))
  {
    var p := "[!" + Escape(chars) + "]" + tail;
    assert p[2..] == Escape(chars) + "]" + tail;
    ReadEscaped(chars, tail);
  }

  lemma TokensOfLiteral(c: char, tail: string)
    ensures Tokens(['\\', c] + tail, true) == Prepend(Lit([c]), Tokens(tail, true))
  {
    var p := ['\\', c] + tail;
    assert p[2..] == tail;
  }

  lemma TokensOfSpell(e: Elem, tail: string)
    requires !e.End? && (e.Lit? ==> |e.text| == 1)
    ensures Tokens(Spell(e) + tail, true) == Prepend(e, Tokens(tail, true))
  {
    match e
    case OneOf(chars) => TokensOfGroup(chars, tail);
    case NotOneOf(chars) => TokensOfNegatedGroup(chars, tail);
    case Lit(text) =>
      assert Escape(text[1..]) == "" && [text[0]] == text;
      TokensOfLiteral(text[0], tail);
    case Star => assert ("*" + tail)[1..] == tail;
    case AnyOne => assert ("?" + tail)[1..] == tail;
  }

  /** Every list of elements, with literals of one character, is the tokens of some pattern string. */
  lemma {:induction false} TokensOfSpelling(pattern: seq<Elem>)
    requires forall e | e in pattern :: !e.End? && (e.Lit? ==> |e.text| == 1)
    ensures Tokens(SpellAll(pattern), true) == Some(pattern)
  {
    if pattern != [] {
      TokensOfSpelling(pattern[1..]);
      TokensOfSpell(pattern[0], SpellAll(pattern[1..]));
      assert pattern == [pattern[0]] + pattern[1..];
    }
  }
}
