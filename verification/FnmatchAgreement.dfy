/** When the two matchers agree.  They read the same pattern strings, but a group that starts with `!` is a negated
    set for the compile-time one, and a set that contains `!` for the runtime one. */
module FnmatchAgreement {
  import opened Wrappers
  import opened FnPattern
  import opened Sequences
  import FnmatchCompileTime
  import FnmatchRuntime

  // -- The two readings of a pattern -----------------------------------------------------------

  function PlainElem(e: Elem): Elem {
    if e.NotOneOf? then OneOf("!" + e.chars) else e
  }

  /** The elements as the runtime matcher reads them. */
  function Plain(pattern: seq<Elem>): seq<Elem> {
    if pattern == [] then [] else [PlainElem(pattern[0])] + Plain(pattern[1..])
  }

  function PlainTokens(tokens: Option<seq<Elem>>): Option<seq<Elem>> {
    if tokens.None? then None else Some(Plain(tokens.value))
  }

  /** Some group of the pattern is `[]`. */
  predicate HasEmptyGroup(p: string)
    decreases |p|
  {
    if p == "" then false
    else if p[0] == '[' then
      (|p| > 1 && p[1] == ']') ||
      match ReadGroup(p[1..])
      case None => false
      case Some(g) => GroupConsumes(p[1..]); HasEmptyGroup(g.rest)
    else if p[0] == '\\' then |p| > 1 && HasEmptyGroup(p[2..])
    else HasEmptyGroup(p[1..])
  }

  predicate HasNegated(pattern: seq<Elem>) {
    exists i :: 0 <= i < |pattern| && pattern[i].NotOneOf?
  }

  lemma PlainPrepend(e: Elem, rest: Option<seq<Elem>>)
    ensures PlainTokens(Prepend(e, rest)) == Prepend(PlainElem(e), PlainTokens(rest))
  {
    if rest.Some? {
      assert ([e] + rest.value)[1..] == rest.value;
    }
  }

  /** A leading `!` is an ordinary character of the group to the runtime matcher. */
  lemma BangIsRead(p: string)
    requires |p| > 1 && p[0] == '[' && p[1] == '!'
    ensures ReadGroup(p[1..]).Some? <==> ReadGroup(p[2..]).Some?
    ensures ReadGroup(p[1..]).Some? ==>
      && ReadGroup(p[1..]).value.rest == ReadGroup(p[2..]).value.rest
      && ReadGroup(p[1..]).value.chars == "!" + ReadGroup(p[2..]).value.chars
  {
    assert p[1..][1..] == p[2..];
    assert ['!'] == "!";
  }

  /** Every pattern string compiles for both matchers or for neither, and then the elements differ in the negated
      groups only. */
  lemma {:induction false} TokensDiffer(p: string)
    ensures Tokens(p, false) == PlainTokens(Tokens(p, true))
    decreases |p|
  {
    if p != "" {
      if p[0] == '[' {
        var negated := |p| > 1 && p[1] == '!';
        if negated {
          BangIsRead(p);
        }
        var g := ReadGroup(if negated then p[2..] else p[1..]);
        if g.Some? {
          GroupConsumes(if negated then p[2..] else p[1..]);
          TokensDiffer(g.value.rest);
          PlainPrepend(if negated then NotOneOf(g.value.chars) else OneOf(g.value.chars), Tokens(g.value.rest, true));
        }
      } else if p[0] == '\\' {
        if |p| > 1 {
          TokensDiffer(p[2..]);
          PlainPrepend(Lit([p[1]]), Tokens(p[2..], true));
        }
      } else {
        TokensDiffer(p[1..]);
        PlainPrepend(if p[0] == '*' then Star else if p[0] == '?' then AnyOne else Lit([p[0]]), Tokens(p[1..], true));
      }
    }
  }

  lemma HasInPrepend(e: Elem, rest: seq<Elem>)
    ensures HasNegated([e] + rest) <==> e.NotOneOf? || HasNegated(rest)
    ensures OneOf("") in [e] + rest <==> e == OneOf("") || OneOf("") in rest
  {
    var all := [e] + rest;
    if e.NotOneOf? {
      assert all[0].NotOneOf?;
    }
    if i :| 0 <= i < |rest| && rest[i].NotOneOf? {
      assert all[i + 1].NotOneOf?;
    }
  }

  /** What the pattern string shows of its elements. */
  lemma {:induction false} TokensShow(p: string)
    requires Tokens(p, true).Some?
    ensures NoBangGroups(p) <==> !HasNegated(Tokens(p, true).value)
    ensures HasEmptyGroup(p) <==> OneOf("") in Tokens(p, true).value
    decreases |p|
  {
    if p != "" {
      if p[0] == '[' {
        var negated := |p| > 1 && p[1] == '!';
        if negated {
          BangIsRead(p);
        }
        var g := ReadGroup(if negated then p[2..] else p[1..]).value;
        GroupConsumes(if negated then p[2..] else p[1..]);
        TokensShow(g.rest);
        HasInPrepend(if negated then NotOneOf(g.chars) else OneOf(g.chars), Tokens(g.rest, true).value);
      } else if p[0] == '\\' {
        TokensShow(p[2..]);
        HasInPrepend(Lit([p[1]]), Tokens(p[2..], true).value);
      } else {
        TokensShow(p[1..]);
        HasInPrepend(if p[0] == '*' then Star else if p[0] == '?' then AnyOne else Lit([p[0]]),
                     Tokens(p[1..], true).value);
      }
    }
  }

  // -- Strings that leave nothing to the stars -------------------------------------------------

  /** How many characters the elements other than stars take. */
  function Width(pattern: seq<Elem>): nat {
    if pattern == [] then 0 else (if pattern[0].Star? then 0 else 1) + Width(pattern[1..])
  }

  predicate FitsChar(e: Elem, c: char) {
    match e
    case AnyOne => true
    case OneOf(chars) => c in chars
    case NotOneOf(chars) => c !in chars
    case Lit(text) => text == [c]
    case _ => false
  }

  /** One character for each element that is not a star, which it fits. */
  predicate AllFit(pattern: seq<Elem>, s: string) {
    if pattern == [] then s == ""
    else if pattern[0].Star? then AllFit(pattern[1..], s)
    else s != "" && FitsChar(pattern[0], s[0]) && AllFit(pattern[1..], s[1..])
  }

  lemma TailCompiled(pattern: seq<Elem>)
    requires FnmatchCompileTime.Compiled(pattern) && pattern != []
    ensures FnmatchCompileTime.Compiled(pattern[1..])
    ensures !pattern[0].End? && (pattern[0].Lit? ==> |pattern[0].text| == 1)
  {}

  /** An element other than a star takes the first character. */
  lemma TakesOne(pattern: seq<Elem>, s: string)
    requires FnmatchCompileTime.Compiled(pattern) && pattern != [] && !pattern[0].Star?
    ensures Accepts(pattern, s) <==> s != "" && FitsChar(pattern[0], s[0]) && Accepts(pattern[1..], s[1..])
  {
    TailCompiled(pattern);
    AcceptsFixed(pattern, s, 1);
    if s != "" {
      assert s[..1] == [s[0]];
      assert InElem(pattern[0], s[..1]) <==> FitsChar(pattern[0], s[0]);
    }
  }

  lemma {:induction false} AcceptsAtLeast(pattern: seq<Elem>, s: string)
    requires FnmatchCompileTime.Compiled(pattern) && Accepts(pattern, s)
    ensures |s| >= Width(pattern)
  {
    if pattern != [] {
      TailCompiled(pattern);
      if pattern[0].Star? {
        AcceptsUnfold(pattern, s);
        var k :| 0 <= k <= |s| && Accepts(pattern[1..], s[k..]);
        AcceptsAtLeast(pattern[1..], s[k..]);
      } else {
        TakesOne(pattern, s);
        AcceptsAtLeast(pattern[1..], s[1..]);
      }
    }
  }

  /** On strings of the least possible length every element but a star takes one character. */
  lemma {:induction false} ShortestFit(pattern: seq<Elem>, s: string)
    requires FnmatchCompileTime.Compiled(pattern) && |s| == Width(pattern)
    ensures Accepts(pattern, s) <==> AllFit(pattern, s)
  {
    if pattern == [] {
      AcceptsEmpty(s);
    } else {
      TailCompiled(pattern);
      if pattern[0].Star? {
        AcceptsUnfold(pattern, s);
        assert s[0..] == s && InElem(Star, s[..0]);
        if k :| 0 <= k <= |s| && Accepts(pattern[1..], s[k..]) {
          AcceptsAtLeast(pattern[1..], s[k..]);
        }
        ShortestFit(pattern[1..], s);
      } else {
        TakesOne(pattern, s);
        ShortestFit(pattern[1..], s[1..]);
      }
    }
  }

  // -- A string on which they disagree ---------------------------------------------------------

  /** A character for each element but the stars; the first negated group gets `c`, the others `!`. */
  function Witness(pattern: seq<Elem>, c: char): (s: string)
    requires FnmatchCompileTime.Compiled(pattern) && OneOf("") !in pattern
    ensures |s| == Width(pattern)
  {
    if pattern == [] then ""
    else
      TailCompiled(pattern);
      var rest := pattern[1..];
      match pattern[0]
      case Star => Witness(rest, c)
      case AnyOne => "a" + Witness(rest, c)
      case OneOf(chars) => assert pattern[0] in pattern; [chars[0]] + Witness(rest, c)
      case NotOneOf(_) => [c] + Witness(rest, '!')
      case Lit(text) => text + Witness(rest, c)
  }

  /** The witness with `!` in every negated group fits the runtime reading; where it fits the other one too, another
      character at the first negated group separates them. */
  lemma {:induction false} WitnessFits(pattern: seq<Elem>, c: char)
    requires FnmatchCompileTime.Compiled(pattern) && OneOf("") !in pattern
    ensures AllFit(Plain(pattern), Witness(pattern, '!'))
    ensures c != '!' && HasNegated(pattern) && AllFit(pattern, Witness(pattern, '!')) ==>
      (AllFit(pattern, Witness(pattern, c)) <==> !AllFit(Plain(pattern), Witness(pattern, c)))
  {
    if pattern != [] {
      TailCompiled(pattern);
      var e, rest := pattern[0], pattern[1..];
      assert pattern == [e] + rest;
      HasInPrepend(e, rest);
      assert Plain(pattern)[1..] == Plain(rest);
      WitnessFits(rest, c);
    }
  }

  lemma {:induction false} PlainKeepsShape(pattern: seq<Elem>)
    requires FnmatchCompileTime.Compiled(pattern)
    ensures FnmatchCompileTime.Compiled(Plain(pattern)) && Width(Plain(pattern)) == Width(pattern)
  {
    if pattern != [] {
      TailCompiled(pattern);
      PlainKeepsShape(pattern[1..]);
    }
  }

  /** Where no group is negated, nothing changes, and empty groups stay. */
  lemma {:induction false} PlainKeepsGroups(pattern: seq<Elem>)
    ensures !HasNegated(pattern) ==> Plain(pattern) == pattern
    ensures OneOf("") in pattern ==> OneOf("") in Plain(pattern)
  {
    if pattern != [] {
      PlainKeepsGroups(pattern[1..]);
      HeadTail(pattern);
      HasInPrepend(pattern[0], pattern[1..]);
      HasInPrepend(PlainElem(pattern[0]), Plain(pattern[1..]));
    }
  }

  lemma NothingFitsEmptyGroup(pattern: seq<Elem>, s: string)
    requires OneOf("") in pattern
    ensures !Accepts(pattern, s)
  {
    var i :| 0 <= i < |pattern| && pattern[i] == OneOf("");
    if pieces :| PiecesFit(pattern, pieces) && Concat(pieces) == s {
      assert InElem(pattern[i], pieces[i]);
    }
  }

  /** With a negated group and no empty one, some string is accepted in one reading only. */
  lemma ReadingsDiffer(pattern: seq<Elem>) returns (s: string)
    requires FnmatchCompileTime.Compiled(pattern) && OneOf("") !in pattern && HasNegated(pattern)
    ensures Accepts(pattern, s) <==> !Accepts(Plain(pattern), s)
  {
    PlainKeepsShape(pattern);
    WitnessFits(pattern, 'a');
    s := Witness(pattern, if AllFit(pattern, Witness(pattern, '!')) then 'a' else '!');
    ShortestFit(pattern, s);
    ShortestFit(Plain(pattern), s);
  }

  /** The two readings of a pattern are the same language exactly when no group of it starts with `!`, or when some
      group is `[]`, so that nothing is accepted at all. */
  lemma AgreeExactly(p: string)
    requires Tokens(p, true).Some?
    ensures Tokens(p, false).Some?
    ensures (forall s :: Accepts(Tokens(p, true).value, s) <==> Accepts(Tokens(p, false).value, s))
       <==> NoBangGroups(p) || HasEmptyGroup(p)
  {
    var pattern := Tokens(p, true).value;
    TokensDiffer(p);
    TokensShow(p);
    FnmatchCompileTime.TokensAreCompiled(p, true);
    PlainKeepsShape(pattern);
    PlainKeepsGroups(pattern);
    if OneOf("") in pattern {
      forall s ensures !Accepts(pattern, s) && !Accepts(Plain(pattern), s) {
        NothingFitsEmptyGroup(pattern, s);
        NothingFitsEmptyGroup(Plain(pattern), s);
      }
    } else if HasNegated(pattern) {
      var s := ReadingsDiffer(pattern);
    }
  }

  /** Both matchers at once.  They fail on the same patterns, and give the same answer for every text exactly where
      `AgreeExactly` says so. */
  method MatchBoth(str: string, text: string) returns (ct: Option<bool>, rt: Result<bool, FnmatchRuntime.PatternError>)
    ensures ct.Some? <==> rt.Success?
    ensures ct.Some? ==> Tokens(str, true).Some? && Tokens(str, false).Some?
    ensures ct.Some? ==> (ct.value <==> Accepts(Tokens(str, true).value, text))
    ensures ct.Some? ==> (rt.value <==> Accepts(Tokens(str, false).value, text))
    ensures ct.Some? && (NoBangGroups(str) || HasEmptyGroup(str)) ==> ct.value == rt.value
  {
    ct := FnmatchCompileTime.CompileAndMatch(str, text);
    rt := FnmatchRuntime.CompileAndMatch(str, text);
    TokensDiffer(str);
    if ct.Some? {
      AgreeExactly(str);
    }
  }

  lemma {:induction false} FitWidth(pattern: seq<Elem>, s: string)
    requires AllFit(pattern, s)
    ensures |s| == Width(pattern)
  {
    if pattern != [] {
      FitWidth(pattern[1..], if pattern[0].Star? then s else s[1..]);
    }
  }

  lemma {:induction false} FitsAround(before: seq<Elem>, chars: string, after: seq<Elem>, u: string, c: char, v: string)
    requires FnmatchCompileTime.Compiled(before) && FnmatchCompileTime.Compiled(after)
    requires AllFit(before, u) && AllFit(Plain(before), u) && AllFit(after, v) && AllFit(Plain(after), v)
    ensures var pattern, s := before + [NotOneOf(chars)] + after, u + [c] + v;
      && FnmatchCompileTime.Compiled(pattern) && |s| == Width(pattern)
      && (AllFit(pattern, s) <==> c !in chars)
      && (AllFit(Plain(pattern), s) <==> c in "!" + chars)
    decreases |before|
  {
    var pattern, s := before + [NotOneOf(chars)] + after, u + [c] + v;
    if before == [] {
      assert pattern == [NotOneOf(chars)] + after && s == [c] + v;
      assert pattern[1..] == after && s[1..] == v;
      assert Plain(pattern) == [OneOf("!" + chars)] + Plain(after);
      assert Plain(pattern)[1..] == Plain(after);
      FitWidth(after, v);
    } else {
      TailCompiled(before);
      var u' := if before[0].Star? then u else u[1..];
      assert pattern[1..] == before[1..] + [NotOneOf(chars)] + after;
      assert Plain(before)[1..] == Plain(before[1..]) && Plain(pattern)[1..] == Plain(pattern[1..]);
      if !before[0].Star? {
        assert s[1..] == u' + [c] + v && s[0] == u[0];
      }
      FitsAround(before[1..], chars, after, u', c, v);
    }
  }

  /** Between characters that fit what is around it, a negated group turns the answer around for every character other
      than `!`. */
  lemma NegatedGroupsDisagree(before: seq<Elem>, chars: string, after: seq<Elem>, u: string, c: char, v: string)
    requires FnmatchCompileTime.Compiled(before) && FnmatchCompileTime.Compiled(after) && c != '!'
    requires AllFit(before, u) && AllFit(Plain(before), u) && AllFit(after, v) && AllFit(Plain(after), v)
    ensures var pattern, s := before + [NotOneOf(chars)] + after, u + [c] + v;
      Accepts(pattern, s) <==> !Accepts(Plain(pattern), s)
  {
    var pattern, s := before + [NotOneOf(chars)] + after, u + [c] + v;
    FitsAround(before, chars, after, u, c, v);
    PlainKeepsShape(pattern);
    ShortestFit(pattern, s);
    ShortestFit(Plain(pattern), s);
  }
}
