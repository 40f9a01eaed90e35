/** The compile-time matcher: one element for each character of the pattern, and a family of matching
    overloads of which two are shortcuts for patterns that end in literals. */
module FnmatchCompileTime {
  import opened FnPattern
  import opened Sequences
  import opened Wrappers

  // -- The compiler ----------------------------------------------------------------------------

  datatype OneofRet = OneofRet(matcher: Elem, endOffset: nat)

  /** A failed compilation stands for a failed static assertion. */
  function CompileOneofChars(str: string, cur: nat, chars: string): (r: Option<OneofRet>)
    requires cur <= |str|
    ensures r.Some? ==> r.value.matcher.OneOf? && cur < r.value.endOffset <= |str|
    decreases |str| - cur
  {
    if cur == |str| then None
    else if str[cur] == ']' then Some(OneofRet(OneOf(chars), cur + 1))
    else if str[cur] == '\\' then
      if cur + 1 == |str| then None
      else CompileOneofChars(str, cur + 2, chars + [str[cur + 1]])
    else CompileOneofChars(str, cur + 1, chars + [str[cur]])
  }

  function CompileOneof(str: string, cur: nat): (r: Option<OneofRet>)
    requires cur <= |str|
    ensures r.Some? ==> cur < r.value.endOffset <= |str|
  {
    var negated := cur < |str| && str[cur] == '!';
    var group := CompileOneofChars(str, if negated then cur + 1 else cur, "");
    if group.None? then None
    else Some(if negated then OneofRet(NotOneOf(group.value.matcher.chars), group.value.endOffset) else group.value)
  }

  function CompileNext(str: string, cur: nat, matchers: seq<Elem>): Option<seq<Elem>>
    requires cur <= |str|
    decreases |str| - cur
  {
    if cur == |str| then Some(matchers)
    else if str[cur] == '*' then CompileNext(str, cur + 1, matchers + [Star])
    else if str[cur] == '?' then CompileNext(str, cur + 1, matchers + [AnyOne])
    else if str[cur] == '[' then
      var group := CompileOneof(str, cur + 1);
      if group.None? then None
      else CompileNext(str, group.value.endOffset, matchers + [group.value.matcher])
    else if str[cur] == '\\' then
      if cur + 1 == |str| then None
      else CompileNext(str, cur + 2, matchers + [Lit([str[cur + 1]])])
    else CompileNext(str, cur + 1, matchers + [Lit([str[cur]])])
  }

  lemma {:induction false} OneofCharsRead(str: string, cur: nat, chars: string)
    requires cur <= |str|
    ensures
      match (CompileOneofChars(str, cur, chars), ReadGroup(str[cur..]))
      case (None, None) => true
      case (Some(r), Some(g)) => r.matcher == OneOf(chars + g.chars) && str[r.endOffset..] == g.rest
      case _ => false
    decreases |str| - cur
  {
    if cur < |str| && str[cur] != ']' && !(str[cur] == '\\' && cur + 1 == |str|) {
      var skip := if str[cur] == '\\' then 1 else 0;
      assert str[cur..][skip + 1..] == str[cur + skip + 1..];
      assert str[cur..][skip] == str[cur + skip];
      OneofCharsRead(str, cur + skip + 1, chars + [str[cur + skip]]);
      var g := ReadGroup(str[cur + skip + 1..]);
      if g.Some? {
        assert chars + [str[cur + skip]] + g.value.chars == chars + ([str[cur + skip]] + g.value.chars);
      }
    } else if cur < |str| && str[cur] == ']' {
      assert str[cur..][1..] == str[cur + 1..] && chars + "" == chars;
    }
  }

  lemma {:induction false} CompileNextIsTokens(str: string, cur: nat, matchers: seq<Elem>)
    requires cur <= |str|
    ensures CompileNext(str, cur, matchers) == After(matchers, Tokens(str[cur..], true))
    decreases |str| - cur, 0
  {
    if cur == |str| {
      assert matchers + [] == matchers;
    } else if str[cur] == '[' {
      GroupIsToken(str, cur);
      var group := CompileOneof(str, cur + 1);
      if group.Some? {
        Continue(str, group.value.endOffset, matchers, group.value.matcher);
      }
    } else if str[cur] == '\\' {
      if cur + 1 < |str| {
        assert str[cur..][2..] == str[cur + 2..] && str[cur..][1] == str[cur + 1];
        Continue(str, cur + 2, matchers, Lit([str[cur + 1]]));
      }
    } else {
      assert str[cur..][1..] == str[cur + 1..];
      var e := if str[cur] == '*' then Star else if str[cur] == '?' then AnyOne else Lit([str[cur]]);
      Continue(str, cur + 1, matchers, e);
    }
  }

  lemma {:induction false} Continue(str: string, next: nat, matchers: seq<Elem>, e: Elem)
    requires next <= |str|
    ensures CompileNext(str, next, matchers + [e])
         == After(matchers, Prepend(e, Tokens(str[next..], true)))
    decreases |str| - next, 1
  {
    CompileNextIsTokens(str, next, matchers + [e]);
    var rest := Tokens(str[next..], true);
    if rest.Some? {
      assert matchers + [e] + rest.value == matchers + ([e] + rest.value);
    }
  }

  lemma GroupIsToken(str: string, cur: nat)
    requires cur < |str| && str[cur] == '['
    ensures
      match CompileOneof(str, cur + 1)
      case None => Tokens(str[cur..], true).None?
      case Some(r) => Tokens(str[cur..], true) == Prepend(r.matcher, Tokens(str[r.endOffset..], true))
  {
    var p := str[cur..];
    var negated := |p| > 1 && p[1] == '!';
    var from := if negated then cur + 2 else cur + 1;
    assert (if negated then p[2..] else p[1..]) == str[from..];
    OneofCharsRead(str, from, "");
    var g := ReadGroup(str[from..]);
    if g.Some? {
      assert "" + g.value.chars == g.value.chars;
    }
  }

  /** The compiled elements are the tokens of the pattern string. */
  lemma CompileIsTokens(str: string)
    ensures CompileNext(str, 0, []) == Tokens(str, true)
  {
    CompileNextIsTokens(str, 0, []);
    assert str[0..] == str;
    var t := Tokens(str, true);
    if t.Some? {
      assert [] + t.value == t.value;
    }
  }

  // -- The matcher -----------------------------------------------------------------------------

  predicate IsJust(e: Elem) {
    e.Lit? && |e.text| == 1
  }

  predicate AllJust(pattern: seq<Elem>) {
    forall i | 0 <= i < |pattern| :: IsJust(pattern[i])
  }

  /** What the compiler produces: literals of one character, and no closing element. */
  predicate Compiled(pattern: seq<Elem>) {
    forall i | 0 <= i < |pattern| :: !pattern[i].End? && (pattern[i].Lit? ==> |pattern[i].text| == 1)
  }

  function TextOf(pattern: seq<Elem>): (text: string)
    requires AllJust(pattern)
    ensures |text| == |pattern|
  {
    if pattern == [] then "" else [pattern[0].text[0]] + TextOf(pattern[1..])
  }

  /** A pattern of literals accepts just the text that they spell. */
  lemma {:induction false} JustsAccept(pattern: seq<Elem>, s: string)
    requires AllJust(pattern)
    ensures Accepts(pattern, s) <==> s == TextOf(pattern)
  {
    if pattern == [] {
      AcceptsEmpty(s);
    } else {
      assert IsJust(pattern[0]);
      AcceptsFixed(pattern, s, 1);
      if s != "" {
        JustsAccept(pattern[1..], s[1..]);
        assert s == [s[0]] + s[1..];
      }
    }
  }

  /** Overload resolution: the shortcuts are taken where they apply. */
  method Match1(pattern: seq<Elem>, text: string, cur: nat) returns (b: bool)
    requires Compiled(pattern) && cur <= |text|
    ensures b <==> Accepts(pattern, text[cur..])
    decreases |pattern|, 1
  {
    if pattern == [] {
      AcceptsEmpty(text[cur..]);
      return cur == |text|;
    }
    if AllJust(pattern) {
      b := MatchJusts(pattern, text, cur);
      return;
    }
    match pattern[0]
    case Star =>
      if |pattern| > 1 && AllJust(pattern[1..]) {
        b := MatchStarJusts(pattern, text, cur);
      } else {
        b := MatchStar(pattern, text, cur);
      }
    case _ => b := MatchOne(pattern, text, cur);
  }

  /** Shortcut: nothing but literals is left, so the lengths must agree and then every character. */
  method MatchJusts(pattern: seq<Elem>, text: string, cur: nat) returns (b: bool)
    requires AllJust(pattern) && cur <= |text|
    ensures b <==> Accepts(pattern, text[cur..])
    decreases |pattern|, 0
  {
    JustsAccept(pattern, text[cur..]);
    if |text| - cur != |pattern| {
      return false;
    }
    var chars := TextOf(pattern);
    b := Equal(chars, text, cur);
  }

  /** Whether `chars` stands in `text` at `at`. */
  method Equal(chars: string, text: string, at: nat) returns (b: bool)
    requires at + |chars| <= |text|
    ensures b <==> text[at..at + |chars|] == chars
  {
    var first := 0;
    while first != |chars|
      invariant 0 <= first <= |chars|
      invariant text[at..at + first] == chars[..first]
    {
      if chars[first] != text[at + first] {
        assert text[at..at + |chars|][first] != chars[first];
        return false;
      }
      TakeNext(chars, first);
      assert text[at..at + first + 1] == text[at..at + first] + [text[at + first]];
      first := first + 1;
    }
    assert chars[..|chars|] == chars;
    return true;
  }

  /** Shortcut: a star and then literals to the end, so all but the last characters can be skipped. */
  method MatchStarJusts(pattern: seq<Elem>, text: string, cur: nat) returns (b: bool)
    requires |pattern| > 1 && pattern[0].Star? && AllJust(pattern[1..]) && cur <= |text|
    ensures b <==> Accepts(pattern, text[cur..])
    decreases |pattern|, 0
  {
    var rest := pattern[1..];
    var length := |text| - cur;
    forall k | cur <= k <= |text| ensures Accepts(rest, text[k..]) <==> text[k..] == TextOf(rest) {
      JustsAccept(rest, text[k..]);
    }
    if length < |rest| {
      StarRejects(pattern, text, cur);
      return false;
    }
    var skip := length - |rest|;
    b := MatchJusts(rest, text, cur + skip);
    if b {
      StarAccepts(pattern, text, cur, cur + skip);
    } else {
      StarRejects(pattern, text, cur);
    }
  }

  /** The general star: tries the rest of the pattern at every remaining position. */
  method MatchStar(pattern: seq<Elem>, text: string, first: nat) returns (b: bool)
    requires Compiled(pattern) && pattern != [] && pattern[0].Star? && first <= |text|
    ensures b <==> Accepts(pattern, text[first..])
    decreases |pattern|, 0
  {
    var rest := pattern[1..];
    var cur := first;
    while cur != |text|
      invariant first <= cur <= |text|
      invariant forall k | first <= k < cur :: !Accepts(rest, text[k..])
    {
      var matched := Match1(rest, text, cur);
      if matched {
        StarAccepts(pattern, text, first, cur);
        return true;
      }
      cur := cur + 1;
    }
    b := Match1(rest, text, cur);
    if b {
      StarAccepts(pattern, text, first, cur);
    } else {
      StarRejects(pattern, text, first);
    }
  }

  /** The general overloads for an element that takes exactly one character. */
  method MatchOne(pattern: seq<Elem>, text: string, cur: nat) returns (b: bool)
    requires Compiled(pattern) && pattern != [] && !pattern[0].Star? && cur <= |text|
    ensures b <==> Accepts(pattern, text[cur..])
    decreases |pattern|, 0
  {
    assert !pattern[0].End? && (pattern[0].Lit? ==> |pattern[0].text| == 1);
    HeadFixed(pattern, 0, text, cur, 1);
    assert pattern[0..] == pattern;
    if cur == |text| {
      return false;
    }
    var c := text[cur];
    var fits := match pattern[0]
      case NotOneOf(chars) => c !in chars
      case OneOf(chars) => c in chars
      case Lit(text) => c == text[0]
      case AnyOne => true;
    if !fits {
      return false;
    }
    b := Match1(pattern[1..], text, cur + 1);
  }

  lemma {:induction false} TokensAreCompiled(p: string, negation: bool)
    ensures Tokens(p, negation).Some? ==> Compiled(Tokens(p, negation).value)
    decreases |p|
  {
    if p != "" {
      if p[0] == '[' {
        var negated := negation && |p| > 1 && p[1] == '!';
        var body := if negated then p[2..] else p[1..];
        var g := ReadGroup(body);
        GroupConsumes(body);
        if g.Some? { TokensAreCompiled(g.value.rest, negation); }
      } else if p[0] == '\\' {
        if |p| > 1 { TokensAreCompiled(p[2..], negation); }
      } else {
        TokensAreCompiled(p[1..], negation);
      }
    }
  }

  /** Compiling and matching at compile time: no result stands for a pattern that does not compile. */
  method CompileAndMatch(str: string, text: string) returns (r: Option<bool>)
    ensures r.Some? <==> Tokens(str, true).Some?
    ensures r.Some? ==> (r.value <==> Accepts(Tokens(str, true).value, text))
  {
    var pattern := CompileNext(str, 0, []);
    CompileIsTokens(str);
    if pattern.None? {
      return None;
    }
    TokensAreCompiled(str, true);
    var b := Match1(pattern.value, text, 0);
    assert text[0..] == text;
    return Some(b);
  }
}
