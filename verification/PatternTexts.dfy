/** The meaning of pattern and glob texts, read from the left: what each form accepts, given what the rest accepts. */
module PatternTexts {
  import opened FnPattern
  import opened Sequences
  import opened Wrappers
  import opened GlobLanguage
  import opened Glob

  // -- Patterns --------------------------------------------------------------------------------

  /** The pattern can be compiled, and accepts `s`. */
  ghost predicate TextAccepts(p: string, negation: bool, s: string) {
    Tokens(p, negation).Some? && Accepts(Tokens(p, negation).value, s)
  }

  lemma EmptyText(negation: bool, s: string)
    ensures TextAccepts("", negation, s) <==> s == ""
  {
    AcceptsEmpty(s);
  }

  /** An element of one character in front. */
  lemma OneInFront(e: Elem, rest: seq<Elem>, s: string)
    requires e.AnyOne? || e.OneOf? || e.NotOneOf? || (e.Lit? && |e.text| == 1)
    ensures Accepts([e] + rest, s) <==> s != "" && InElem(e, s[..1]) && Accepts(rest, s[1..])
  {
    ConsTail(e, rest);
    AcceptsFixed([e] + rest, s, 1);
  }

  /** `*` takes any prefix. */
  lemma StarText(q: string, negation: bool, s: string)
    ensures TextAccepts("*" + q, negation, s) <==> exists k :: 0 <= k <= |s| && TextAccepts(q, negation, s[k..])
  {
    ConsTail('*', q);
    if Tokens(q, negation).Some? {
      var rest := Tokens(q, negation).value;
      ConsTail(Star, rest);
      AcceptsUnfold([Star] + rest, s);
      if k :| 0 <= k <= |s| && Accepts(rest, s[k..]) {
        assert InElem(Star, s[..k]);
        assert TextAccepts(q, negation, s[k..]);
      }
    }
  }

  /** `?` takes any one character. */
  lemma AnyText(q: string, negation: bool, s: string)
    ensures TextAccepts("?" + q, negation, s) <==> s != "" && TextAccepts(q, negation, s[1..])
  {
    ConsTail('?', q);
    if Tokens(q, negation).Some? {
      OneInFront(AnyOne, Tokens(q, negation).value, s);
    }
  }

  /** Any other character takes itself. */
  lemma CharText(c: char, q: string, negation: bool, s: string)
    requires c != '*' && c != '?' && c != '[' && c != '\\'
    ensures TextAccepts([c] + q, negation, s) <==> s != "" && s[0] == c && TextAccepts(q, negation, s[1..])
  {
    ConsTail(c, q);
    if Tokens(q, negation).Some? {
      OneInFront(Lit([c]), Tokens(q, negation).value, s);
    }
  }

  /** After a backslash, any character takes itself. */
  lemma EscapedText(c: char, q: string, negation: bool, s: string)
    ensures TextAccepts(['\\', c] + q, negation, s) <==> s != "" && s[0] == c && TextAccepts(q, negation, s[1..])
  {
    assert (['\\', c] + q)[2..] == q;
    if Tokens(q, negation).Some? {
      OneInFront(Lit([c]), Tokens(q, negation).value, s);
    }
  }

  lemma LoneBackslashText(negation: bool, s: string)
    ensures !TextAccepts("\\", negation, s)
  {}

  lemma {:induction false} ReadPlainGroup(chars: string, q: string)
    requires ']' !in chars && '\\' !in chars
    ensures ReadGroup(chars + ("]" + q)) == Some(Group(chars, q))
  {
    if chars == "" {
      ConsTail(']', q);
      NothingBefore("]" + q);
    } else {
      HeadTail(chars);
      assert chars[0] in chars;
      Associate([chars[0]], chars[1..], "]" + q);
      ConsTail(chars[0], chars[1..] + ("]" + q));
      ReadPlainGroup(chars[1..], q);
    }
  }

  /** A group takes one of its characters. */
  lemma GroupText(chars: string, q: string, negation: bool, s: string)
    requires ']' !in chars && '\\' !in chars && (negation && chars != "" ==> chars[0] != '!')
    ensures TextAccepts("[" + (chars + ("]" + q)), negation, s) <==>
      s != "" && s[0] in chars && TextAccepts(q, negation, s[1..])
  {
    var body := chars + ("]" + q);
    ReadPlainGroup(chars, q);
    ConsTail('[', body);
    assert body[0] == if chars == "" then ']' else chars[0];
    if Tokens(q, negation).Some? {
      OneInFront(OneOf(chars), Tokens(q, negation).value, s);
    }
  }

  /** With `!` in front it takes any other character, for the matcher that knows negated groups. */
  lemma NegatedText(chars: string, q: string, s: string)
    requires ']' !in chars && '\\' !in chars
    ensures TextAccepts("[" + ("!" + (chars + ("]" + q))), true, s) <==>
      s != "" && s[0] !in chars && TextAccepts(q, true, s[1..])
  {
    var body := chars + ("]" + q);
    ReadPlainGroup(chars, q);
    ConsTail('[', "!" + body);
    ConsTail('!', body);
    assert ("[" + ("!" + body))[2..] == body;
    if Tokens(q, true).Some? {
      OneInFront(NotOneOf(chars), Tokens(q, true).value, s);
    }
  }

  lemma {:induction false} UnreadGroup(chars: string)
    requires ']' !in chars
    ensures ReadGroup(chars) == None
    decreases |chars|
  {
    if chars != "" && !(chars[0] == '\\' && |chars| == 1) {
      var n := if chars[0] == '\\' then 2 else 1;
      assert chars[0] in chars;
      forall c | c in chars[n..] ensures c in chars {}
      UnreadGroup(chars[n..]);
    }
  }

  /** A group must be closed. */
  lemma UnclosedText(chars: string, negation: bool, s: string)
    requires ']' !in chars
    ensures !TextAccepts("[" + chars, negation, s)
  {
    ConsTail('[', chars);
    UnreadGroup(chars);
    if chars != "" && chars[0] == '!' {
      forall c | c in chars[1..] ensures c in chars {}
      UnreadGroup(chars[1..]);
      assert ("[" + chars)[2..] == chars[1..];
    }
  }

  /** A text without special characters accepts just itself. */
  lemma {:induction false} LiteralText(p: string, negation: bool, s: string)
    requires forall c | c in p :: c != '*' && c != '?' && c != '[' && c != '\\'
    ensures TextAccepts(p, negation, s) <==> s == p
  {
    if p == "" {
      EmptyText(negation, s);
    } else {
      HeadTail(p);
      assert p[0] in p;
      CharText(p[0], p[1..], negation, s);
      if s != "" {
        HeadTail(s);
        forall c | c in p[1..] ensures c in p {}
        LiteralText(p[1..], negation, s[1..]);
      }
    }
  }

  // -- Globs -----------------------------------------------------------------------------------

  /** The expression can be compiled, and accepts the path. */
  ghost predicate ExprAccepts(expr: string, path: seq<string>) {
    expr != "" && AllWellFormed(Parts(expr)) && GlobAccepts(GlobOf(Parts(expr)), path)
  }

  lemma OnePart(part: string)
    requires part != "" && '/' !in part
    ensures Parts(part) == [part] && Parts(part + "/") == [part]
  {
    IndexFinds(part, '/');
    assert part[..|part|] == part && AfterSlash(part, |part|) == "";
    assert (part + "/")[..|part|] == part;
    IndexIs(part + "/", '/', |part|);
  }

  lemma FirstPart(part: string, rest: string)
    requires '/' !in part
    ensures Parts(part + ("/" + rest)) == [part] + Parts(rest)
  {
    var expr := part + ("/" + rest);
    assert expr[..|part|] == part && expr[|part| + 1..] == rest;
    IndexIs(expr, '/', |part|);
  }

  lemma GlobOfFirst(part: string, parts: seq<string>)
    requires WellFormed(part) && AllWellFormed(parts)
    ensures AllWellFormed([part] + parts)
    ensures GlobOf([part] + parts) == [PartMeaning(part)] + GlobOf(parts)
  {
    forall i | 0 <= i < |[part] + parts| ensures WellFormed(([part] + parts)[i]) {
      if i > 0 {
        assert ([part] + parts)[i] == parts[i - 1];
      }
    }
  }

  lemma FirstMustCompile(part: string, parts: seq<string>)
    ensures AllWellFormed([part] + parts) <==> WellFormed(part) && AllWellFormed(parts)
  {
    var all := [part] + parts;
    if AllWellFormed(all) {
      assert all[0] == part;
      forall i | 0 <= i < |parts| ensures WellFormed(parts[i]) {
        assert all[i + 1] == parts[i];
      }
    }
    if WellFormed(part) && AllWellFormed(parts) {
      GlobOfFirst(part, parts);
    }
  }

  lemma PartsNonEmpty(expr: string)
    ensures Parts(expr) == [] <==> expr == ""
  {}

  /** A single part takes one element, but `**` takes one or more; a slash at the end makes no difference. */
  lemma LastPartText(part: string, path: seq<string>)
    requires part != "" && '/' !in part
    ensures ExprAccepts(part, path) <==>
      if part == "**" then path != [] else |path| == 1 && TextAccepts(part, false, path[0])
    ensures ExprAccepts(part + "/", path) <==> ExprAccepts(part, path)
  {
    OnePart(part);
    FirstMustCompile(part, []);
    NothingAfter([part]);
    if WellFormed(part) {
      GlobOfFirst(part, []);
      var glob := GlobOf([part]);
      assert glob == [PartMeaning(part)] && glob[1..] == [];
      if part == "**" {
        FinalDepth(path);
      } else {
        OneTakesOne(glob, path);
        if path != [] {
          GlobEmpty(path[1..]);
        }
      }
    }
  }

  /** A part before others takes the next element, but `**` any number of them, as long as something is left. */
  lemma FirstPartText(part: string, rest: string, path: seq<string>)
    requires '/' !in part && rest != ""
    ensures ExprAccepts(part + ("/" + rest), path) <==>
      if part == "**" then exists k :: 0 <= k < |path| && ExprAccepts(rest, path[k..])
      else path != [] && TextAccepts(part, false, path[0]) && ExprAccepts(rest, path[1..])
  {
    FirstPart(part, rest);
    FirstMustCompile(part, Parts(rest));
    PartsNonEmpty(rest);
    if WellFormed(part) && AllWellFormed(Parts(rest)) {
      GlobOfFirst(part, Parts(rest));
      var glob := [PartMeaning(part)] + GlobOf(Parts(rest));
      ConsTail(PartMeaning(part), GlobOf(Parts(rest)));
      if part == "**" {
        InnerDepth(glob, path);
        forall k | 0 <= k < |path|
          ensures ExprAccepts(rest, path[k..]) <==> GlobAccepts(glob[1..], path[k..])
        {
        }
      } else {
        OneTakesOne(glob, path);
      }
    }
  }
}
