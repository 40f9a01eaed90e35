/** Splitting a shell string into words, and quoting words so that they survive the splitting. */
module Shlex {
  import opened Sequences

  // -- The splitter ----------------------------------------------------------------------------

  const NUL: char := '\0'

  datatype Token = NoToken | Token(text: string)

  datatype Lexer = Lexer(curQuote: char, isEscaped: bool, token: Token, acc: seq<string>)

  const START := Lexer(NUL, false, NoToken, [])

  function Append(t: Token, s: string): Token {
    Token(if t.NoToken? then s else t.text + s)
  }

  predicate IsSplitSpace(c: char) {
    c == '\t' || c == ' ' || c == '\n' || c == '\r' || c == '\U{C}'
  }

  /** What one character does to the lexer. */
  function Step(st: Lexer, c: char): Lexer {
    if st.isEscaped then
      st.(isEscaped := false,
          token := if c == '\n' then st.token
                   else if st.curQuote != NUL || c != st.curQuote || c == '\\' then Append(st.token, [c])
                   else Append(st.token, ['\\', c]))
    else if c == '\\' then st.(isEscaped := true)
    else if st.curQuote != NUL then
      if c == st.curQuote then st.(curQuote := NUL) else st.(token := Append(st.token, [c]))
    else if c == '"' || c == '\'' then st.(curQuote := c, token := Token(""))
    else if IsSplitSpace(c) then
      st.(token := NoToken, acc := if st.token.Token? then st.acc + [st.token.text] else st.acc)
    else st.(token := Append(st.token, [c]))
  }

  function Run(st: Lexer, s: string): Lexer
    decreases |s|
  {
    if s == "" then st else Run(Step(st, s[0]), s[1..])
  }

  function Words(st: Lexer): seq<string> {
    if st.token.Token? then st.acc + [st.token.text] else st.acc
  }

  function Split(shell: string): seq<string> {
    Words(Run(START, shell))
  }

  method SplitShellString(shell: string) returns (words: seq<string>)
    ensures words == Split(shell)
  {
    var curQuote, isEscaped := NUL, false;
    var acc: seq<string> := [];
    var token := NoToken;
    var iter := 0;
    while iter != |shell|
      invariant 0 <= iter <= |shell|
      invariant Run(START, shell) == Run(Lexer(curQuote, isEscaped, token, acc), shell[iter..])
    {
      var c := shell[iter];
      assert shell[iter..][1..] == shell[iter + 1..];
      iter := iter + 1;
      if isEscaped {
        if c == '\n' {
        } else if curQuote != NUL || c != curQuote || c == '\\' {
          token := Append(token, [c]);
        } else {
          token := Append(token, ['\\', c]);
        }
        isEscaped := false;
      } else if c == '\\' {
        isEscaped := true;
      } else if curQuote != NUL {
        if c == curQuote {
          curQuote := NUL;
        } else {
          token := Append(token, [c]);
        }
      } else if c == '"' || c == '\'' {
        curQuote := c;
        token := Token("");
      } else if IsSplitSpace(c) {
        if token.Token? {
          acc := acc + [token.text];
        }
        token := NoToken;
      } else {
        token := Append(token, [c]);
      }
    }
    if token.Token? {
      acc := acc + [token.text];
    }
    return acc;
  }

  // -- Quoting ---------------------------------------------------------------------------------

  predicate IsAlnum(c: char) {
    'a' <= c <= 'z' || 'A' <= c <= 'Z' || '0' <= c <= '9'
  }

  predicate IsOkay(c: char) {
    IsAlnum(c) || c in "@%-+=:,./|_"
  }

  predicate NeedsQuoting(s: string) {
    exists c :: c in s && !IsOkay(c)
  }

  /** Every `key` in `s` becomes `repl`. */
  function Replace(s: string, key: char, repl: string): string {
    if s == "" then "" else (if s[0] == key then repl else [s[0]]) + Replace(s[1..], key, repl)
  }

  /** The replacement of backslashes is overwritten by that of quotes, which starts over from `s`. */
  function QuoteArgument(s: string): string {
    if !NeedsQuoting(s) then s
    else
      var withBackslashes := Replace(s, '\\', "\\\\");
      var withQuotes := Replace(s, '"', "\\\"");
      "\"" + withQuotes + "\""
  }

  /** What stands between the quotes. */
  ghost function Escaped(s: string): string {
    Replace(s, '"', "\\\"")
  }

  function QuoteAll(args: seq<string>): string {
    if args == [] then ""
    else if |args| == 1 then QuoteArgument(args[0])
    else QuoteArgument(args[0]) + " " + QuoteAll(args[1..])
  }

  function Spaced(args: seq<string>): string {
    if args == [] then "" else Spaced(args[..|args| - 1]) + (QuoteArgument(args[|args| - 1]) + " ")
  }

  method QuoteCommand(args: seq<string>) returns (command: string)
    ensures command == QuoteAll(args)
  {
    var acc := "";
    for i := 0 to |args|
      invariant acc == Spaced(args[..i])
    {
      assert args[..i + 1][..i] == args[..i];
      acc := acc + (QuoteArgument(args[i]) + " ");
    }
    assert args[..|args|] == args;
    SpacedIsQuoted(args);
    if acc != "" {
      acc := acc[..|acc| - 1];
    }
    return acc;
  }

  lemma {:induction false} SpacedIsQuoted(args: seq<string>)
    ensures args == [] <==> Spaced(args) == ""
    ensures args != [] ==> Spaced(args) == QuoteAll(args) + " "
  {
    if args != [] {
      var front, last := args[..|args| - 1], args[|args| - 1];
      SpacedIsQuoted(front);
      assert front + [last] == args;
      if front == [] {
        assert "" + (QuoteArgument(last) + " ") == QuoteArgument(last) + " ";
      } else {
        QuoteAllAppend(front, last);
        Associate(QuoteAll(front) + " ", QuoteArgument(last), " ");
      }
    }
  }

  lemma {:induction false} QuoteAllAppend(args: seq<string>, last: string)
    requires args != []
    ensures QuoteAll(args + [last]) == QuoteAll(args) + " " + QuoteArgument(last)
  {
    assert (args + [last])[1..] == args[1..] + [last];
    if |args| > 1 {
      QuoteAllAppend(args[1..], last);
      var q, rest, l := QuoteArgument(args[0]), QuoteAll(args[1..]), QuoteArgument(last);
      Associate(q + " ", rest, " ");
      Associate(q + " ", rest + " ", l);
    }
  }

  /** Letters, digits and these characters need no quotes. */
  predicate IsHarmless(s: string) {
    forall c | c in s ::
      'a' <= c <= 'z' || 'A' <= c <= 'Z' || '0' <= c <= '9' || c in "@%-+=:,./|_"
  }

  lemma {:induction false} EscapedWithoutQuotes(s: string)
    requires '"' !in s
    ensures Escaped(s) == s
  {
    if s != "" {
      HeadTail(s);
      assert s[0] in s;
      EscapedWithoutQuotes(s[1..]);
    }
  }

  lemma {:induction false} EscapedConcat(s: string, t: string)
    ensures Escaped(s + t) == Escaped(s) + Escaped(t)
  {
    if s == "" {
      NothingBefore(t);
      NothingBefore(Escaped(t));
    } else {
      var head := if s[0] == '"' then "\\\"" else [s[0]];
      assert (s + t)[1..] == s[1..] + t;
      EscapedConcat(s[1..], t);
      Associate(head, Escaped(s[1..]), Escaped(t));
    }
  }

  /** A harmless word stays as it is; any other comes between double quotes, with a backslash before each of those
      inside. */
  lemma QuotedForm(s: string)
    ensures IsHarmless(s) ==> QuoteArgument(s) == s
    ensures !IsHarmless(s) ==> QuoteArgument(s) == "\"" + Escaped(s) + "\""
    ensures '"' !in s ==> Escaped(s) == s
    ensures forall a, b | s == a + "\"" + b :: Escaped(s) == Escaped(a) + "\\\"" + Escaped(b)
  {
    if IsHarmless(s) {
      assert forall c | c in s :: IsOkay(c);
    }
    if '"' !in s {
      EscapedWithoutQuotes(s);
    }
    forall a, b | s == a + "\"" + b ensures Escaped(s) == Escaped(a) + "\\\"" + Escaped(b) {
      EscapedConcat(a + "\"", b);
      EscapedConcat(a, "\"");
      OneQuote();
    }
  }

  lemma OneQuote()
    ensures Escaped("\"") == "\\\""
  {
    assert "\""[1..] == "";
    NothingAfter("\\\"");
  }

  // -- Quoting and splitting gives the words back ----------------------------------------------

  lemma {:induction false} RunConcat(st: Lexer, s: string, t: string)
    ensures Run(st, s + t) == Run(Run(st, s), t)
    decreases |s|
  {
    if s == "" {
      assert s + t == t;
    } else {
      assert (s + t)[1..] == s[1..] + t;
      RunConcat(Step(st, s[0]), s[1..], t);
    }
  }

  /** Characters that are themselves outside quotes. */
  lemma {:induction false} RunPlain(st: Lexer, s: string)
    requires !st.isEscaped && st.curQuote == NUL && s != ""
    requires forall c | c in s :: IsOkay(c)
    ensures Run(st, s) == st.(token := Append(st.token, s))
    decreases |s|
  {
    HeadTail(s);
    assert s[0] in s && IsOkay(s[0]);
    var next := st.(token := Append(st.token, [s[0]]));
    if s[1..] != "" {
      RunPlain(next, s[1..]);
      Associate(if st.token.Token? then st.token.text else "", [s[0]], s[1..]);
    } else {
      NothingAfter([s[0]]);
    }
  }

  /** Inside double quotes, text with its double quotes escaped stands for itself. */
  lemma {:induction false} RunQuoted(st: Lexer, s: string)
    requires !st.isEscaped && st.curQuote == '"' && st.token.Token?
    requires '\\' !in s
    ensures Run(st, Escaped(s)) == st.(token := Append(st.token, s))
    decreases |s|
  {
    if s == "" {
      NothingAfter(st.token.text);
    } else {
      HeadTail(s);
      EscapedHead(st, s);
      RunQuoted(st.(token := Append(st.token, [s[0]])), s[1..]);
      Associate(st.token.text, [s[0]], s[1..]);
    }
  }

  /** One character of the text, escaped or not. */
  lemma EscapedHead(st: Lexer, s: string)
    requires s != ""
    ensures Run(st, Escaped(s)) ==
      Run(if s[0] == '"' then Step(Step(st, '\\'), '"') else Step(st, s[0]), Escaped(s[1..]))
  {
    var rest := Escaped(s[1..]);
    if s[0] == '"' {
      Associate("\\", "\"", rest);
      ConsTail('\\', "\"" + rest);
      ConsTail('"', rest);
    } else {
      ConsTail(s[0], rest);
    }
  }

  predicate Survives(arg: string) {
    arg != "" && '\\' !in arg
  }

  /** A quoted word: the opening quote, the escaped text, the closing quote. */
  lemma RunEnclosed(st: Lexer, s: string)
    requires NeedsQuoting(s)
    ensures Run(st, QuoteArgument(s)) == Step(Run(Step(st, '"'), Escaped(s)), '"')
  {
    var open, inner := Step(st, '"'), Escaped(s);
    assert ("\"" + inner + "\"")[1..] == inner + "\"";
    RunConcat(open, inner, "\"");
    assert "\""[1..] == "";
    assert Run(Run(open, inner), "\"") == Step(Run(open, inner), '"');
  }

  lemma RunArgument(st: Lexer, arg: string)
    requires Survives(arg) && st == Lexer(NUL, false, NoToken, st.acc)
    ensures Run(st, QuoteArgument(arg)) == st.(token := Token(arg))
  {
    if NeedsQuoting(arg) {
      RunEnclosed(st, arg);
      RunQuoted(Step(st, '"'), arg);
      assert "" + arg == arg;
    } else {
      RunPlain(st, arg);
    }
  }
}
