/** Exactly which lists of words survive quoting and splitting.  Words can run into each other once a quote is
    misread, so this is not a matter of one word at a time: characters are counted over the whole command. */
module ShlexLists {
  import opened Sequences
  import opened Shlex

  function Count(c: char, s: string): nat {
    if s == "" then 0 else (if s[0] == c then 1 else 0) + Count(c, s[1..])
  }

  function CountAll(c: char, words: seq<string>): nat {
    if words == [] then 0 else Count(c, words[0]) + CountAll(c, words[1..])
  }

  lemma {:induction false} CountConcat(c: char, s: string, t: string)
    ensures Count(c, s + t) == Count(c, s) + Count(c, t)
  {
    if s == "" {
      assert s + t == t;
    } else {
      assert (s + t)[1..] == s[1..] + t;
      CountConcat(c, s[1..], t);
    }
  }

  lemma {:induction false} CountAppend(c: char, words: seq<string>, last: string)
    ensures CountAll(c, words + [last]) == CountAll(c, words) + Count(c, last)
  {
    if words == [] {
      assert words + [last] == [last];
    } else {
      assert (words + [last])[1..] == words[1..] + [last];
      CountAppend(c, words[1..], last);
    }
  }

  lemma {:induction false} CountsIn(c: char, s: string)
    ensures Count(c, s) == 0 <==> c !in s
  {
    if s != "" {
      CountsIn(c, s[1..]);
      assert s == [s[0]] + s[1..];
    }
  }

  lemma {:induction false} CountsInAll(c: char, words: seq<string>)
    ensures CountAll(c, words) == 0 <==> forall w | w in words :: c !in w
  {
    if words != [] {
      CountsIn(c, words[0]);
      CountsInAll(c, words[1..]);
      assert words == [words[0]] + words[1..];
    }
  }

  // -- What the lexer keeps, against what it has read ------------------------------------------

  /** How often the lexer has kept a character. */
  function Kept(c: char, st: Lexer): nat {
    CountAll(c, st.acc) + if st.token.Token? then Count(c, st.token.text) else 0
  }

  /** Either a single quote was lost for good, or none has been misread so far.  In that case each double quote that
      is kept has cost a backslash, and each backslash two. */
  ghost predicate Balanced(st: Lexer, singles: nat, backslashes: nat) {
    || Kept('\'', st) < singles
    || (&& Kept('\'', st) <= singles
        && (st.curQuote == NUL || st.curQuote == '"')
        && 2 * Kept('\\', st) + Kept('"', st) + (if st.isEscaped then 1 else 0) <= backslashes)
  }

  lemma KeptAppend(c: char, st: Lexer, x: char)
    ensures Kept(c, st.(token := Append(st.token, [x]))) == Kept(c, st) + Count(c, [x])
  {
    if st.token.Token? {
      CountConcat(c, st.token.text, [x]);
    }
  }

  lemma CountOne(c: char, x: char)
    ensures Count(c, [x]) == if x == c then 1 else 0
  {
    assert [x][1..] == "";
  }

  /** An escaped zero character outside quotes is the one case in which the backslash is kept. */
  predicate KeepsBackslash(st: Lexer, x: char) {
    st.isEscaped && st.curQuote == NUL && x == NUL
  }

  /** The character opens or closes a quote. */
  predicate IsToggle(st: Lexer, x: char) {
    if st.curQuote == NUL then x == '"' || x == '\'' else x == st.curQuote
  }

  /** A character is kept at most once, when it is read; an escape keeps nothing of itself. */
  lemma KeptStep(c: char, st: Lexer, x: char)
    requires !KeepsBackslash(st, x)
    ensures Kept(c, Step(st, x)) <= Kept(c, st) + Count(c, [x])
    ensures !st.isEscaped && (x == '\\' || IsToggle(st, x)) ==> Kept(c, Step(st, x)) <= Kept(c, st)
  {
    KeptAppend(c, st, x);
    KeptAppend(c, st.(isEscaped := false), x);
    if st.token.Token? {
      CountAppend(c, st.acc, st.token.text);
    }
  }

  lemma KeptWithBackslash(c: char, st: Lexer, x: char)
    requires KeepsBackslash(st, x)
    ensures Kept(c, Step(st, x)) == Kept(c, st) + Count(c, ['\\']) + Count(c, [NUL])
    ensures Step(st, x).curQuote == NUL && !Step(st, x).isEscaped
  {
    var both := ['\\', NUL];
    assert ['\\'] + [NUL] == both;
    CountConcat(c, ['\\'], [NUL]);
    if st.token.Token? {
      CountConcat(c, st.token.text, both);
    }
  }

  lemma BalancedStep(st: Lexer, x: char, singles: nat, backslashes: nat)
    requires Balanced(st, singles, backslashes)
    ensures Balanced(Step(st, x), singles + Count('\'', [x]),
                     backslashes + Count('\\', [x]) + if KeepsBackslash(st, x) then 1 else 0)
  {
    forall c, y ensures Count(c, [y]) == if y == c then 1 else 0 {
      CountOne(c, y);
    }
    if KeepsBackslash(st, x) {
      KeptWithBackslash('\'', st, x);
      KeptWithBackslash('"', st, x);
      KeptWithBackslash('\\', st, x);
    } else {
      KeptStep('\'', st, x);
      KeptStep('"', st, x);
      KeptStep('\\', st, x);
    }
  }

  /** How often a backslash is kept before a zero character. */
  ghost function Zeros(st: Lexer, s: string): nat
    decreases |s|
  {
    if s == "" then 0 else (if KeepsBackslash(st, s[0]) then 1 else 0) + Zeros(Step(st, s[0]), s[1..])
  }

  lemma {:induction false} BalancedRun(st: Lexer, s: string, singles: nat, backslashes: nat)
    requires Balanced(st, singles, backslashes)
    ensures Balanced(Run(st, s), singles + Count('\'', s), backslashes + Count('\\', s) + Zeros(st, s))
    decreases |s|
  {
    if s != "" {
      assert s == [s[0]] + s[1..];
      BalancedStep(st, s[0], singles, backslashes);
      CountConcat('\'', [s[0]], s[1..]);
      CountConcat('\\', [s[0]], s[1..]);
      BalancedRun(Step(st, s[0]), s[1..], singles + Count('\'', [s[0]]),
                  backslashes + Count('\\', [s[0]]) + if KeepsBackslash(st, s[0]) then 1 else 0);
    }
  }

  // -- What quoting adds -----------------------------------------------------------------------

  lemma {:induction false} CountEscaped(s: string)
    ensures Count('\'', Escaped(s)) == Count('\'', s)
    ensures Count('\\', Escaped(s)) == Count('\\', s) + Count('"', s)
  {
    if s != "" {
      CountEscaped(s[1..]);
      var head := if s[0] == '"' then "\\\"" else [s[0]];
      assert Escaped(s) == head + Escaped(s[1..]);
      CountConcat('\'', head, Escaped(s[1..]));
      CountConcat('\\', head, Escaped(s[1..]));
      assert "\\\""[1..] == "\"" && "\""[1..] == "" && [s[0]][1..] == "";
    }
  }

  lemma CountQuoted(s: string)
    ensures Count('\'', QuoteArgument(s)) == Count('\'', s)
    ensures Count('\\', QuoteArgument(s)) == Count('\\', s) + Count('"', s)
  {
    if NeedsQuoting(s) {
      CountEscaped(s);
      assert "\""[1..] == "";
      forall c | c == '\'' || c == '\\' ensures Count(c, QuoteArgument(s)) == Count(c, Escaped(s)) {
        CountConcat(c, "\"" + Escaped(s), "\"");
        CountConcat(c, "\"", Escaped(s));
      }
    } else {
      CountsIn('\'', s);
      CountsIn('\\', s);
      CountsIn('"', s);
    }
  }

  /** Quoting a command adds no single quote, and one backslash for each double quote. */
  lemma {:induction false} CountCommand(args: seq<string>)
    ensures Count('\'', QuoteAll(args)) == CountAll('\'', args)
    ensures Count('\\', QuoteAll(args)) == CountAll('\\', args) + CountAll('"', args)
    decreases |args|
  {
    if args != [] {
      CountQuoted(args[0]);
      if |args| > 1 {
        CountCommand(args[1..]);
        assert " "[1..] == "";
        forall c | c == '\'' || c == '\\'
          ensures Count(c, QuoteAll(args)) == Count(c, QuoteArgument(args[0])) + Count(c, QuoteAll(args[1..]))
        {
          CountConcat(c, QuoteArgument(args[0]) + " ", QuoteAll(args[1..]));
          CountConcat(c, QuoteArgument(args[0]), " ");
        }
      } else {
        assert args[1..] == [];
      }
    }
  }

  // -- Backslashes before zero characters ------------------------------------------------------

  /** How often a zero character follows a backslash. */
  ghost function Pairs(s: string): nat {
    if |s| < 2 then 0 else (if s[0] == '\\' && s[1] == NUL then 1 else 0) + Pairs(s[1..])
  }

  lemma {:induction false} PairsConcat(s: string, t: string)
    requires t != "" ==> t[0] != NUL
    ensures Pairs(s + t) == Pairs(s) + Pairs(t)
  {
    if s == "" {
      assert s + t == t;
    } else {
      assert (s + t)[1..] == s[1..] + t;
      PairsConcat(s[1..], t);
    }
  }

  lemma {:induction false} ZerosConcat(st: Lexer, s: string, t: string)
    ensures Zeros(st, s + t) == Zeros(st, s) + Zeros(Run(st, s), t)
    decreases |s|
  {
    if s == "" {
      assert s + t == t;
    } else {
      assert (s + t)[1..] == s[1..] + t;
      ZerosConcat(Step(st, s[0]), s[1..], t);
    }
  }

  lemma {:induction false} ZerosArePairs(st: Lexer, s: string)
    ensures Zeros(st, s) <= Pairs(s) + if s != "" && KeepsBackslash(st, s[0]) then 1 else 0
    decreases |s|
  {
    if s != "" {
      ZerosArePairs(Step(st, s[0]), s[1..]);
    }
  }

  lemma {:induction false} PairsEscaped(s: string)
    ensures Pairs(Escaped(s)) <= Count('\\', s)
    ensures Escaped(s) != "" && Escaped(s)[0] == NUL ==> s[0] == NUL
  {
    if s != "" {
      var rest := Escaped(s[1..]);
      PairsEscaped(s[1..]);
      if s[0] == '"' {
        assert Escaped(s)[1..] == "\"" + rest && ("\"" + rest)[1..] == rest;
      } else {
        assert Escaped(s)[1..] == rest;
      }
    }
  }

  lemma PairsQuoted(s: string)
    ensures Pairs(QuoteArgument(s)) <= Count('\\', s)
  {
    if NeedsQuoting(s) {
      PairsEscaped(s);
      PairsConcat("\"" + Escaped(s), "\"");
      assert ("\"" + Escaped(s))[1..] == Escaped(s);
    } else {
      PairsPlain(s);
    }
  }

  lemma {:induction false} PairsPlain(s: string)
    requires '\\' !in s
    ensures Pairs(s) == 0
  {
    if s != "" {
      PairsPlain(s[1..]);
    }
  }

  lemma {:induction false} PairsCommand(args: seq<string>)
    ensures Pairs(QuoteAll(args)) <= CountAll('\\', args)
    decreases |args|
  {
    if args != [] {
      PairsQuoted(args[0]);
      if |args| > 1 {
        PairsCommand(args[1..]);
        PairsAfter(QuoteArgument(args[0]), args[1..]);
      } else {
        assert args[1..] == [];
      }
    }
  }

  lemma PairsAfter(s: string, args: seq<string>)
    ensures Pairs(s + " " + QuoteAll(args)) == Pairs(s) + Pairs(QuoteAll(args))
  {
    var rest := QuoteAll(args);
    assert s + " " + rest == s + (" " + rest);
    PairsConcat(s, " " + rest);
    assert (" " + rest)[1..] == rest;
  }

  lemma {:induction false} EscapedConcat(s: string, t: string)
    ensures Escaped(s + t) == Escaped(s) + Escaped(t)
  {
    if s == "" {
      assert s + t == t;
    } else {
      assert (s + t)[1..] == s[1..] + t;
      EscapedConcat(s[1..], t);
    }
  }

  lemma FirstBackslash(s: string) returns (k: nat)
    requires '\\' in s
    ensures k < |s| && s[k] == '\\' && '\\' !in s[..k]
  {
    k := 0;
    while s[k] != '\\'
      invariant k < |s| && '\\' !in s[..k] && exists i :: k <= i < |s| && s[i] == '\\'
      decreases |s| - k
    {
      k := k + 1;
    }
  }

  /** What follows the first word of a command. */
  ghost function Others(args: seq<string>): string {
    if |args| <= 1 then "" else " " + QuoteAll(args[1..])
  }

  lemma OthersPairs(args: seq<string>)
    requires args != []
    ensures QuoteAll(args) == QuoteArgument(args[0]) + Others(args)
    ensures Pairs(Others(args)) <= CountAll('\\', args[1..])
    ensures Others(args) != "" ==> Others(args)[0] == ' '
  {
    var q := QuoteArgument(args[0]);
    if |args| > 1 {
      PairsCommand(args[1..]);
      ConsTail(' ', QuoteAll(args[1..]));
      Associate(q, " ", QuoteAll(args[1..]));
    } else {
      NothingAfter(q);
    }
  }

  /** The part of a quoted word before its first backslash. */
  lemma QuotedUpTo(arg: string, k: nat, tail: string)
    requires k < |arg| && arg[k] == '\\'
    ensures QuoteArgument(arg) + tail ==
      ("\"" + Escaped(arg[..k])) + (['\\'] + (Escaped(arg[k + 1..]) + ("\"" + tail)))
  {
    assert !IsOkay(arg[k]);
    EscapedAround(arg, k);
    var u, v := Escaped(arg[..k]), Escaped(arg[k + 1..]);
    var w := ['\\'] + v;
    Associate("\"" + (u + w), "\"", tail);
    Associate("\"", u, w);
    Associate("\"" + u, w, "\"" + tail);
    Associate(['\\'], v, "\"" + tail);
  }

  lemma EscapedAround(arg: string, k: nat)
    requires k < |arg| && arg[k] == '\\'
    ensures Escaped(arg) == Escaped(arg[..k]) + (['\\'] + Escaped(arg[k + 1..]))
  {
    var v := arg[k..];
    assert arg == arg[..k] + v;
    EscapedConcat(arg[..k], v);
    DropNext(arg, k);
  }

  /** Text within quotes and without a backslash keeps no zero character after one. */
  lemma NoZerosBefore(st: Lexer, u: string)
    requires '\\' !in u && !st.isEscaped && st.curQuote == NUL
    ensures Zeros(st, "\"" + Escaped(u)) == 0
    ensures var mid := Run(st, "\"" + Escaped(u)); !mid.isEscaped && mid.curQuote == '"'
  {
    var s := "\"" + Escaped(u);
    assert s[1..] == Escaped(u);
    RunQuoted(Step(st, '"'), u);
    ZerosArePairs(Step(st, '"'), Escaped(u));
    PairsEscaped(u);
    CountsIn('\\', u);
  }

  lemma ZerosAfterBackslash(mid: Lexer, s: string)
    requires !mid.isEscaped && mid.curQuote == '"'
    ensures Zeros(mid, ['\\'] + s) <= Pairs(s)
  {
    assert (['\\'] + s)[1..] == s;
    ZerosArePairs(Step(mid, '\\'), s);
  }

  /** The first backslash of a word is read within quotes, where it is not kept before a zero character. */
  lemma FirstIsNotKept(st: Lexer, arg: string, tail: string)
    requires '\\' in arg && !st.isEscaped && st.curQuote == NUL && (tail != "" ==> tail[0] != NUL)
    ensures Zeros(st, QuoteArgument(arg) + tail) < Count('\\', arg) + Pairs(tail)
  {
    var k := FirstBackslash(arg);
    var u, v := arg[..k], arg[k + 1..];
    var head, after := "\"" + Escaped(u), Escaped(v) + ("\"" + tail);
    QuotedUpTo(arg, k, tail);
    NoZerosBefore(st, u);
    ZerosConcat(st, head, ['\\'] + after);
    ZerosAfterBackslash(Run(st, head), after);
    PairsConcat(Escaped(v), "\"" + tail);
    assert ("\"" + tail)[1..] == tail;
    PairsEscaped(v);
    CountsAround(arg, k);
  }

  lemma CountsAround(s: string, k: nat)
    requires k < |s| && s[k] == '\\'
    ensures Count('\\', s) >= 1 + Count('\\', s[k + 1..])
  {
    assert s == s[..k] + s[k..] && s[k..][1..] == s[k + 1..];
    CountConcat('\\', s[..k], s[k..]);
  }

  /** In the command of words of which some has a backslash, fewer backslashes are kept before zero characters than the
      words have. */
  lemma {:induction false} ZerosAreFew(st: Lexer, args: seq<string>)
    requires st == Lexer(NUL, false, NoToken, st.acc)
    requires exists arg :: arg in args && '\\' in arg
    ensures Zeros(st, QuoteAll(args)) < CountAll('\\', args)
    decreases |args|
  {
    OthersPairs(args);
    if '\\' in args[0] {
      FirstIsNotKept(st, args[0], Others(args));
    } else {
      HeadTail(args);
      var q := QuoteArgument(args[0]);
      CountsIn('\\', args[0]);
      PairsQuoted(args[0]);
      ZerosArePairs(st, q);
      ZerosConcat(st, q, Others(args));
      ReadyForNext(st, args);
      ZerosAreFew(Step(Run(st, q), ' '), args[1..]);
    }
  }

  lemma ReadyForNext(st: Lexer, args: seq<string>)
    requires |args| > 1 && '\\' !in args[0] && st == Lexer(NUL, false, NoToken, st.acc)
    ensures var mid := Run(st, QuoteArgument(args[0]));
      var next := Step(mid, ' ');
      && next == Lexer(NUL, false, NoToken, next.acc)
      && Zeros(mid, Others(args)) == Zeros(next, QuoteAll(args[1..]))
  {
    if args[0] != "" {
      RunArgument(st, args[0]);
    }
    ConsTail(' ', QuoteAll(args[1..]));
  }

  // -- The exact condition ---------------------------------------------------------------------

  /** If a command splits into the words it was made of, none of them has a backslash. */
  lemma NoBackslashComesBack(args: seq<string>)
    requires Split(QuoteAll(args)) == args
    ensures forall arg | arg in args :: '\\' !in arg
  {
    var command := QuoteAll(args);
    var end := Run(START, command);
    CountCommand(args);
    BalancedRun(START, command, 0, 0);
    if exists arg :: arg in args && '\\' in arg {
      ZerosAreFew(START, args);
    }
    forall c ensures Kept(c, end) == CountAll(c, args) {
      if end.token.Token? {
        CountAppend(c, end.acc, end.token.text);
      }
    }
    CountsInAll('\\', args);
  }

  ghost function NonEmpty(args: seq<string>): seq<string> {
    if args == [] then [] else NonEmptyFirst(args) + NonEmpty(args[1..])
  }

  /** Without backslashes, just the empty words are lost. */
  lemma {:induction false} EmptyWordsAreLost(st: Lexer, args: seq<string>)
    requires forall arg | arg in args :: '\\' !in arg
    requires st == Lexer(NUL, false, NoToken, st.acc)
    ensures Words(Run(st, QuoteAll(args))) == st.acc + NonEmpty(args)
    decreases |args|
  {
    if args == [] {
      NothingAfter(st.acc);
    } else {
      assert args[0] in args;
      if |args| == 1 {
        FirstWord(st, args);
        assert args[1..] == [];
        NothingAfter(NonEmptyFirst(args));
      } else {
        FirstWord(st, args);
        EmptyWordsAreLost(st.(acc := st.acc + NonEmptyFirst(args)), args[1..]);
        Associate(st.acc, NonEmptyFirst(args), NonEmpty(args[1..]));
      }
    }
  }

  ghost function NonEmptyFirst(args: seq<string>): seq<string>
    requires args != []
  {
    if args[0] == "" then [] else [args[0]]
  }

  /** The first word is taken, unless it is empty, and the lexer is ready for the next. */
  lemma FirstWord(st: Lexer, args: seq<string>)
    requires args != [] && '\\' !in args[0] && st == Lexer(NUL, false, NoToken, st.acc)
    ensures |args| == 1 ==> Words(Run(st, QuoteAll(args))) == st.acc + NonEmptyFirst(args)
    ensures |args| > 1 ==>
      Run(st, QuoteAll(args)) == Run(st.(acc := st.acc + NonEmptyFirst(args)), QuoteAll(args[1..]))
  {
    var q := QuoteArgument(args[0]);
    OthersPairs(args);
    NothingAfter(st.acc);
    if args[0] != "" {
      RunArgument(st, args[0]);
    }
    if |args| > 1 {
      RunConcat(st, q, Others(args));
      ConsTail(' ', QuoteAll(args[1..]));
    }
  }

  lemma {:induction false} NonEmptyHasNoEmpty(args: seq<string>)
    ensures "" !in NonEmpty(args)
  {
    if args != [] {
      NonEmptyHasNoEmpty(args[1..]);
    }
  }

  lemma {:induction false} NonEmptyIsAll(args: seq<string>)
    requires "" !in args
    ensures NonEmpty(args) == args
  {
    if args != [] {
      HeadTail(args);
      NonEmptyIsAll(args[1..]);
    }
  }

  /** Every list of non-empty words without backslashes survives, whatever else they contain. */
  lemma QuotedCommandSplits(args: seq<string>)
    requires forall arg | arg in args :: Survives(arg)
    ensures Split(QuoteAll(args)) == args
  {
    EmptyWordsAreLost(START, args);
    NonEmptyIsAll(args);
    NothingBefore(args);
  }

  /** A list of words comes back from its command if and only if every word is non-empty and free of backslashes. */
  lemma ListSurvivesExactly(args: seq<string>)
    ensures Split(QuoteAll(args)) == args <==> forall arg | arg in args :: Survives(arg)
  {
    if forall arg | arg in args :: Survives(arg) {
      QuotedCommandSplits(args);
    }
    if Split(QuoteAll(args)) == args {
      NoBackslashComesBack(args);
      EmptyWordsAreLost(START, args);
      NonEmptyHasNoEmpty(args);
      assert [] + NonEmpty(args) == NonEmpty(args);
    }
  }

  /** In particular a single word survives exactly when it is not empty and has no backslash. */
  lemma SurvivesExactly(arg: string)
    ensures Split(QuoteArgument(arg)) == [arg] <==> Survives(arg)
  {
    ListSurvivesExactly([arg]);
    assert QuoteAll([arg]) == QuoteArgument(arg);
  }

  /** The two loops one after the other. */
  method RoundTrip(args: seq<string>) returns (words: seq<string>)
    ensures words == args <==> forall arg | arg in args :: Survives(arg)
  {
    var command := QuoteCommand(args);
    words := SplitShellString(command);
    ListSurvivesExactly(args);
  }
}
