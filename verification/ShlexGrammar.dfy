/** The grammar of shell strings, without the lexer: words are made of pieces and separated by white space.  Every
    string is spelled by it, and splitting gives the texts of the words. */
module ShlexGrammar {
  import opened Sequences
  import opened Shlex
  import opened Wrappers

  /** A character of quoted text. */
  datatype Inner =
    | Bare(c: char)
    | Backslashed(c: char)  // a backslash and the character
    | Joined                // a backslash and a newline

  datatype Piece =
    | Plain(c: char)
    | Escape(c: char)       // a backslash and the character
    | Continuation          // a backslash and a newline
    | Quoted(quote: char, inner: seq<Inner>)

  type Word = seq<Piece>

  /** What the string ends in the middle of. */
  datatype Tail =
    | Whole
    | LoneBackslash
    | OpenQuote(quote: char, inner: seq<Inner>, backslash: bool)

  /** Words with white space between them; words may be empty, as those around white space at the ends are. */
  datatype Layout = Last(word: Word, tail: Tail) | Then(word: Word, gap: string, rest: Layout)

  predicate IsGap(c: char) {
    c in "\t \n\r\U{C}"
  }

  predicate ValidInner(quote: char, x: Inner) {
    match x
    case Bare(c) => c != quote && c != '\\'
    case Backslashed(c) => c != '\n'
    case Joined => true
  }

  predicate ValidQuoted(quote: char, inner: seq<Inner>) {
    (quote == '"' || quote == '\'') && forall x | x in inner :: ValidInner(quote, x)
  }

  predicate ValidPiece(p: Piece) {
    match p
    case Plain(c) => c !in "\\\"'" && !IsGap(c)
    case Escape(c) => c != '\n'
    case Continuation => true
    case Quoted(quote, inner) => ValidQuoted(quote, inner)
  }

  predicate ValidWord(w: Word) {
    forall p | p in w :: ValidPiece(p)
  }

  predicate Valid(l: Layout) {
    match l
    case Last(word, tail) => ValidWord(word) && (tail.OpenQuote? ==> ValidQuoted(tail.quote, tail.inner))
    case Then(word, gap, rest) => ValidWord(word) && gap != "" && (forall c | c in gap :: IsGap(c)) && Valid(rest)
  }

  // -- Spelling --------------------------------------------------------------------------------

  function SpellOne(x: Inner): string {
    match x
    case Bare(c) => [c]
    case Backslashed(c) => ['\\', c]
    case Joined => "\\\n"
  }

  function SpellInner(inner: seq<Inner>): string {
    if inner == [] then "" else SpellOne(inner[0]) + SpellInner(inner[1..])
  }

  function SpellPiece(p: Piece): string {
    match p
    case Plain(c) => [c]
    case Escape(c) => ['\\', c]
    case Continuation => "\\\n"
    case Quoted(quote, inner) => [quote] + (SpellInner(inner) + [quote])
  }

  function SpellWord(w: Word): string {
    if w == [] then "" else SpellPiece(w[0]) + SpellWord(w[1..])
  }

  function SpellTail(t: Tail): string {
    match t
    case Whole => ""
    case LoneBackslash => "\\"
    case OpenQuote(quote, inner, backslash) => [quote] + (SpellInner(inner) + if backslash then "\\" else "")
  }

  function Spell(l: Layout): string {
    match l
    case Last(word, tail) => SpellWord(word) + SpellTail(tail)
    case Then(word, gap, rest) => SpellWord(word) + (gap + Spell(rest))
  }

  // -- What it stands for ----------------------------------------------------------------------

  /** Escaped characters stand for themselves, and an escaped newline for nothing. */
  function InnerText(inner: seq<Inner>): string {
    if inner == [] then ""
    else (if inner[0].Joined? then "" else [inner[0].c]) + InnerText(inner[1..])
  }

  /** A backslash before a zero character is kept; it is not inside quotes. */
  function EscapeText(c: char): string {
    if c == '\0' then ['\\', c] else [c]
  }

  function OrNothing(text: Option<string>): string {
    if text.None? then "" else text.value
  }

  /** The text of a word: a quoted piece discards what comes before it, and continuations alone make no word. */
  function WordText(w: Word): Option<string> {
    if w == [] then None
    else
      var before := WordText(w[..|w| - 1]);
      match w[|w| - 1]
      case Plain(c) => Some(OrNothing(before) + [c])
      case Escape(c) => Some(OrNothing(before) + EscapeText(c))
      case Continuation => before
      case Quoted(_, inner) => Some(InnerText(inner))
  }

  function LastText(w: Word, t: Tail): Option<string> {
    if t.OpenQuote? then Some(InnerText(t.inner)) else WordText(w)
  }

  function Listed(text: Option<string>): seq<string> {
    if text.None? then [] else [text.value]
  }

  function Texts(l: Layout): seq<string> {
    match l
    case Last(word, tail) => Listed(LastText(word, tail))
    case Then(word, _, rest) => Listed(WordText(word)) + Texts(rest)
  }

  // -- Splitting a spelled string --------------------------------------------------------------

  function TokenFor(text: Option<string>): Token {
    if text.None? then NoToken else Token(text.value)
  }

  /** The lexer between two pieces of a word. */
  function Inside(text: Option<string>, acc: seq<string>): Lexer {
    Lexer(NUL, false, TokenFor(text), acc)
  }

  function InQuotes(quote: char, text: string, acc: seq<string>): Lexer {
    Lexer(quote, false, Token(text), acc)
  }

  lemma RunOne(st: Lexer, a: char)
    ensures Run(st, [a]) == Step(st, a)
  {
    assert [a][1..] == "";
  }

  lemma RunTwo(st: Lexer, a: char, b: char)
    ensures Run(st, [a, b]) == Step(Step(st, a), b)
  {
    assert [a, b][1..] == [b];
    RunOne(Step(st, a), b);
  }

  lemma RunInnerOne(quote: char, x: Inner, text: string, acc: seq<string>)
    requires (quote == '"' || quote == '\'') && ValidInner(quote, x)
    ensures Run(InQuotes(quote, text, acc), SpellOne(x)) ==
      InQuotes(quote, text + if x.Joined? then "" else [x.c], acc)
  {
    var st := InQuotes(quote, text, acc);
    match x
    case Bare(c) => RunOne(st, c);
    case Backslashed(c) => RunTwo(st, '\\', c);
    case Joined =>
      RunTwo(st, '\\', '\n');
      NothingAfter(text);
  }

  lemma {:induction false} RunInner(quote: char, inner: seq<Inner>, text: string, acc: seq<string>)
    requires ValidQuoted(quote, inner)
    ensures Run(InQuotes(quote, text, acc), SpellInner(inner)) == InQuotes(quote, text + InnerText(inner), acc)
    decreases |inner|
  {
    if inner == [] {
      NothingAfter(text);
    } else {
      var x, more := inner[0], inner[1..];
      var one := if x.Joined? then "" else [x.c];
      RunInnerOne(quote, x, text, acc);
      RunConcat(InQuotes(quote, text, acc), SpellOne(x), SpellInner(more));
      RunInner(quote, more, text + one, acc);
      Associate(text, one, InnerText(more));
    }
  }

  /** The text of a word that has one more piece. */
  function MoreText(before: Option<string>, p: Piece): Option<string> {
    match p
    case Plain(c) => Some(OrNothing(before) + [c])
    case Escape(c) => Some(OrNothing(before) + EscapeText(c))
    case Continuation => before
    case Quoted(_, inner) => Some(InnerText(inner))
  }

  lemma OpenQuotes(quote: char, inner: seq<Inner>, text: Option<string>, acc: seq<string>)
    requires ValidQuoted(quote, inner)
    ensures Run(Inside(text, acc), [quote] + SpellInner(inner)) == InQuotes(quote, InnerText(inner), acc)
  {
    RunConcat(Inside(text, acc), [quote], SpellInner(inner));
    RunOne(Inside(text, acc), quote);
    RunInner(quote, inner, "", acc);
    NothingBefore(InnerText(inner));
  }

  lemma RunPiece(p: Piece, text: Option<string>, acc: seq<string>)
    requires ValidPiece(p)
    ensures Run(Inside(text, acc), SpellPiece(p)) == Inside(MoreText(text, p), acc)
  {
    var st := Inside(text, acc);
    match p
    case Plain(c) =>
      RunOne(st, c);
      NothingBefore([c]);
    case Escape(c) =>
      RunTwo(st, '\\', c);
      NothingBefore(EscapeText(c));
    case Continuation =>
      RunTwo(st, '\\', '\n');
    case Quoted(quote, inner) =>
      Associate([quote], SpellInner(inner), [quote]);
      RunConcat(st, [quote] + SpellInner(inner), [quote]);
      OpenQuotes(quote, inner, text, acc);
      RunOne(InQuotes(quote, InnerText(inner), acc), quote);
  }

  lemma {:induction false} RunWord(w: Word, acc: seq<string>)
    requires ValidWord(w)
    ensures Run(Inside(None, acc), SpellWord(w)) == Inside(WordText(w), acc)
    decreases |w|
  {
    if w != [] {
      var front, last := w[..|w| - 1], w[|w| - 1];
      RunWord(front, acc);
      SpellFront(w);
      RunConcat(Inside(None, acc), SpellWord(front), SpellPiece(last));
      RunPiece(last, WordText(front), acc);
    }
  }

  lemma {:induction false} SpellFront(w: Word)
    requires w != []
    ensures SpellWord(w) == SpellWord(w[..|w| - 1]) + SpellPiece(w[|w| - 1])
  {
    if |w| == 1 {
      assert w[1..] == [] && w[..0] == [];
      NothingBefore(SpellPiece(w[0]));
      NothingAfter(SpellPiece(w[0]));
    } else {
      SpellFront(w[1..]);
      assert w[1..][..|w| - 2] == w[..|w| - 1][1..];
      Associate(SpellPiece(w[0]), SpellWord(w[..|w| - 1][1..]), SpellPiece(w[|w| - 1]));
    }
  }

  lemma {:induction false} RunGap(gap: string, text: Option<string>, acc: seq<string>)
    requires gap != "" && forall c | c in gap :: IsGap(c)
    ensures Run(Inside(text, acc), gap) == Inside(None, acc + Listed(text))
    decreases |gap|
  {
    var c, more := gap[0], gap[1..];
    HeadTail(gap);
    assert IsGap(c) && IsSplitSpace(c);
    NothingAfter(acc);
    assert Step(Inside(text, acc), c) == Inside(None, acc + Listed(text));
    if more != "" {
      RunGap(more, None, acc + Listed(text));
      NothingAfter(acc + Listed(text));
    }
  }

  lemma RunTail(w: Word, t: Tail, acc: seq<string>)
    requires Valid(Last(w, t))
    ensures Words(Run(Inside(None, acc), SpellWord(w) + SpellTail(t))) == acc + Listed(LastText(w, t))
  {
    var st := Inside(WordText(w), acc);
    RunWord(w, acc);
    RunConcat(Inside(None, acc), SpellWord(w), SpellTail(t));
    NothingAfter(acc);
    match t
    case Whole =>
    case LoneBackslash =>
      RunOne(st, '\\');
    case OpenQuote(quote, inner, backslash) =>
      var end := if backslash then "\\" else "";
      OpenQuotes(quote, inner, WordText(w), acc);
      Associate([quote], SpellInner(inner), end);
      RunConcat(st, [quote] + SpellInner(inner), end);
      RunOne(InQuotes(quote, InnerText(inner), acc), '\\');
  }

  lemma {:induction false} RunLayout(l: Layout, acc: seq<string>)
    requires Valid(l)
    ensures Words(Run(Inside(None, acc), Spell(l))) == acc + Texts(l)
    decreases l
  {
    match l
    case Last(word, tail) =>
      RunTail(word, tail, acc);
    case Then(word, gap, rest) =>
      var text := WordText(word);
      RunWord(word, acc);
      RunConcat(Inside(None, acc), SpellWord(word), gap + Spell(rest));
      RunGap(gap, text, acc);
      RunConcat(Inside(text, acc), gap, Spell(rest));
      RunLayout(rest, acc + Listed(text));
      Associate(acc, Listed(text), Texts(rest));
  }

  /** Splitting a spelled string gives the texts of its words. */
  lemma SplitsAsSpelled(l: Layout)
    requires Valid(l)
    ensures Split(Spell(l)) == Texts(l)
  {
    RunLayout(l, []);
    NothingBefore(Texts(l));
  }

  // -- Every string is spelled -----------------------------------------------------------------

  /** A layout with one more piece in front. */
  function WithPiece(p: Piece, l: Layout): Layout {
    match l
    case Last(word, tail) => Last([p] + word, tail)
    case Then(word, gap, rest) => Then([p] + word, gap, rest)
  }

  lemma PieceInFront(p: Piece, l: Layout)
    requires ValidPiece(p) && Valid(l)
    ensures Valid(WithPiece(p, l)) && Spell(WithPiece(p, l)) == SpellPiece(p) + Spell(l)
  {
    ConsTail(p, l.word);
    Associate(SpellPiece(p), SpellWord(l.word), if l.Last? then SpellTail(l.tail) else l.gap + Spell(l.rest));
  }

  lemma GapInFront(c: char, l: Layout)
    requires IsGap(c) && Valid(l)
    ensures Valid(Then([], [c], l)) && Spell(Then([], [c], l)) == [c] + Spell(l)
  {
    NothingBefore([c] + Spell(l));
  }

  /** The rest of a text that stands in quotes: its characters up to the closing quote, and what follows. */
  datatype Rest = Closed(inner: seq<Inner>, after: string) | Open(inner: seq<Inner>, backslash: bool)

  ghost predicate IsRest(quote: char, s: string, r: Rest) {
    && ValidQuoted(quote, r.inner)
    && s == SpellInner(r.inner) + match r
         case Closed(_, after) => [quote] + after
         case Open(_, backslash) => if backslash then "\\" else ""
  }

  lemma InnerInFront(quote: char, x: Inner, s: string, r: Rest)
    requires ValidInner(quote, x) && IsRest(quote, s, r)
    ensures IsRest(quote, SpellOne(x) + s, r.(inner := [x] + r.inner))
  {
    ConsTail(x, r.inner);
    var end := match r
      case Closed(_, after) => [quote] + after
      case Open(_, backslash) => if backslash then "\\" else "";
    Associate(SpellOne(x), SpellInner(r.inner), end);
  }

  lemma {:induction false} RestOf(quote: char, s: string) returns (r: Rest)
    requires quote == '"' || quote == '\''
    ensures IsRest(quote, s, r) && (r.Closed? ==> |r.after| < |s|)
    decreases |s|
  {
    if s == "" {
      r := Open([], false);
    } else if s[0] == quote {
      r := Closed([], s[1..]);
      HeadTail(s);
      NothingBefore([quote] + s[1..]);
    } else if s == "\\" {
      r := Open([], true);
    } else {
      var x, n := Bare(s[0]), 1;
      if s[0] == '\\' {
        x, n := if s[1] == '\n' then Joined else Backslashed(s[1]), 2;
      }
      assert s == SpellOne(x) + s[n..];
      var more := RestOf(quote, s[n..]);
      InnerInFront(quote, x, s[n..], more);
      r := more.(inner := [x] + more.inner);
    }
  }

  /** Every string is spelled by some layout, which splitting therefore follows. */
  lemma {:induction false} EveryStringIsSpelled(s: string) returns (l: Layout)
    ensures Valid(l) && Spell(l) == s && Split(s) == Texts(l)
    decreases |s|
  {
    l := SomeLayout(s);
    SplitsAsSpelled(l);
  }

  lemma {:induction false} SomeLayout(s: string) returns (l: Layout)
    ensures Valid(l) && Spell(l) == s
    decreases |s|
  {
    if s == "" {
      l := Last([], Whole);
    } else if s == "\\" {
      l := Last([], LoneBackslash);
    } else if s[0] == '"' || s[0] == '\'' {
      l := QuotedLayout(s);
    } else if IsGap(s[0]) {
      var more := SomeLayout(s[1..]);
      GapInFront(s[0], more);
      l := Then([], [s[0]], more);
      HeadTail(s);
    } else {
      var p, n := Plain(s[0]), 1;
      if s[0] == '\\' {
        p, n := if s[1] == '\n' then Continuation else Escape(s[1]), 2;
      }
      assert s == SpellPiece(p) + s[n..];
      var more := SomeLayout(s[n..]);
      PieceInFront(p, more);
      l := WithPiece(p, more);
    }
  }

  lemma {:induction false} QuotedLayout(s: string) returns (l: Layout)
    requires s != "" && (s[0] == '"' || s[0] == '\'')
    ensures Valid(l) && Spell(l) == s
    decreases |s|, 0
  {
    var quote := s[0];
    var r := RestOf(quote, s[1..]);
    HeadTail(s);
    match r
    case Open(inner, backslash) =>
      l := Last([], OpenQuote(quote, inner, backslash));
      NothingBefore(SpellTail(l.tail));
    case Closed(inner, after) =>
      var more := SomeLayout(after);
      PieceInFront(Quoted(quote, inner), more);
      l := WithPiece(Quoted(quote, inner), more);
      Associate(SpellInner(inner), [quote], after);
      Associate([quote], SpellInner(inner) + [quote], after);
  }

  /** The splitter on any string, by the grammar. */
  method SplitWords(shell: string) returns (words: seq<string>, ghost layout: Layout)
    ensures Valid(layout) && Spell(layout) == shell && words == Texts(layout)
    ensures forall l | Valid(l) && Spell(l) == shell :: words == Texts(l)
  {
    words := SplitShellString(shell);
    layout := EveryStringIsSpelled(shell);
    forall l | Valid(l) && Spell(l) == shell ensures words == Texts(l) {
      SplitsAsSpelled(l);
    }
  }
}
