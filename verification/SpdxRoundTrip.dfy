/** The SPDX parser and printer against each other. */
module SpdxRoundTrip {
  import opened Sequences
  import opened Spdx
  import opened Text
  import opened Wrappers

  /** No identifier of the table is empty or a symbol. */
  ghost predicate SaneIds(table: seq<Info>) {
    forall info | info in table :: info.id != "" && info.id != "(" && info.id != ")" && info.id != "+"
  }

  ghost predicate Sane(t: Tables) {
    SaneIds(t.licenses) && SaneIds(t.exceptions)
  }

  /** A licence that a token can name. */
  ghost predicate Nameable(t: Tables, license: Info) {
    license.id != "" && AllIdChars(license.id) && Lookup(t.licenses, license.id) == Some(license)
  }

  /** The trees of the grammar: a binary operator always has a single licence on its left, and an exception has an
      identifier for its name. */
  ghost predicate Grammatical(t: Tables, e: Expr) {
    match e
    case Single(s) => Nameable(t, s.license)
    case And(l, r) => l.Single? && Nameable(t, l.simple.license) && Grammatical(t, r)
    case Or(l, r) => l.Single? && Nameable(t, l.simple.license) && Grammatical(t, r)
    case Paren(inner) => Grammatical(t, inner)
    case With(s, exc) => Nameable(t, s.license) && exc.id != "" && AllIdChars(exc.id)
  }

  ghost predicate WithFree(e: Expr) {
    match e
    case Single(_) => true
    case And(l, r) => WithFree(l) && WithFree(r)
    case Or(l, r) => WithFree(l) && WithFree(r)
    case Paren(inner) => WithFree(inner)
    case With(_, _) => false
  }

  ghost predicate Buildable(t: Tables, e: Expr) {
    Grammatical(t, e) && WithFree(e)
  }

  // -- Printing and parsing --------------------------------------------------------------------

  /** What may follow a printed expression: the closing parentheses around it. */
  ghost predicate Closers(rest: string) {
    forall i | 0 <= i < |rest| :: rest[i] == ')'
  }

  lemma IdIsToken(id: string, tail: string)
    requires id != "" && AllIdChars(id) && Trimmed(id + tail)
    requires tail != "" ==> !IsIdChar(tail[0])
    ensures NextToken(id + tail) == id
  {
    assert IsIdChar(id[0]) && (id + tail)[0] == id[0];
    assert (id + tail)[..|id|] == id;
    IdPrefixIs(id + tail, |id|);
  }

  lemma SymbolIsToken(c: char, tail: string)
    requires IsSymbol(c) && Trimmed([c] + tail)
    ensures NextToken([c] + tail) == [c]
  {
    assert ([c] + tail)[..1] == [c];
  }

  /** Printed text starts and ends with something other than white space. */
  lemma {:induction false} PrintedIsTrimmed(t: Tables, e: Expr, rest: string)
    requires Grammatical(t, e) && Closers(rest)
    ensures Bounded(Print(e) + rest)
  {
    match e
    case Single(simple) =>
      SimpleIsBounded(t, simple, rest);
    case And(l, r) =>
      PrintedIsTrimmed(t, r, rest);
      BoundedAround(t, l.simple, " AND ", Print(r), rest);
    case Or(l, r) =>
      PrintedIsTrimmed(t, r, rest);
      BoundedAround(t, l.simple, " OR ", Print(r), rest);
    case Paren(inner) =>
      assert Print(e)[|Print(e)| - 1] == ')';
    case With(s, exc) =>
      assert Bounded(exc.id + rest) by {
        assert IsIdChar(exc.id[0]) && IsIdChar(exc.id[|exc.id| - 1]);
      }
      BoundedAround(t, s, " WITH ", exc.id, rest);
  }

  ghost predicate Bounded(s: string) {
    s != "" && !IsSpace(s[0]) && !IsSpace(s[|s| - 1]) && s[0] != ')' && s[0] != '+'
  }

  lemma SimpleIsBounded(t: Tables, s: Simple, rest: string)
    requires Nameable(t, s.license) && Closers(rest)
    ensures Bounded(PrintSimple(s) + rest)
  {
    assert IsIdChar(s.license.id[0]) && IsIdChar(s.license.id[|s.license.id| - 1]);
  }

  lemma BoundedAround(t: Tables, s: Simple, op: string, right: string, rest: string)
    requires Nameable(t, s.license) && Bounded(right + rest)
    ensures Bounded(PrintSimple(s) + op + right + rest)
  {
    SimpleIsBounded(t, s, "");
    NothingAfter(PrintSimple(s));
    Associate(PrintSimple(s) + op, right, rest);
  }

  lemma SimpleComesBack(t: Tables, s: Simple, tail: string)
    requires Nameable(t, s.license) && Trimmed(PrintSimple(s) + tail)
    requires tail != "" ==> !IsIdChar(tail[0]) && tail[0] != '+'
    requires NextToken(tail) != "+"
    ensures ParseSimple(t, PrintSimple(s) + tail) == Success(Parsed(s, tail))
  {
    var id := s.license.id;
    var text := PrintSimple(s) + tail;
    match s
    case JustLicense(_) =>
      IdIsToken(id, tail);
      assert text[|id|..] == tail;
    case LicensePlus(_) =>
      assert text == id + ("+" + tail);
      IdIsToken(id, "+" + tail);
      assert text[|id|..] == "+" + tail;
      PlusToken(tail, text[|text| - 1]);
      assert ("+" + tail)[1..] == tail;
  }

  lemma PlusToken(tail: string, last: char)
    requires last == ("+" + tail)[|tail|] && !IsSpace(last)
    ensures NextToken("+" + tail) == "+"
  {
    assert Trimmed("+" + tail);
    SymbolIsToken('+', tail);
  }

  lemma TrimSpaceBefore(s: string)
    requires Trimmed(s)
    ensures Trim(" " + s) == s
  {
    assert " " + s == " " + s + "";
    TrimAround(" ", s, "");
  }

  /** An operator between spaces is the next token, and what follows it trims to the right operand. */
  lemma OperatorIsToken(op: string, tail: string)
    requires op != "" && AllIdChars(op)
    requires tail != "" && Trimmed(tail)
    ensures var after := op + (" " + tail);
      && Trimmed(after) && NextToken(after) == op && after[|op|..] == " " + tail
      && Trim(" " + after) == after && NextToken(" " + after) == op
      && Trim(" " + tail) == tail
  {
    var after := op + (" " + tail);
    assert IsIdChar(op[0]) && after[0] == op[0] && after[|after| - 1] == tail[|tail| - 1];
    IdIsToken(op, " " + tail);
    TrimSpaceBefore(after);
    TrimSpaceBefore(tail);
  }

  // -- One step of the parser ------------------------------------------------------------------

  ghost function Combine(op: string, s: Simple, rhs: Result<Parsed<Expr>, SpdxError>): Result<Parsed<Expr>, SpdxError> {
    match rhs
    case Failure(e) => Failure(e)
    case Success(p) => Success(Parsed(if op == "OR" then Or(Single(s), p.value) else And(Single(s), p.value), p.rest))
  }

  lemma StepSingle(t: Tables, text: string, s: Simple, rest: string)
    requires Trimmed(text) && NextToken(text) != "(" && ParseSimple(t, text) == Success(Parsed(s, rest))
    requires NextToken(rest) != "OR" && NextToken(rest) != "AND" && NextToken(rest) != "WITH"
    ensures ParseExpr(t, text) == Success(Parsed(Single(s), Trim(rest)))
  {}

  lemma StepOperator(t: Tables, text: string, s: Simple, rest: string, op: string, tail: string)
    requires Trimmed(text) && NextToken(text) != "(" && ParseSimple(t, text) == Success(Parsed(s, rest))
    requires (op == "OR" || op == "AND") && NextToken(rest) == op
    requires |op| <= |Trim(rest)| && Trim(rest)[|op|..] == tail
    ensures ParseExpr(t, text) == Combine(op, s, ParseExpr(t, tail))
  {}

  lemma StepParen(t: Tables, text: string, tail: string, inner: Expr, rest: string)
    requires Trimmed(text) && NextToken(text) == "(" && text != "" && text[1..] == tail
    requires ParseExpr(t, tail) == Success(Parsed(inner, rest)) && NextToken(rest) == ")"
    requires Trim(rest) != ""
    ensures ParseExpr(t, text) == Success(Parsed(Paren(inner), Trim(rest)[1..]))
  {}

  /** White space around the text does not matter. */
  lemma ParseTrimmed(t: Tables, sv: string)
    ensures ParseExpr(t, sv) == ParseExpr(t, Trim(sv))
  {}

  lemma ClosersToken(rest: string)
    requires Closers(rest)
    ensures Trim(rest) == rest && NextToken(rest) == if rest == "" then "" else ")"
  {
    if rest != "" {
      assert rest == [')'] + rest[1..];
      SymbolIsToken(')', rest[1..]);
    }
  }

  /** A licence identifier is not an opening parenthesis. */
  lemma StartsWithId(text: string)
    requires text != "" && Trimmed(text) && IsIdChar(text[0])
    ensures NextToken(text) != "("
  {
    var token := IdPrefix(text);
    assert NextToken(text) == token;
    if token != "" {
      assert token[0] == text[0];
    }
  }

  lemma SingleComesBack(t: Tables, s: Simple, rest: string)
    requires Nameable(t, s.license) && Closers(rest) && Trimmed(PrintSimple(s) + rest)
    ensures ParseExpr(t, PrintSimple(s) + rest) == Success(Parsed(Single(s), rest))
  {
    var text := PrintSimple(s) + rest;
    assert IsIdChar(s.license.id[0]) && text[0] == s.license.id[0];
    StartsWithId(text);
    ClosersToken(rest);
    SimpleComesBack(t, s, rest);
    StepSingle(t, text, s, rest);
  }

  lemma OperatorComesBack(t: Tables, s: Simple, op: string, tail: string)
    requires Nameable(t, s.license) && (op == "AND" || op == "OR")
    requires tail != "" && Trimmed(tail)
    ensures ParseExpr(t, PrintSimple(s) + (" " + (op + (" " + tail)))) == Combine(op, s, ParseExpr(t, tail))
  {
    var after := op + (" " + tail);
    SimpleThenOperator(t, s, op, tail);
    StepOperator(t, PrintSimple(s) + (" " + after), s, " " + after, op, " " + tail);
    ParseTrimmed(t, " " + tail);
  }

  /** A licence followed by an operator is read first. */
  lemma SimpleThenOperator(t: Tables, s: Simple, op: string, tail: string)
    requires Nameable(t, s.license) && op != "" && AllIdChars(op)
    requires tail != "" && Trimmed(tail)
    ensures var after := op + (" " + tail);
      var text := PrintSimple(s) + (" " + after);
      && Trimmed(text) && NextToken(text) != "("
      && ParseSimple(t, text) == Success(Parsed(s, " " + after)) && NextToken(" " + after) == op
      && Trim(" " + after) == after && after[|op|..] == " " + tail && Trim(" " + tail) == tail
  {
    var after := op + (" " + tail);
    OperatorIsToken(op, tail);
    ConsTail(' ', after);
    SimpleText(t, s, " " + after);
    OperatorIsNoPlus(op);
    SimpleComesBack(t, s, " " + after);
  }

  lemma OperatorIsNoPlus(op: string)
    requires op != "" && AllIdChars(op)
    ensures op != "+"
  {
    assert IsIdChar(op[0]);
  }

  lemma SimpleText(t: Tables, s: Simple, tail: string)
    requires Nameable(t, s.license) && tail != "" && !IsSpace(tail[|tail| - 1])
    ensures Trimmed(PrintSimple(s) + tail) && NextToken(PrintSimple(s) + tail) != "("
  {
    var text := PrintSimple(s) + tail;
    assert IsIdChar(s.license.id[0]) && text[0] == s.license.id[0];
    assert text[|text| - 1] == tail[|tail| - 1];
    StartsWithId(text);
  }

  lemma Regroup(a: string, op: string, b: string, rest: string)
    requires op == "AND" || op == "OR"
    ensures a + (if op == "OR" then " OR " else " AND ") + b + rest == a + (" " + (op + (" " + (b + rest))))
  {
    var mid := if op == "OR" then " OR " else " AND ";
    assert mid == " " + op + " ";
    Associate(a + mid, b, rest);
    Associate(a, mid, b + rest);
    Associate(" " + op, " ", b + rest);
    Associate(" ", op, " " + (b + rest));
  }

  /** Printed text parses back to its tree and leaves what followed it. */
  lemma {:induction false} ComesBack(t: Tables, e: Expr, rest: string)
    requires Buildable(t, e) && Closers(rest)
    ensures ParseExpr(t, Print(e) + rest) == Success(Parsed(e, rest))
  {
    PrintedIsTrimmed(t, e, rest);
    match e
    case Single(s) =>
      SingleComesBack(t, s, rest);
    case And(l, r) =>
      ComesBack(t, r, rest);
      BinaryComesBack(t, l.simple, "AND", r, rest);
    case Or(l, r) =>
      ComesBack(t, r, rest);
      BinaryComesBack(t, l.simple, "OR", r, rest);
    case Paren(inner) =>
      ComesBack(t, inner, ")" + rest);
      ParenComesBack(t, inner, rest);
  }

  lemma BinaryComesBack(t: Tables, s: Simple, op: string, r: Expr, rest: string)
    requires Nameable(t, s.license) && (op == "AND" || op == "OR")
    requires Buildable(t, r) && Closers(rest) && ParseExpr(t, Print(r) + rest) == Success(Parsed(r, rest))
    ensures ParseExpr(t, PrintSimple(s) + (if op == "OR" then " OR " else " AND ") + Print(r) + rest) ==
      Success(Parsed(if op == "OR" then Or(Single(s), r) else And(Single(s), r), rest))
  {
    PrintedIsTrimmed(t, r, rest);
    Regroup(PrintSimple(s), op, Print(r), rest);
    OperatorComesBack(t, s, op, Print(r) + rest);
  }

  lemma ParenComesBack(t: Tables, inner: Expr, rest: string)
    requires Buildable(t, inner) && Closers(rest)
    requires ParseExpr(t, Print(inner) + (")" + rest)) == Success(Parsed(inner, ")" + rest))
    ensures ParseExpr(t, "(" + Print(inner) + ")" + rest) == Success(Parsed(Paren(inner), rest))
  {
    var close := ")" + rest;
    var tail := Print(inner) + close;
    PrintedIsTrimmed(t, inner, close);
    ParenRegroup(Print(inner), rest);
    ParenText(tail);
    ClosersToken(close);
    assert close[1..] == rest;
    StepParen(t, "(" + tail, tail, inner, close);
  }

  lemma ParenRegroup(a: string, rest: string)
    ensures "(" + a + ")" + rest == "(" + (a + (")" + rest))
  {}

  lemma ParenText(tail: string)
    requires tail != "" && !IsSpace(tail[|tail| - 1])
    ensures Trimmed("(" + tail) && NextToken("(" + tail) == "(" && ("(" + tail)[1..] == tail
  {
    SymbolIsToken('(', tail);
  }

  /** Printing and then parsing gives the same tree and uses up the whole text. */
  lemma PrintThenParse(t: Tables, e: Expr)
    requires Buildable(t, e)
    ensures Parse(t, Print(e)) == Success(e)
  {
    ComesBack(t, e, "");
    assert Print(e) + "" == Print(e);
  }

  // -- What is accepted ------------------------------------------------------------------------

  /** A token that the table has is an identifier, not a symbol. */
  lemma TokenIsId(table: seq<Info>, sv: string)
    requires SaneIds(table) && Lookup(table, NextToken(sv)).Some?
    ensures var id := NextToken(sv); id != "" && AllIdChars(id) && id == IdPrefix(Trim(sv))
  {
    assert Lookup(table, NextToken(sv)).value in table;
    TokenCases(Trim(sv));
  }

  lemma TokenCases(s: string)
    requires Trimmed(s)
    ensures var id := TokenOf(s); id == "(" || id == ")" || id == "+" || id == IdPrefix(s)
  {}

  /** The rest of an exception's name, after white space or cut in the middle. */
  lemma CutInName(tail: string, before: string, text: string, id: string)
    requires tail == before + text && AllSpace(before) && before != ""
    requires id != "" && id <= text && AllIdChars(id)
    ensures Trim(tail[|id|..]) != "" && IsIdChar(Trim(tail[|id|..])[0])
  {
    assert text[0] == id[0];
    if |id| <= |before| {
      assert tail[|id|..] == before[|id|..] + text;
      TrimFirst(before[|id|..], text);
    } else {
      var k := |id| - |before|;
      assert tail[|id|..] == "" + text[k..];
      assert text[k] == id[k];
      TrimFirst("", text[k..]);
    }
  }

  /** The text left over after an exception begins, white space aside, inside the exception's name. */
  lemma WithLeavesText(table: seq<Info>, after: string, tail: string)
    requires SaneIds(table) && Trimmed(after) && NextToken(after) == "WITH" && |after| >= 4
    requires tail == after[4..] && Lookup(table, NextToken(tail)).Some? && |NextToken(tail)| <= |tail|
    ensures var rest := tail[|NextToken(tail)|..]; Trim(rest) != "" && IsIdChar(Trim(rest)[0])
  {
    var id, text := NextToken(tail), Trim(tail);
    TokenIsId(table, tail);
    WithTokenEnds(after);
    var before := TrimBefore(tail);
    assert text != "" && IsIdChar(text[0]);
    assert tail[0] == (before + text)[0] && !IsIdChar(tail[0]);
    assert id <= text;
    CutInName(tail, before, text, id);
  }

  lemma WithTokenEnds(after: string)
    requires Trimmed(after) && NextToken(after) == "WITH" && |after| > 4
    ensures !IsIdChar(after[4])
  {
    assert after[0] == "WITH"[0];
    assert IdPrefix(after) == "WITH";
  }

  lemma IdCharToken(sv: string)
    requires Trim(sv) != "" && IsIdChar(Trim(sv)[0])
    ensures NextToken(sv) != ")"
  {
    var s := Trim(sv);
    var token := IdPrefix(s);
    if token != "" { assert token[0] == s[0]; }
  }

  /** A parsed tree either has no `WITH` and is one that can be built, or leaves text behind that nothing
      can take up. */
  ghost predicate Shape(t: Tables, p: Parsed<Expr>) {
    if WithFree(p.value) then Buildable(t, p.value) else Trim(p.rest) != "" && IsIdChar(Trim(p.rest)[0])
  }

  lemma ParenShape(t: Tables, s: string)
    requires Trimmed(s) && NextToken(s) == "(" && s != "" && ParseExpr(t, s).Success?
    requires ParseExpr(t, s[1..]).Success? && Shape(t, ParseExpr(t, s[1..]).value)
    ensures Shape(t, ParseExpr(t, s).value)
  {
    var inner := ParseExpr(t, s[1..]).value;
    if !WithFree(inner.value) {
      IdCharToken(inner.rest);
    }
  }

  lemma OperatorShape(t: Tables, s: Simple, op: string, rhs: Parsed<Expr>)
    requires Nameable(t, s.license) && Shape(t, rhs)
    ensures Shape(t, Combine(op, s, Success(rhs)).value)
  {
    assert WithFree(Single(s)) && Buildable(t, Single(s));
  }

  lemma WithShape(t: Tables, s: Simple, tail: string)
    requires Trim(tail) != "" && IsIdChar(Trim(tail)[0])
    ensures forall exc :: Shape(t, Parsed(With(s, exc), tail))
  {}

  lemma {:induction false} ParsedShape(t: Tables, sv: string)
    requires Sane(t) && ParseExpr(t, sv).Success?
    ensures Shape(t, ParseExpr(t, sv).value)
    decreases |sv|
  {
    var s := Trim(sv);
    ParseTrimmed(t, sv);
    TrimShortens(sv);
    NonEmptyToken(s);
    if NextToken(s) == "(" {
      ParsedShape(t, s[1..]);
      ParenShape(t, s);
    } else {
      var simple := ParseSimple(t, s).value;
      TokenIsId(t.licenses, s);
      var after := Trim(simple.rest);
      TrimShortens(simple.rest);
      NonEmptyToken(after);
      var next := NextToken(after);
      if next == "OR" || next == "AND" {
        var tail := after[|next|..];
        StepOperator(t, s, simple.value, simple.rest, next, tail);
        ParsedShape(t, tail);
        OperatorShape(t, simple.value, next, ParseExpr(t, tail).value);
      } else if next == "WITH" {
        var tail := after[4..];
        NonEmptyToken(tail);
        WithLeavesText(t.exceptions, after, tail);
        WithShape(t, simple.value, tail[|NextToken(tail)|..]);
      }
    }
  }

  /** No accepted expression contains `WITH`: the name of the exception is never taken up completely. */
  lemma AcceptedHasNoWith(t: Tables, sv: string)
    requires Sane(t) && Parse(t, sv).Success?
    ensures WithFree(Parse(t, sv).value) && Buildable(t, Parse(t, sv).value)
  {
    ParsedShape(t, sv);
  }

  /** The parser fails on the text or reads an exception from it. */
  ghost predicate Fails(t: Tables, sv: string) {
    ParseExpr(t, sv).Success? ==> !WithFree(ParseExpr(t, sv).value.value)
  }

  lemma StepWith(t: Tables, text: string, s: Simple, rest: string)
    requires Trimmed(text) && NextToken(text) != "(" && ParseSimple(t, text) == Success(Parsed(s, rest))
    requires NextToken(rest) == "WITH"
    ensures Fails(t, text)
  {}

  lemma WithFails(t: Tables, s: Simple, op: string, tail: string)
    requires Nameable(t, s.license) && op == "WITH" && tail != "" && Trimmed(tail)
    ensures Fails(t, PrintSimple(s) + (" " + (op + (" " + tail))))
  {
    var after := op + (" " + tail);
    SimpleThenOperator(t, s, op, tail);
    StepWith(t, PrintSimple(s) + (" " + after), s, " " + after);
  }

  lemma BinaryFails(t: Tables, s: Simple, op: string, r: Expr, rest: string)
    requires Nameable(t, s.license) && (op == "AND" || op == "OR")
    requires Grammatical(t, r) && Closers(rest) && Fails(t, Print(r) + rest)
    ensures Fails(t, PrintSimple(s) + (if op == "OR" then " OR " else " AND ") + Print(r) + rest)
  {
    PrintedIsTrimmed(t, r, rest);
    Regroup(PrintSimple(s), op, Print(r), rest);
    OperatorComesBack(t, s, op, Print(r) + rest);
  }

  lemma ParenFails(t: Tables, inner: Expr, rest: string)
    requires Sane(t) && Grammatical(t, inner) && Closers(rest) && Fails(t, Print(inner) + (")" + rest))
    ensures Fails(t, "(" + Print(inner) + ")" + rest)
  {
    var tail := Print(inner) + (")" + rest);
    PrintedIsTrimmed(t, inner, ")" + rest);
    ParenRegroup(Print(inner), rest);
    ParenText(tail);
    if ParseExpr(t, tail).Success? {
      ParsedShape(t, tail);
      IdCharToken(ParseExpr(t, tail).value.rest);
    }
  }

  /** The printed form of a tree with an exception anywhere in it is not read back. */
  lemma {:induction false} ExceptionFails(t: Tables, e: Expr, rest: string)
    requires Sane(t) && Grammatical(t, e) && !WithFree(e) && Closers(rest)
    ensures Fails(t, Print(e) + rest)
  {
    match e
    case And(l, r) =>
      ExceptionFails(t, r, rest);
      BinaryFails(t, l.simple, "AND", r, rest);
    case Or(l, r) =>
      ExceptionFails(t, r, rest);
      BinaryFails(t, l.simple, "OR", r, rest);
    case Paren(inner) =>
      ExceptionFails(t, inner, ")" + rest);
      ParenFails(t, inner, rest);
    case With(s, exc) =>
      assert IsIdChar(exc.id[0]) && IsIdChar(exc.id[|exc.id| - 1]);
      WithRegroup(PrintSimple(s), exc.id, rest);
      WithFails(t, s, "WITH", exc.id + rest);
  }

  lemma WithRegroup(a: string, b: string, rest: string)
    ensures a + " WITH " + b + rest == a + (" " + ("WITH" + (" " + (b + rest))))
  {
    assert " WITH " == " " + "WITH" + " ";
    Associate(a + " WITH ", b, rest);
    Associate(a, " WITH ", b + rest);
    Associate(" " + "WITH", " ", b + rest);
    Associate(" ", "WITH", " " + (b + rest));
  }

  /** Printing and then parsing gives the same tree if and only if the parser can build it at all. */
  lemma PrintsBackExactly(t: Tables, e: Expr)
    requires Sane(t)
    ensures Parse(t, Print(e)) == Success(e) <==> Buildable(t, e)
  {
    if Buildable(t, e) {
      PrintThenParse(t, e);
    } else if Parse(t, Print(e)) == Success(e) {
      AcceptedHasNoWith(t, Print(e));
    }
  }

  /** Of the trees of the grammar, the printed form is accepted if and only if no exception is in it. */
  lemma AcceptedExactlyWithout(t: Tables, e: Expr)
    requires Sane(t) && Grammatical(t, e)
    ensures Parse(t, Print(e)).Success? <==> WithFree(e)
  {
    if WithFree(e) {
      PrintThenParse(t, e);
    } else {
      ExceptionFails(t, e, "");
      NothingAfter(Print(e));
      if Parse(t, Print(e)).Success? {
        AcceptedHasNoWith(t, Print(e));
      }
    }
  }

  // -- Nothing is lost -------------------------------------------------------------------------

  ghost predicate PlusNext(rest: string) {
    Trim(rest) != "" && Trim(rest)[0] == '+'
  }

  lemma {:induction false} NoSpaceOfId(id: string)
    requires AllIdChars(id)
    ensures NoSpace(id) == id
  {
    if id != "" {
      NoSpaceOfId(id[1..]);
      HeadTail(id);
    }
  }

  lemma PlusTaken(rest: string)
    requires rest != "" && PlusNext(rest) && !PlusNext(rest[1..])
    ensures rest[0] == '+' && NoSpace(rest) == "+" + NoSpace(rest[1..])
  {
    if !IsSpace(rest[0]) {
      TrimKeeps(rest, 0);
    }
  }

  lemma PlusTokenNext(rest: string)
    requires NextToken(rest) == "+"
    ensures PlusNext(rest)
  {
    assert Trim(rest)[..1] == "+";
  }

  lemma SimpleKeepsText(t: Tables, s: string)
    requires Sane(t) && Trimmed(s) && ParseSimple(t, s).Success?
    requires !PlusNext(ParseSimple(t, s).value.rest)
    ensures var p := ParseSimple(t, s).value; NoSpace(s) == NoSpace(PrintSimple(p.value)) + NoSpace(p.rest)
  {
    var p := ParseSimple(t, s).value;
    TokenIsId(t.licenses, s);
    var id := NextToken(s);
    var rest := s[|id|..];
    assert s == id + rest;
    NoSpaceConcat(id, rest);
    NoSpaceOfId(id);
    if NextToken(rest) == "+" {
      NonEmptyToken(rest);
      PlusTokenNext(rest);
      PlusTaken(rest);
      NoSpaceConcat(id, "+");
      assert NoSpace("+") == "+";
      Associate(id, "+", NoSpace(p.rest));
    }
  }

  lemma NoSpaceOfBinary(a: string, op: string, b: string)
    requires op == "AND" || op == "OR"
    ensures NoSpace(a + (if op == "OR" then " OR " else " AND ") + b) == NoSpace(a) + op + NoSpace(b)
  {
    var mid := if op == "OR" then " OR " else " AND ";
    assert mid == " " + (op + " ");
    NoSpaceConcat(a + mid, b);
    NoSpaceConcat(a, mid);
    NoSpaceConcat(" ", op + " ");
    NoSpaceConcat(op, " ");
    NoSpaceOfId(op);
    NoSpaceOfSpace(" ");
    assert "" + (op + "") == op;
  }

  lemma NoSpaceOfParen(a: string)
    ensures NoSpace("(" + a + ")") == "(" + NoSpace(a) + ")"
  {
    NoSpaceConcat("(" + a, ")");
    NoSpaceConcat("(", a);
    assert NoSpace("(") == "(" && NoSpace(")") == ")";
  }

  /** The text, white space aside, is that of the tree followed by that of the remainder. */
  ghost predicate KeepsText(sv: string, p: Parsed<Expr>) {
    NoSpace(sv) == NoSpace(Print(p.value)) + NoSpace(p.rest)
  }

  lemma OperatorKeepsText(s: string, simple: Simple, rest: string, op: string, tail: string, rhs: Parsed<Expr>)
    requires op == "AND" || op == "OR"
    requires NoSpace(s) == NoSpace(PrintSimple(simple)) + NoSpace(rest)
    requires |op| <= |Trim(rest)| && Trim(rest)[..|op|] == op && Trim(rest)[|op|..] == tail
    requires KeepsText(tail, rhs)
    ensures KeepsText(s, Combine(op, simple, Success(rhs)).value)
  {
    OperatorNoSpace(rest, op, tail);
    NoSpaceOfBinary(PrintSimple(simple), op, Print(rhs.value));
    Regroup4(NoSpace(PrintSimple(simple)), op, NoSpace(Print(rhs.value)), NoSpace(rhs.rest));
  }

  lemma OperatorNoSpace(rest: string, op: string, tail: string)
    requires op == "AND" || op == "OR"
    requires |op| <= |Trim(rest)| && Trim(rest)[..|op|] == op && Trim(rest)[|op|..] == tail
    ensures NoSpace(rest) == op + NoSpace(tail)
  {
    assert Trim(rest) == op + tail;
    NoSpaceTrim(rest);
    NoSpaceConcat(op, tail);
    NoSpaceOfId(op);
  }

  lemma Regroup4(a: string, b: string, c: string, d: string)
    ensures a + (b + (c + d)) == a + b + c + d
  {
    Associate(a, b, c + d);
    Associate(a + b, c, d);
  }

  lemma ParenKeepsText(s: string, inner: Parsed<Expr>)
    requires s != "" && s[0] == '(' && KeepsText(s[1..], inner)
    requires Trim(inner.rest) != "" && Trim(inner.rest)[0] == ')'
    ensures KeepsText(s, Parsed(Paren(inner.value), Trim(inner.rest)[1..]))
  {
    var after := Trim(inner.rest);
    NoSpaceHead(s);
    NoSpaceHead(after);
    NoSpaceTrim(inner.rest);
    NoSpaceOfParen(Print(inner.value));
    Regroup4("(", NoSpace(Print(inner.value)), ")", NoSpace(after[1..]));
  }

  lemma NoSpaceHead(s: string)
    requires s != "" && !IsSpace(s[0])
    ensures NoSpace(s) == [s[0]] + NoSpace(s[1..])
  {
    HeadTail(s);
  }

  lemma TokenStarts(sv: string, token: string)
    requires NextToken(sv) == token
    ensures |token| <= |Trim(sv)| && Trim(sv)[..|token|] == token
    ensures token != "" ==> Trim(sv)[0] == token[0]
  {}

  lemma {:induction false} ParsedKeepsText(t: Tables, sv: string)
    requires Sane(t) && ParseExpr(t, sv).Success? && WithFree(ParseExpr(t, sv).value.value)
    requires !PlusNext(ParseExpr(t, sv).value.rest)
    ensures KeepsText(sv, ParseExpr(t, sv).value)
    decreases |sv|
  {
    var s := Trim(sv);
    ParseTrimmed(t, sv);
    NoSpaceTrim(sv);
    TrimShortens(sv);
    NonEmptyToken(s);
    if NextToken(s) == "(" {
      var inner := ParseExpr(t, s[1..]).value;
      TokenStarts(s, "(");
      TokenStarts(Trim(inner.rest), ")");
      assert ParseExpr(t, s).value.value == Paren(inner.value);
      ParsedKeepsText(t, s[1..]);
      ParenKeepsText(s, inner);
    } else {
      var simple := ParseSimple(t, s).value;
      var after := Trim(simple.rest);
      TrimShortens(simple.rest);
      NonEmptyToken(after);
      var next := NextToken(after);
      TokenStarts(after, next);
      if next == "OR" || next == "AND" {
        SimpleKeepsText(t, s);
        var tail := after[|next|..];
        StepOperator(t, s, simple.value, simple.rest, next, tail);
        ParsedKeepsText(t, tail);
        OperatorKeepsText(s, simple.value, simple.rest, next, tail, ParseExpr(t, tail).value);
      } else if next != "WITH" {
        StepSingle(t, s, simple.value, simple.rest);
        SimpleKeepsText(t, s);
        NoSpaceTrim(simple.rest);
      }
    }
  }

  /** An accepted expression is the text of its tree up to white space, and that text parses to the same
      tree again. */
  lemma AcceptedIsPrinted(t: Tables, sv: string)
    requires Sane(t) && Parse(t, sv).Success?
    ensures var e := Parse(t, sv).value;
      Parse(t, Print(e)) == Success(e) && NoSpace(Print(e)) == NoSpace(sv)
  {
    var p := ParseExpr(t, sv).value;
    AcceptedHasNoWith(t, sv);
    PrintThenParse(t, p.value);
    ParsedKeepsText(t, sv);
    NoSpaceTrim(p.rest);
    assert NoSpace(Print(p.value)) + "" == NoSpace(Print(p.value));
  }

  /** The accepted texts are, up to white space, exactly the printed forms of the trees that can be built. */
  lemma AcceptedTexts(t: Tables, text: string)
    requires Sane(t)
    ensures (exists sv :: Parse(t, sv).Success? && NoSpace(sv) == text)
       <==> (exists e :: Buildable(t, e) && NoSpace(Print(e)) == text)
  {
    if sv :| Parse(t, sv).Success? && NoSpace(sv) == text {
      AcceptedIsPrinted(t, sv);
      AcceptedHasNoWith(t, sv);
    }
    if e :| Buildable(t, e) && NoSpace(Print(e)) == text {
      PrintThenParse(t, e);
    }
  }
}
