/** SPDX licence expressions: the tokenizer, the recursive-descent parser and the printer. */
module Spdx {
  import opened Wrappers
  import opened Text

  datatype Info = Info(id: string, name: string)

  datatype Tables = Tables(licenses: seq<Info>, exceptions: seq<Info>)

  datatype Simple = JustLicense(license: Info) | LicensePlus(license: Info)

  datatype Expr =
    | Single(simple: Simple)
    | And(left: Expr, right: Expr)
    | Or(left: Expr, right: Expr)
    | Paren(inner: Expr)
    | With(simple: Simple, exc: Info)

  datatype SpdxError = NoSuchLicense(id: string) | NoSuchException(id: string) | MissingParen | Trailing(text: string)

  // -- Looking up an identifier ----------------------------------------------------------------

  function Lookup(table: seq<Info>, id: string): (r: Option<Info>)
    ensures r.Some? ==> r.value.id == id && r.value in table
  {
    if table == [] then None
    else if table[0].id == id then Some(table[0])
    else Lookup(table[1..], id)
  }

  ghost predicate SortedTable(table: seq<Info>) {
    forall i, j | 0 <= i < j < |table| :: Less(table[i].id, table[j].id)
  }

  lemma {:induction false} LookupAt(table: seq<Info>, id: string, at: nat)
    requires SortedTable(table) && at < |table| && table[at].id == id
    ensures Lookup(table, id) == Some(table[at])
  {
    if at > 0 {
      LessIsStrict(table[0].id, table[at].id);
      LookupAt(table[1..], id, at - 1);
    }
  }

  lemma {:induction false} LookupNone(table: seq<Info>, id: string)
    requires forall i | 0 <= i < |table| :: table[i].id != id
    ensures Lookup(table, id) == None
  {
    if table != [] {
      LookupNone(table[1..], id);
    }
  }

  /** The binary search finds an identifier exactly when the sorted table has it. */
  method FindWithId(table: seq<Info>, id: string) returns (r: Option<Info>)
    requires SortedTable(table)
    ensures r == Lookup(table, id)
  {
    var first, count := 0, |table|;
    while count > 0
      invariant 0 <= first && 0 <= count && first + count <= |table|
      invariant forall i | 0 <= i < first :: Less(table[i].id, id)
      invariant forall i | first + count <= i < |table| :: !Less(table[i].id, id)
    {
      var step := count / 2;
      var it := first + step;
      if Less(table[it].id, id) {
        forall i | 0 <= i < it ensures Less(table[i].id, id) {
          LessTransitive(table[i].id, table[it].id, id);
        }
        first, count := it + 1, count - (step + 1);
      } else {
        forall i | it < i < |table| ensures !Less(table[i].id, id) {
          if Less(table[i].id, id) { LessTransitive(table[it].id, table[i].id, id); }
        }
        count := step;
      }
    }
    forall i | 0 <= i < |table| && i != first ensures table[i].id != id {
      LessIsStrict(table[i].id, id);
      if i > first {
        LessIsStrict(table[first].id, table[i].id);
      }
    }
    if first == |table| || table[first].id != id {
      LookupNone(table, id);
      return None;
    }
    LookupAt(table, id, first);
    return Some(table[first]);
  }

  // -- Tokens ----------------------------------------------------------------------------------

  predicate IsIdChar(c: char) {
    'a' <= c <= 'z' || 'A' <= c <= 'Z' || '0' <= c <= '9' || c == '-' || c == '.'
  }

  predicate AllIdChars(s: string) {
    forall i | 0 <= i < |s| :: IsIdChar(s[i])
  }

  function IdPrefix(s: string): (t: string)
    ensures |t| <= |s| && t == s[..|t|] && AllIdChars(t)
    ensures |t| < |s| ==> !IsIdChar(s[|t|])
  {
    if s == "" || !IsIdChar(s[0]) then ""
    else
      var rest := IdPrefix(s[1..]);
      assert [s[0]] + rest == s[..|rest| + 1];
      [s[0]] + rest
  }

  predicate IsSymbol(c: char) {
    c == '(' || c == ')' || c == '+'
  }

  function TokenOf(s: string): (t: string)
    requires Trimmed(s)
    ensures |t| <= |s| && t == s[..|t|]
  {
    if s == "" then ""
    else if IsSymbol(s[0]) then s[..1]
    else IdPrefix(s)
  }

  function NextToken(sv: string): (t: string) {
    TokenOf(Trim(sv))
  }

  method NextTokenOf(sv: string) returns (t: string)
    ensures t == NextToken(sv)
  {
    var s := TrimView(sv);
    if s == "" {
      return s;
    }
    if IsSymbol(s[0]) {
      return s[..1];
    }
    var it := 0;
    while it != |s| && IsIdChar(s[it])
      invariant 0 <= it <= |s| && AllIdChars(s[..it])
    {
      it := it + 1;
    }
    IdPrefixIs(s, it);
    return s[..it];
  }

  lemma {:induction false} IdPrefixIs(s: string, n: nat)
    requires n <= |s| && AllIdChars(s[..n]) && (n < |s| ==> !IsIdChar(s[n]))
    ensures IdPrefix(s) == s[..n]
  {
    if n > 0 {
      assert IsIdChar(s[..n][0]);
      assert s[..n][1..] == s[1..][..n - 1];
      IdPrefixIs(s[1..], n - 1);
      assert s[..n] == [s[0]] + s[1..][..n - 1];
    }
  }

  // -- The parser ------------------------------------------------------------------------------

  datatype Parsed<T> = Parsed(value: T, rest: string)

  function ParseSimple(t: Tables, sv: string): (r: Result<Parsed<Simple>, SpdxError>)
    ensures r.Success? ==> |r.value.rest| <= |sv|
  {
    var s := Trim(sv);
    var tok := NextToken(s);
    match Lookup(t.licenses, tok)
    case None => Failure(NoSuchLicense(tok))
    case Some(license) =>
      TrimShortens(sv);
      var rest := s[|tok|..];
      if NextToken(rest) == "+" then
        NonEmptyToken(rest);
        Success(Parsed(LicensePlus(license), rest[1..]))
      else Success(Parsed(JustLicense(license), rest))
  }

  lemma NonEmptyToken(sv: string)
    ensures NextToken(sv) != "" ==> |sv| >= |NextToken(sv)|
  {
    TrimShortens(sv);
  }

  function ParseExpr(t: Tables, sv: string): (r: Result<Parsed<Expr>, SpdxError>)
    ensures r.Success? ==> |r.value.rest| <= |sv|
    decreases |sv|
  {
    var s := Trim(sv);
    TrimShortens(sv);
    NonEmptyToken(s);
    if NextToken(s) == "(" then
      match ParseExpr(t, s[1..])
      case Failure(e) => Failure(e)
      case Success(inner) =>
        var after := Trim(inner.rest);
        TrimShortens(inner.rest);
        NonEmptyToken(after);
        if NextToken(after) != ")" then Failure(MissingParen)
        else Success(Parsed(Paren(inner.value), after[1..]))
    else
      match ParseSimple(t, s)
      case Failure(e) => Failure(e)
      case Success(simple) =>
        var after := Trim(simple.rest);
        TrimShortens(simple.rest);
        NonEmptyToken(after);
        var next := NextToken(after);
        if next == "OR" then
          match ParseExpr(t, after[2..])
          case Failure(e) => Failure(e)
          case Success(rhs) => Success(Parsed(Or(Single(simple.value), rhs.value), rhs.rest))
        else if next == "AND" then
          match ParseExpr(t, after[3..])
          case Failure(e) => Failure(e)
          case Success(rhs) => Success(Parsed(And(Single(simple.value), rhs.value), rhs.rest))
        else if next == "WITH" then
          var tail := after[4..];
          var id := NextToken(tail);
          match Lookup(t.exceptions, id)
          case None => Failure(NoSuchException(id))
          case Some(exc) =>
            NonEmptyToken(tail);
            Success(Parsed(With(simple.value, exc), tail[|id|..]))
        else Success(Parsed(Single(simple.value), after))
  }

  /** The whole string must be used up. */
  function Parse(t: Tables, sv: string): Result<Expr, SpdxError> {
    match ParseExpr(t, sv)
    case Failure(e) => Failure(e)
    case Success(p) => if Trim(p.rest) != "" then Failure(Trailing(p.rest)) else Success(p.value)
  }

  /** The view of the input that the parsing functions share and shorten. */
  class Cursor {
    var sv: string

    constructor (text: string)
      ensures sv == text
    {
      sv := text;
    }

    method ReadSimple(t: Tables) returns (r: Result<Simple, SpdxError>)
      requires SortedTable(t.licenses)
      modifies this
      ensures r.Success? <==> ParseSimple(t, old(sv)).Success?
      ensures r.Success? ==> ParseSimple(t, old(sv)) == Success(Parsed(r.value, sv))
      ensures r.Failure? ==> ParseSimple(t, old(sv)) == Failure(r.error)
    {
      sv := TrimView(sv);
      var tok := NextTokenOf(sv);
      var license := FindWithId(t.licenses, tok);
      if license.None? {
        return Failure(NoSuchLicense(tok));
      }
      sv := sv[|tok|..];
      tok := NextTokenOf(sv);
      if tok == "+" {
        NonEmptyToken(sv);
        sv := sv[1..];
        return Success(LicensePlus(license.value));
      } else {
        return Success(JustLicense(license.value));
      }
    }

    method ReadExpr(t: Tables) returns (r: Result<Expr, SpdxError>)
      requires SortedTable(t.licenses) && SortedTable(t.exceptions)
      modifies this
      ensures r.Success? <==> ParseExpr(t, old(sv)).Success?
      ensures r.Success? ==> ParseExpr(t, old(sv)) == Success(Parsed(r.value, sv))
      ensures r.Failure? ==> ParseExpr(t, old(sv)) == Failure(r.error)
      decreases |sv|
    {
      TrimShortens(sv);
      sv := TrimView(sv);
      var tok := NextTokenOf(sv);
      NonEmptyToken(sv);
      if tok == "(" {
        sv := sv[1..];
        r := ReadExpr(t);
        if r.Failure? {
          return;
        }
        sv := TrimView(sv);
        tok := NextTokenOf(sv);
        NonEmptyToken(sv);
        if tok != ")" {
          return Failure(MissingParen);
        }
        sv := sv[1..];
        return Success(Paren(r.value));
      }
      var simple := ReadSimple(t);
      if simple.Failure? {
        return Failure(simple.error);
      }
      TrimShortens(sv);
      sv := TrimView(sv);
      var next := NextTokenOf(sv);
      NonEmptyToken(sv);
      if next == "OR" {
        sv := sv[2..];
        r := ReadExpr(t);
        if r.Success? {
          r := Success(Or(Single(simple.value), r.value));
        }
      } else if next == "AND" {
        sv := sv[3..];
        r := ReadExpr(t);
        if r.Success? {
          r := Success(And(Single(simple.value), r.value));
        }
      } else if next == "WITH" {
        sv := sv[4..];
        var id := NextTokenOf(sv);
        var exc := FindWithId(t.exceptions, id);
        if exc.None? {
          return Failure(NoSuchException(id));
        }
        NonEmptyToken(sv);
        sv := sv[|id|..];
        return Success(With(simple.value, exc.value));
      } else {
        return Success(Single(simple.value));
      }
    }
  }

  method ParseExpression(t: Tables, sv: string) returns (r: Result<Expr, SpdxError>)
    requires SortedTable(t.licenses) && SortedTable(t.exceptions)
    ensures r == Parse(t, sv)
  {
    var cursor := new Cursor(sv);
    r := cursor.ReadExpr(t);
    if r.Failure? {
      return;
    }
    var remainder := TrimView(cursor.sv);
    if remainder != "" {
      return Failure(Trailing(cursor.sv));
    }
  }

  // -- The printer -----------------------------------------------------------------------------

  function PrintSimple(s: Simple): string {
    match s
    case JustLicense(l) => l.id
    case LicensePlus(l) => l.id + "+"
  }

  function Print(e: Expr): string {
    match e
    case Single(s) => PrintSimple(s)
    case And(l, r) => Print(l) + " AND " + Print(r)
    case Or(l, r) => Print(l) + " OR " + Print(r)
    case Paren(inner) => "(" + Print(inner) + ")"
    case With(s, exc) => PrintSimple(s) + " WITH " + exc.id
  }
}
