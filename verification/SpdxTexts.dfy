/** What the small expressions mean, written out. */
module SpdxTexts {
  import opened Sequences
  import opened Wrappers
  import opened Text
  import opened Spdx
  import opened SpdxRoundTrip

  /** Letters, digits, `-` and `.`. */
  predicate IsIdentifier(id: string) {
    id != "" && forall c | c in id :: 'a' <= c <= 'z' || 'A' <= c <= 'Z' || '0' <= c <= '9' || c == '-' || c == '.'
  }

  /** The first licence of the table with that identifier. */
  ghost predicate Names(table: seq<Info>, id: string, info: Info) {
    exists i ::
      0 <= i < |table| && table[i] == info && info.id == id && forall j | 0 <= j < i :: table[j].id != id
  }

  lemma {:induction false} NamedIsFound(table: seq<Info>, id: string, info: Info)
    requires Names(table, id, info)
    ensures Lookup(table, id) == Some(info)
  {
    var i :| 0 <= i < |table| && table[i] == info && info.id == id && forall j | 0 <= j < i :: table[j].id != id;
    if i > 0 {
      assert table[0].id != id;
      assert table[1..][i - 1] == info && forall j | 0 <= j < i - 1 :: table[1..][j].id != id;
      NamedIsFound(table[1..], id, info);
    }
  }

  lemma {:induction false} UnnamedIsNotFound(table: seq<Info>, id: string)
    requires forall info | info in table :: info.id != id
    ensures Lookup(table, id) == None
  {
    if table != [] {
      UnnamedIsNotFound(table[1..], id);
    }
  }

  lemma IdentifierIsNameable(t: Tables, id: string, info: Info)
    requires IsIdentifier(id) && Names(t.licenses, id, info)
    ensures Nameable(t, info) && info.id == id
  {
    NamedIsFound(t.licenses, id, info);
    IdentifierChars(id);
  }

  lemma IdentifierChars(id: string)
    requires IsIdentifier(id)
    ensures AllIdChars(id)
  {
    forall i | 0 <= i < |id| ensures IsIdChar(id[i]) {
      assert id[i] in id;
    }
  }

  /** Every identifier in the table is an expression. */
  lemma LicenceText(t: Tables, id: string, info: Info)
    requires IsIdentifier(id) && Names(t.licenses, id, info)
    ensures Parse(t, id) == Success(Single(JustLicense(info)))
    ensures Parse(t, id + "+") == Success(Single(LicensePlus(info)))
    ensures Parse(t, "(" + id + ")") == Success(Paren(Single(JustLicense(info))))
  {
    IdentifierIsNameable(t, id, info);
    PrintThenParse(t, Single(JustLicense(info)));
    PrintThenParse(t, Single(LicensePlus(info)));
    PrintThenParse(t, Paren(Single(JustLicense(info))));
  }

  /** Two licences, joined. */
  lemma JoinedText(t: Tables, a: string, left: Info, b: string, right: Info)
    requires IsIdentifier(a) && Names(t.licenses, a, left) && IsIdentifier(b) && Names(t.licenses, b, right)
    ensures Parse(t, a + " AND " + b) == Success(And(Single(JustLicense(left)), Single(JustLicense(right))))
    ensures Parse(t, a + " OR " + b) == Success(Or(Single(JustLicense(left)), Single(JustLicense(right))))
  {
    IdentifierIsNameable(t, a, left);
    IdentifierIsNameable(t, b, right);
    PrintThenParse(t, And(Single(JustLicense(left)), Single(JustLicense(right))));
    PrintThenParse(t, Or(Single(JustLicense(left)), Single(JustLicense(right))));
  }

  /** Neither operator binds tighter: the right side is taken as a whole. */
  lemma ChainText(t: Tables, a: string, first: Info, rest: string, e: Expr)
    requires Sane(t) && IsIdentifier(a) && Names(t.licenses, a, first)
    requires Buildable(t, e) && rest == Print(e)
    ensures Parse(t, a + " AND " + rest) == Success(And(Single(JustLicense(first)), e))
    ensures Parse(t, a + " OR " + rest) == Success(Or(Single(JustLicense(first)), e))
  {
    IdentifierIsNameable(t, a, first);
    PrintThenParse(t, And(Single(JustLicense(first)), e));
    PrintThenParse(t, Or(Single(JustLicense(first)), e));
  }

  /** No exception is accepted, whatever its name. */
  lemma ExceptionText(t: Tables, id: string, info: Info, name: string)
    requires Sane(t) && IsIdentifier(id) && Names(t.licenses, id, info) && IsIdentifier(name)
    ensures Parse(t, id + " WITH " + name).Failure?
  {
    IdentifierIsNameable(t, id, info);
    IdentifierChars(name);
    AcceptedExactlyWithout(t, With(JustLicense(info), Info(name, "")));
  }

  lemma IdentifierIsTrimmed(id: string)
    requires IsIdentifier(id)
    ensures Trimmed(id) && NextToken(id) == id && id != "(" && id[0] != '(' && Trim(id) == id
  {
    IdentifierChars(id);
    assert IsIdChar(id[0]) && IsIdChar(id[|id| - 1]);
    NothingAfter(id);
    IdIsToken(id, "");
  }

  /** An identifier that is in no table is reported. */
  lemma UnknownText(t: Tables, id: string)
    requires IsIdentifier(id) && forall info | info in t.licenses :: info.id != id
    ensures Parse(t, id) == Failure(NoSuchLicense(id))
  {
    UnnamedIsNotFound(t.licenses, id);
    IdentifierIsTrimmed(id);
  }

  lemma SpaceChars(s: string)
    requires forall c | c in s :: c in " \t\n\r\U{B}\U{C}"
    ensures AllSpace(s)
  {
    forall i | 0 <= i < |s| ensures IsSpace(s[i]) {
      assert s[i] in s;
    }
  }

  /** White space around an expression does not matter, of whichever of the six kinds it is. */
  lemma SpacedText(t: Tables, before: string, e: Expr, after: string)
    requires Buildable(t, e)
    requires forall c | c in before || c in after :: c in " \t\n\r\U{B}\U{C}"
    ensures Parse(t, before + Print(e) + after) == Success(e)
  {
    SpaceChars(before);
    SpaceChars(after);
    PrintedIsTrimmed(t, e, "");
    NothingAfter(Print(e));
    TrimAround(before, Print(e), after);
    SameAsTrimmed(t, before + Print(e) + after, Print(e));
    PrintThenParse(t, e);
  }

  /** White space about an operator does not matter, whatever follows it. */
  lemma SpacedOperator(t: Tables, id: string, info: Info, gap: string, op: string, more: string, tail: string)
    requires IsIdentifier(id) && Names(t.licenses, id, info) && (op == "AND" || op == "OR")
    requires gap != "" && more != "" && tail != "" && Trimmed(tail)
    requires forall c | c in gap || c in more :: c in " \t\n\r\U{B}\U{C}"
    ensures ParseExpr(t, id + (gap + (op + (more + tail)))) == Combine(op, JustLicense(info), ParseExpr(t, tail))
  {
    var after, s := op + (more + tail), JustLicense(info);
    IdentifierIsNameable(t, id, info);
    SpaceChars(gap);
    SpaceChars(more);
    TrimAround(more, tail, "");
    NothingAfter(more + tail);
    assert IsIdChar(op[0]) && after[0] == op[0] && after[|after| - 1] == tail[|tail| - 1];
    assert IsSpace(more[0]) && !IsIdChar(more[0]) && (more + tail)[0] == more[0];
    IdIsToken(op, more + tail);
    TrimAround(gap, after, "");
    NothingAfter(gap + after);
    assert IsSpace(gap[0]) && !IsIdChar(gap[0]) && (gap + after)[0] == gap[0];
    SimpleText(t, s, gap + after);
    OperatorIsNoPlus(op);
    SimpleComesBack(t, s, gap + after);
    StepOperator(t, id + (gap + after), s, gap + after, op, more + tail);
    ParseTrimmed(t, more + tail);
  }

  /** A plus after a space is recognized, but the space is taken in its place and the plus is left over. */
  lemma SpacedPlusFails(t: Tables, id: string, info: Info)
    requires IsIdentifier(id) && Names(t.licenses, id, info)
    ensures Parse(t, id + " +") == Failure(Trailing("+"))
  {
    var text := id + " +";
    IdentifierIsNameable(t, id, info);
    IdentifierChars(id);
    assert IsIdChar(id[0]) && text[0] == id[0];
    StartsWithId(text);
    IdIsToken(id, " +");
    assert text[|id|..] == " +";
    TrimSpaceBefore("+");
    assert " " + "+" == " +";
    SymbolIsToken('+', "");
    assert ['+'] + "" == "+" && " +"[1..] == "+";
    StepSingle(t, text, LicensePlus(info), "+");
  }

  lemma SameAsTrimmed(t: Tables, sv: string, s: string)
    requires Trim(sv) == s && Trim(s) == s
    ensures Parse(t, sv) == Parse(t, s)
  {
    ParseTrimmed(t, sv);
    ParseTrimmed(t, s);
  }

  /** A parenthesis that is not closed. */
  lemma UnclosedText(t: Tables, id: string, info: Info)
    requires IsIdentifier(id) && Names(t.licenses, id, info)
    ensures Parse(t, "(" + id) == Failure(MissingParen)
  {
    IdentifierIsNameable(t, id, info);
    IdentifierIsTrimmed(id);
    ComesBack(t, Single(JustLicense(info)), "");
    NothingAfter(id);
    IdentifierChars(id);
    assert IsIdChar(id[|id| - 1]);
    ParenText(id);
  }

  /** Two licences with nothing between them: the second one is left over. */
  lemma LeftOverText(t: Tables, a: string, info: Info, b: string)
    requires IsIdentifier(a) && Names(t.licenses, a, info)
    requires IsIdentifier(b) && b != "AND" && b != "OR" && b != "WITH"
    ensures Parse(t, a + (" " + b)) == Failure(Trailing(b))
  {
    var s, rest := JustLicense(info), " " + b;
    IdentifierIsNameable(t, a, info);
    IdentifierIsTrimmed(b);
    TrimSpaceBefore(b);
    IdentifierChars(b);
    assert IsIdChar(b[|b| - 1]) && IsIdChar(b[0]);
    ConsTail(' ', b);
    SimpleText(t, s, rest);
    OperatorIsNoPlus(b);
    SimpleComesBack(t, s, rest);
    StepSingle(t, a + rest, s, rest);
  }
}
