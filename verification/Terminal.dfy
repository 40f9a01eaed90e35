/** A terminal that understands the SGR control function of ECMA-48 (section 8.3.117), with the common
    extension 90-97 and 100-107 for bright colours. */
module Terminal {

  datatype Ink = Default | Basic(n: nat) | Bright(n: nat)

  datatype Underline = Plain | Single | Double

  datatype Rendition = Rendition(fg: Ink, bg: Ink, bold: bool, faint: bool, italic: bool,
                                 underline: Underline, reverse: bool, strike: bool)

  const RESET := Rendition(Default, Default, false, false, false, Plain, false, false)

  /** One SGR parameter.  22 ends both bold and faint; parameters outside the model change nothing. */
  function Sgr(r: Rendition, code: nat): Rendition {
    if code == 0 then RESET
    else if code == 1 then r.(bold := true)
    else if code == 2 then r.(faint := true)
    else if code == 3 then r.(italic := true)
    else if code == 4 then r.(underline := Single)
    else if code == 7 then r.(reverse := true)
    else if code == 9 then r.(strike := true)
    else if code == 21 then r.(underline := Double)
    else if code == 22 then r.(bold := false, faint := false)
    else if code == 23 then r.(italic := false)
    else if code == 24 then r.(underline := Plain)
    else if code == 27 then r.(reverse := false)
    else if code == 29 then r.(strike := false)
    else if 30 <= code <= 37 then r.(fg := Basic(code - 30))
    else if code == 39 then r.(fg := Default)
    else if 40 <= code <= 47 then r.(bg := Basic(code - 40))
    else if code == 49 then r.(bg := Default)
    else if 90 <= code <= 97 then r.(fg := Bright(code - 90))
    else if 100 <= code <= 107 then r.(bg := Bright(code - 100))
    else r
  }

  function SgrAll(r: Rendition, codes: seq<nat>): Rendition
    decreases |codes|
  {
    if codes == [] then r else SgrAll(Sgr(r, codes[0]), codes[1..])
  }

  datatype Cell = Cell(c: char, look: Rendition)

  datatype Mode = Text | Escape | Params(done: seq<nat>, cur: nat)

  datatype Screen = Screen(look: Rendition, mode: Mode, cells: seq<Cell>)

  const ESC: char := '\U{1B}'

  predicate IsDigit(c: char) {
    '0' <= c <= '9'
  }

  function DigitValue(c: char): nat
    requires IsDigit(c)
  {
    c as nat - '0' as nat
  }

  /** One character of output. */
  function Feed(s: Screen, c: char): Screen {
    match s.mode
    case Text =>
      if c == ESC then s.(mode := Escape) else s.(cells := s.cells + [Cell(c, s.look)])
    case Escape =>
      if c == '[' then s.(mode := Params([], 0)) else s.(mode := Text)
    case Params(done, cur) =>
      if IsDigit(c) then s.(mode := Params(done, 10 * cur + DigitValue(c)))
      else if c == ';' then s.(mode := Params(done + [cur], 0))
      else if c == 'm' then s.(mode := Text, look := SgrAll(s.look, done + [cur]))
      else s.(mode := Text)
  }

  function FeedAll(s: Screen, text: string): Screen
    decreases |text|
  {
    if text == "" then s else FeedAll(Feed(s, text[0]), text[1..])
  }

  lemma {:induction false} FeedConcat(s: Screen, a: string, b: string)
    ensures FeedAll(s, a + b) == FeedAll(FeedAll(s, a), b)
    decreases |a|
  {
    if a == "" {
      assert a + b == b;
    } else {
      assert (a + b)[1..] == a[1..] + b;
      FeedConcat(Feed(s, a[0]), a[1..], b);
    }
  }

  /** Plain text as it is shown in one look. */
  function Cells(text: string, look: Rendition): seq<Cell> {
    if text == "" then [] else [Cell(text[0], look)] + Cells(text[1..], look)
  }

  lemma {:induction false} FeedText(s: Screen, text: string)
    requires s.mode.Text? && ESC !in text
    ensures FeedAll(s, text) == s.(cells := s.cells + Cells(text, s.look))
    decreases |text|
  {
    if text == "" {
      assert s.cells + [] == s.cells;
    } else {
      FeedText(Feed(s, text[0]), text[1..]);
      assert s.cells + [Cell(text[0], s.look)] + Cells(text[1..], s.look) == s.cells + Cells(text, s.look);
    }
  }

  // -- Spelling a sequence ---------------------------------------------------------------------

  function Digit(n: nat): char
    requires n < 10
  {
    ('0' as nat + n) as char
  }

  function Decimal(n: nat): (text: string)
    ensures text != ""
  {
    if n < 10 then [Digit(n)] else Decimal(n / 10) + [Digit(n % 10)]
  }

  /** The codes in decimal, separated by semicolons. */
  function Spell(codes: seq<nat>): string {
    if codes == [] then ""
    else if |codes| == 1 then Decimal(codes[0])
    else Spell(codes[..|codes| - 1]) + ";" + Decimal(codes[|codes| - 1])
  }

  function Sequence(codes: seq<nat>): string {
    [ESC, '['] + Spell(codes) + "m"
  }

  lemma {:induction false} FeedDecimal(s: Screen, n: nat)
    requires s.mode.Params? && s.mode.cur == 0
    ensures FeedAll(s, Decimal(n)) == s.(mode := Params(s.mode.done, n))
  {
    if n < 10 {
      assert [Digit(n)][1..] == "";
    } else {
      FeedDecimal(s, n / 10);
      FeedConcat(s, Decimal(n / 10), [Digit(n % 10)]);
      assert [Digit(n % 10)][1..] == "";
      assert 10 * (n / 10) + n % 10 == n;
    }
  }

  lemma {:induction false} FeedCodes(s: Screen, codes: seq<nat>)
    requires s.mode == Params([], 0) && codes != []
    ensures FeedAll(s, Spell(codes)) == s.(mode := Params(codes[..|codes| - 1], codes[|codes| - 1]))
  {
    var front, last := codes[..|codes| - 1], codes[|codes| - 1];
    if |codes| == 1 {
      FeedDecimal(s, last);
    } else {
      FeedCodes(s, front);
      var mid := FeedAll(s, Spell(front));
      FeedConcat(s, Spell(front) + ";", Decimal(last));
      FeedConcat(s, Spell(front), ";");
      assert ";"[1..] == "";
      assert front[..|front| - 1] + [front[|front| - 1]] == front;
      FeedDecimal(Feed(mid, ';'), last);
    }
  }

  /** A spelled sequence does to the look what its codes do, and shows nothing. */
  lemma FeedSequence(s: Screen, codes: seq<nat>)
    requires s.mode.Text? && codes != []
    ensures FeedAll(s, Sequence(codes)) == s.(look := SgrAll(s.look, codes))
  {
    var open := s.(mode := Params([], 0));
    assert FeedAll(s, [ESC, '[']) == open by {
      assert [ESC, '['][1..] == "[" && "["[1..] == "";
    }
    FeedConcat(s, [ESC, '['] + Spell(codes), "m");
    FeedConcat(s, [ESC, '['], Spell(codes));
    FeedCodes(open, codes);
    assert codes[..|codes| - 1] + [codes[|codes| - 1]] == codes;
    assert "m"[1..] == "";
  }

  lemma {:induction false} SgrConcat(r: Rendition, a: seq<nat>, b: seq<nat>)
    ensures SgrAll(r, a + b) == SgrAll(SgrAll(r, a), b)
    decreases |a|
  {
    if a == [] {
      assert a + b == b;
    } else {
      assert (a + b)[1..] == a[1..] + b;
      SgrConcat(Sgr(r, a[0]), a[1..], b);
    }
  }
}
