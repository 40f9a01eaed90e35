/** One span in plain text, with its classes by name: the bytes that forced rendering puts out, and the cells that they
    make on a terminal. */
module StyleSpans {
  import opened Sequences
  import opened Wrappers
  import opened Terminal
  import opened TextWriter
  import opened StyleMarkup
  import opened StyledScreen
  import opened Styled
  import opened StyleClasses

  /** Characters that stand for themselves. */
  predicate IsPlainText(text: string) {
    forall c | c in text :: c != '`' && c != '.' && c != ']' && c != ESC
  }

  lemma PlainTail(text: string)
    requires IsPlainText(text) && text != ""
    ensures text[0] != '`' && text[0] != '.' && text[0] != ']' && text[0] != ESC && IsPlainText(text[1..])
  {
    HeadTail(text);
    assert text[0] in text;
    forall c | c in text[1..] ensures c in text {}
  }

  function Letters(text: string, rest: Markup): Markup {
    if text == "" then rest else Char(text[0], Letters(text[1..], rest))
  }

  function Visibles(text: string): seq<Event> {
    if text == "" then [] else [Visible(text[0])] + Visibles(text[1..])
  }

  lemma {:induction false} LettersPrint(text: string, rest: Markup)
    requires IsPlainText(text) && WellFormed(rest)
    ensures WellFormed(Letters(text, rest)) && Print(Letters(text, rest)) == text + Print(rest)
  {
    if text == "" {
      NothingBefore(Print(rest));
    } else {
      HeadTail(text);
      PlainTail(text);
      LettersPrint(text[1..], rest);
      Associate([text[0]], text[1..], Print(rest));
    }
  }

  lemma {:induction false} LettersEvents(text: string, rest: Markup, style: TextStyle)
    ensures Events(Letters(text, rest), style) == Visibles(text) + Events(rest, style)
  {
    if text == "" {
      NothingBefore(Events(rest, style));
    } else {
      LettersEvents(text[1..], rest, style);
      Associate([Visible(text[0])], Visibles(text[1..]), Events(rest, style));
    }
  }

  lemma {:induction false} LettersNamed(text: string, rest: Markup)
    requires IsPlainText(text) && Named(rest)
    ensures Named(Letters(text, rest))
  {
    if text != "" {
      PlainTail(text);
      LettersNamed(text[1..], rest);
    }
  }

  lemma {:induction false} LettersCells(text: string, rest: Markup, classes: seq<string>)
    ensures MarkupCells(Letters(text, rest), classes) == Cells(text, ClassLook(classes)) + MarkupCells(rest, classes)
  {
    if text == "" {
      NothingBefore(MarkupCells(rest, classes));
    } else {
      LettersCells(text[1..], rest, classes);
      Associate([Cell(text[0], ClassLook(classes))], Cells(text[1..], ClassLook(classes)), MarkupCells(rest, classes));
    }
  }

  lemma {:induction false} OutputOfLetters(text: string, style: TextStyle, more: seq<Event>)
    ensures Output(true, style, Visibles(text) + more) == text + Output(true, style, more)
  {
    if text == "" {
      NothingBefore(more);
      NothingBefore(Output(true, style, more));
    } else {
      HeadTail(text);
      OutputOfLetters(text[1..], style, more);
      Associate([Visible(text[0])], Visibles(text[1..]), more);
      OutputNext(true, style, Visible(text[0]), Visibles(text[1..]) + more);
      Associate([text[0]], text[1..], Output(true, style, more));
    }
  }

  lemma {:induction false} LettersKeepBold(text: string, style: TextStyle, more: seq<Event>)
    requires BoldKept(style, false, more)
    ensures BoldKept(style, false, Visibles(text) + more)
  {
    if text == "" {
      NothingBefore(more);
    } else {
      LettersKeepBold(text[1..], style, more);
      Associate([Visible(text[0])], Visibles(text[1..]), more);
      ConsTail(Visible(text[0]), Visibles(text[1..]) + more);
    }
  }

  // -- A span in plain text --------------------------------------------------------------------

  function SpanMarkup(before: string, classes: seq<string>, text: string, after: string): Markup {
    Letters(before, Span(classes, Letters(text, Empty), Letters(after, Empty)))
  }

  function SpanText(before: string, classes: seq<string>, text: string, after: string): string
    requires classes != []
  {
    before + ("." + Join(classes) + "[" + text + "]" + after)
  }

  predicate IsSpan(before: string, classes: seq<string>, text: string, after: string) {
    && IsPlainText(before) && IsPlainText(text) && IsPlainText(after)
    && classes != [] && AllNames(classes)
  }

  lemma NamesAreClasses(classes: seq<string>)
    requires AllNames(classes)
    ensures forall cls | cls in classes :: IsClass(cls)
  {
    forall cls | cls in classes ensures IsClass(cls) {
      NameMarks(DEFAULT_STYLE, cls);
    }
  }

  lemma SpanPrints(before: string, classes: seq<string>, text: string, after: string)
    requires IsSpan(before, classes, text, after)
    ensures var m := SpanMarkup(before, classes, text, after);
      Named(m) && WellFormed(m) && Print(m) == SpanText(before, classes, text, after)
  {
    NamesAreClasses(classes);
    LettersPrint(text, Empty);
    LettersPrint(after, Empty);
    LettersNamed(text, Empty);
    LettersNamed(after, Empty);
    var span := Span(classes, Letters(text, Empty), Letters(after, Empty));
    LettersPrint(before, span);
    LettersNamed(before, span);
    NothingAfter(text);
    NothingAfter(after);
  }

  lemma SpanEventsAre(before: string, classes: seq<string>, text: string, after: string)
    ensures var style := WithClasses(DEFAULT_STYLE, classes);
      Events(SpanMarkup(before, classes, text, after), DEFAULT_STYLE) ==
        Visibles(before) + ([Pushed(style)] + (Visibles(text) + ([Popped(DEFAULT_STYLE)] + Visibles(after))))
  {
    var style := WithClasses(DEFAULT_STYLE, classes);
    LettersEvents(text, Empty, style);
    LettersEvents(after, Empty, DEFAULT_STYLE);
    NothingAfter(Visibles(text));
    NothingAfter(Visibles(after));
    var span := Span(classes, Letters(text, Empty), Letters(after, Empty));
    LettersEvents(before, span, DEFAULT_STYLE);
    Associate([Pushed(style)], Visibles(text), [Popped(DEFAULT_STYLE)] + Visibles(after));
  }

  // -- The cells -------------------------------------------------------------------------------

  /** What a blank terminal shows of the forced rendering. */
  function Shown(text: string): Option<seq<Cell>> {
    var r := Rendered(true, Display(text, [DEFAULT_STYLE]));
    if r.Failure? then None else Some(FeedAll(BLANK, r.value).cells)
  }

  lemma SpanKeepsBold(before: string, style: TextStyle, text: string, after: string)
    ensures BoldKept(DEFAULT_STYLE, false,
              Visibles(before) + ([Pushed(style)] + (Visibles(text) + ([Popped(DEFAULT_STYLE)] + Visibles(after)))))
  {
    var closing := [Popped(DEFAULT_STYLE)] + Visibles(after);
    LettersKeepBold(after, DEFAULT_STYLE, []);
    NothingAfter(Visibles(after));
    ConsTail(Popped(DEFAULT_STYLE), Visibles(after));
    LettersKeepBold(text, style, closing);
    ConsTail(Pushed(style), Visibles(text) + closing);
    LettersKeepBold(before, DEFAULT_STYLE, [Pushed(style)] + (Visibles(text) + closing));
  }

  /** Whatever its classes, the text of a span is shown in their look, and the text around it in the default. */
  lemma SpanShows(before: string, classes: seq<string>, text: string, after: string)
    requires IsSpan(before, classes, text, after)
    ensures Shown(SpanText(before, classes, text, after)) ==
      Some(Cells(before, RESET) + (Cells(text, ClassLook(classes)) + Cells(after, RESET)))
  {
    var m := SpanMarkup(before, classes, text, after);
    var span := Span(classes, Letters(text, Empty), Letters(after, Empty));
    SpanPrints(before, classes, text, after);
    SpanEventsAre(before, classes, text, after);
    SpanKeepsBold(before, WithClasses(DEFAULT_STYLE, classes), text, after);
    MarkupShows(m);
    NothingBefore(classes);
    LettersCells(before, span, []);
    LettersCells(text, Empty, classes);
    LettersCells(after, Empty, []);
    NothingAfter(Cells(text, ClassLook(classes)));
    NothingAfter(Cells(after, ClassLook([])));
    assert ClassLook([]) == RESET;
  }

  function Spanned(cls: string, text: string): string {
    "." + cls + "[" + text + "]"
  }

  lemma OneClassShows(cls: string, text: string)
    requires IsName(cls) && IsPlainText(text)
    ensures Shown(Spanned(cls, text)) == Some(Cells(text, ClassLook([cls])))
  {
    SpanShows("", [cls], text, "");
    NothingAfter(Spanned(cls, text));
    NothingBefore(Spanned(cls, text));
    NothingAfter(Cells(text, ClassLook([cls])));
    NothingBefore(Cells(text, ClassLook([cls])));
  }

  lemma TwoClassesShow(first: string, second: string, text: string)
    requires IsName(first) && IsName(second) && IsPlainText(text)
    ensures Shown(Spanned(first + ("." + second), text)) == Some(Cells(text, ClassLook([first, second])))
  {
    var classes := [first, second];
    JoinTwo(first, second);
    SpanShows("", classes, text, "");
    NothingAfter(Spanned(Join(classes), text));
    NothingBefore(Spanned(Join(classes), text));
    NothingAfter(Cells(text, ClassLook(classes)));
    NothingBefore(Cells(text, ClassLook(classes)));
  }

  lemma JoinTwo(first: string, second: string)
    ensures Join([first, second]) == first + ("." + second)
  {
    assert [first, second][1..] == [second];
  }

  /** A colour by itself and with `br` before it. */
  lemma ColorShowsAs(name: string, n: nat, text: string)
    requires Number(name) == Some(n) && IsPlainText(text)
    ensures Shown(Spanned(name, text)) == Some(Cells(text, RESET.(fg := Basic(n))))
    ensures Shown(Spanned("br" + ("." + name), text)) == Some(Cells(text, RESET.(fg := Bright(n))))
  {
    OneClassShows(name, text);
    TwoClassesShow("br", name, text);
    ColorLooks(name, n);
  }

  lemma ColorLooks(name: string, n: nat)
    requires Number(name) == Some(n)
    ensures ClassLook([name]) == RESET.(fg := Basic(n))
    ensures ClassLook(["br", name]) == RESET.(fg := Bright(n))
  {
    OneClass(name);
    BrightClass(name);
    ColorIsNoAttribute(name);
  }

  lemma OneClass(cls: string)
    ensures LastColor([cls]) == if IsColor(cls) then Some(cls) else None
    ensures forall other :: other in [cls] <==> other == cls
  {
    assert [cls][1..] == [];
  }

  lemma BrightClass(cls: string)
    requires IsColor(cls)
    ensures LastColor(["br", cls]) == Some(cls)
    ensures forall other :: other in ["br", cls] <==> other == "br" || other == cls
  {
    assert ["br", cls][1..] == [cls];
    OneClass(cls);
  }

  lemma ColorIsNoAttribute(name: string)
    requires IsColor(name)
    ensures name != "br" && name != "bold" && name != "faint" && name != "italic" && name != "underline"
      && name != "reverse" && name != "strike"
  {}

  lemma Numbers()
    ensures Number("black") == Some(0) && Number("red") == Some(1) && Number("green") == Some(2)
    ensures Number("yellow") == Some(3) && Number("blue") == Some(4) && Number("magent") == Some(5)
    ensures Number("cyan") == Some(6) && Number("white") == Some(7)
  {}

  /** The colours by name. */
  lemma PaletteShows(text: string)
    requires IsPlainText(text)
    ensures Shown(Spanned("black", text)) == Some(Cells(text, RESET.(fg := Basic(0))))
    ensures Shown(Spanned("red", text)) == Some(Cells(text, RESET.(fg := Basic(1))))
    ensures Shown(Spanned("green", text)) == Some(Cells(text, RESET.(fg := Basic(2))))
    ensures Shown(Spanned("yellow", text)) == Some(Cells(text, RESET.(fg := Basic(3))))
    ensures Shown(Spanned("blue", text)) == Some(Cells(text, RESET.(fg := Basic(4))))
    ensures Shown(Spanned("magent", text)) == Some(Cells(text, RESET.(fg := Basic(5))))
    ensures Shown(Spanned("cyan", text)) == Some(Cells(text, RESET.(fg := Basic(6))))
    ensures Shown(Spanned("white", text)) == Some(Cells(text, RESET.(fg := Basic(7))))
    ensures Shown(Spanned("normal", text)) == Some(Cells(text, RESET))
  {
    Numbers();
    ColorShowsAs("black", 0, text);
    ColorShowsAs("red", 1, text);
    ColorShowsAs("green", 2, text);
    ColorShowsAs("yellow", 3, text);
    ColorShowsAs("blue", 4, text);
    ColorShowsAs("magent", 5, text);
    ColorShowsAs("cyan", 6, text);
    ColorShowsAs("white", 7, text);
    OneClassShows("normal", text);
    NormalLook();
  }

  lemma NormalLook()
    ensures ClassLook(["normal"]) == RESET
  {
    OneClass("normal");
    ColorIsNoAttribute("normal");
  }

  /** The bright colours by name. */
  lemma BrightPaletteShows(text: string)
    requires IsPlainText(text)
    ensures Shown(Spanned("br" + ("." + "black"), text)) == Some(Cells(text, RESET.(fg := Bright(0))))
    ensures Shown(Spanned("br" + ("." + "red"), text)) == Some(Cells(text, RESET.(fg := Bright(1))))
    ensures Shown(Spanned("br" + ("." + "green"), text)) == Some(Cells(text, RESET.(fg := Bright(2))))
    ensures Shown(Spanned("br" + ("." + "yellow"), text)) == Some(Cells(text, RESET.(fg := Bright(3))))
    ensures Shown(Spanned("br" + ("." + "blue"), text)) == Some(Cells(text, RESET.(fg := Bright(4))))
    ensures Shown(Spanned("br" + ("." + "magent"), text)) == Some(Cells(text, RESET.(fg := Bright(5))))
    ensures Shown(Spanned("br" + ("." + "cyan"), text)) == Some(Cells(text, RESET.(fg := Bright(6))))
    ensures Shown(Spanned("br" + ("." + "white"), text)) == Some(Cells(text, RESET.(fg := Bright(7))))
  {
    Numbers();
    ColorShowsAs("black", 0, text);
    ColorShowsAs("red", 1, text);
    ColorShowsAs("green", 2, text);
    ColorShowsAs("yellow", 3, text);
    ColorShowsAs("blue", 4, text);
    ColorShowsAs("magent", 5, text);
    ColorShowsAs("cyan", 6, text);
    ColorShowsAs("white", 7, text);
  }

  /** Every attribute by name sets itself and nothing else. */
  lemma AttributesShow(text: string)
    requires IsPlainText(text)
    ensures Shown(Spanned("bold", text)) == Some(Cells(text, RESET.(bold := true)))
    ensures Shown(Spanned("faint", text)) == Some(Cells(text, RESET.(faint := true)))
    ensures Shown(Spanned("italic", text)) == Some(Cells(text, RESET.(italic := true)))
    ensures Shown(Spanned("underline", text)) == Some(Cells(text, RESET.(underline := Single)))
    ensures Shown(Spanned("reverse", text)) == Some(Cells(text, RESET.(reverse := true)))
    ensures Shown(Spanned("strike", text)) == Some(Cells(text, RESET.(strike := true)))
  {
    OneClassShows("bold", text);
    OneClassShows("faint", text);
    OneClassShows("italic", text);
    OneClassShows("underline", text);
    OneClassShows("reverse", text);
    OneClassShows("strike", text);
    AttributeLooks();
  }

  lemma AttributeLook(cls: string)
    requires IsName(cls) && !IsColor(cls)
    ensures ClassLook([cls]) ==
      Rendition(Default, Default, cls == "bold", cls == "faint", cls == "italic",
                if cls == "underline" then Single else Plain, cls == "reverse", cls == "strike")
  {
    OneClass(cls);
  }

  lemma AttributeLooks()
    ensures ClassLook(["bold"]) == RESET.(bold := true)
    ensures ClassLook(["faint"]) == RESET.(faint := true)
    ensures ClassLook(["italic"]) == RESET.(italic := true)
    ensures ClassLook(["underline"]) == RESET.(underline := Single)
    ensures ClassLook(["reverse"]) == RESET.(reverse := true)
    ensures ClassLook(["strike"]) == RESET.(strike := true)
  {
    AttributeLook("bold");
    AttributeLook("faint");
    AttributeLook("italic");
    AttributeLook("underline");
    AttributeLook("reverse");
    AttributeLook("strike");
  }

  // -- The output ------------------------------------------------------------------------------

  /** The codes for a list of classes. */
  function CodesOf(classes: seq<string>): seq<nat> {
    IntensityCodes(classes) + ShapeCodes(classes) + ColorCodes(LastColor(classes), "br" in classes)
  }

  function IntensityCodes(classes: seq<string>): seq<nat> {
    (if "bold" in classes then [1] else []) + (if "faint" in classes then [2] else [])
  }

  function ShapeCodes(classes: seq<string>): seq<nat> {
    (if "italic" in classes then [3] else []) + (if "underline" in classes then [4] else [])
    + (if "reverse" in classes then [7] else []) + (if "strike" in classes then [9] else [])
  }

  function ColorCodes(color: Option<string>, bright: bool): seq<nat> {
    if color.None? || Number(color.value).None? then []
    else [Number(color.value).value + if bright then 90 else 30]
  }

  function SequenceOf(codes: seq<nat>): string {
    if codes == [] then "" else Sequence(codes)
  }

  lemma TogglesAreCodes(classes: seq<string>)
    requires AllNames(classes)
    ensures Toggles(WithClasses(DEFAULT_STYLE, classes), DEFAULT_STYLE) == CodesOf(classes)
  {
    ClassesMark(DEFAULT_STYLE, classes);
    AttributeCodes(WithClasses(DEFAULT_STYLE, classes), classes);
    ColorsAreCodes(classes);
  }

  lemma AttributeCodes(s: TextStyle, classes: seq<string>)
    requires s.bold == ("bold" in classes) && s.faint == ("faint" in classes) && s.italic == ("italic" in classes)
    requires s.underline == ("underline" in classes) && s.reverse == ("reverse" in classes)
    requires s.strike == ("strike" in classes)
    ensures IntensityChanges(s, DEFAULT_STYLE) == IntensityCodes(classes)
    ensures ShapeChanges(s, DEFAULT_STYLE) == ShapeCodes(classes)
  {}

  lemma ColorsAreCodes(classes: seq<string>)
    requires AllNames(classes)
    ensures ColorChanges(WithClasses(DEFAULT_STYLE, classes), DEFAULT_STYLE) ==
      ColorCodes(LastColor(classes), "br" in classes)
  {
    ClassesMark(DEFAULT_STYLE, classes);
    LastColorIsColor(classes);
    var s := WithClasses(DEFAULT_STYLE, classes);
    if LastColor(classes).Some? {
      ColorIsNamed(LastColor(classes).value);
    }
    NormalBackground(s);
  }

  lemma NormalBackground(s: TextStyle)
    requires s.bgColor == Normal
    ensures ColorChanges(s, DEFAULT_STYLE) == if s.fgColor == Normal then [] else [CodeForColor(s.fgColor, s.bright)]
  {}

  lemma {:induction false} SpellCons(code: nat, codes: seq<nat>)
    requires codes != []
    ensures Spell([code] + codes) == Decimal(code) + ";" + Spell(codes)
    decreases |codes|
  {
    var all, front, last := [code] + codes, codes[..|codes| - 1], codes[|codes| - 1];
    assert all[..|all| - 1] == [code] + front;
    if front == [] {
      NothingAfter([code]);
      assert all[..|all| - 1] == [code];
    } else {
      SpellCons(code, front);
      Associate(Decimal(code) + ";", Spell(front), ";");
      Associate(Decimal(code) + ";", Spell(front) + ";", Decimal(last));
    }
  }

  lemma {:induction false} DecimalIsLong(n: nat)
    ensures n >= 10 ==> |Decimal(n)| >= 2
  {}

  /** From the default, the toggles are never the longer encoding. */
  lemma OpeningCodes(style: TextStyle)
    ensures Emission(style, DEFAULT_STYLE) == SequenceOf(Toggles(style, DEFAULT_STYLE))
  {
    RestartIsToggles(style);
    if Toggles(style, DEFAULT_STYLE) != [] {
      SpellCons(0, Toggles(style, DEFAULT_STYLE));
    }
  }

  /** Back to the default, starting over is always shorter. */
  lemma ClosingCodes(style: TextStyle)
    requires Specified(style)
    ensures Emission(DEFAULT_STYLE, style) == if Toggles(DEFAULT_STYLE, style) == [] then "" else Sequence([0])
  {
    var codes := Toggles(DEFAULT_STYLE, style);
    if codes != [] {
      assert codes[0] >= 10;
      SpellIsLong(codes);
      assert Restart(DEFAULT_STYLE) == [0] && |Spell([0])| == 1;
    }
  }

  lemma {:induction false} SpellIsLong(codes: seq<nat>)
    requires codes != [] && codes[0] >= 10
    ensures |Spell(codes)| >= 2
  {
    if |codes| == 1 {
      DecimalIsLong(codes[0]);
    } else {
      SpellIsLong(codes[..|codes| - 1]);
    }
  }

  lemma BothOrNeither(style: TextStyle)
    ensures Toggles(DEFAULT_STYLE, style) == [] <==> Toggles(style, DEFAULT_STYLE) == []
  {
    NothingToggled(DEFAULT_STYLE, style);
    NothingToggled(style, DEFAULT_STYLE);
  }

  /** The output for a span in plain text, byte by byte: the codes of its classes, and code 0 at its end. */
  lemma SpanOutput(before: string, classes: seq<string>, text: string, after: string)
    requires IsSpan(before, classes, text, after)
    ensures Rendered(true, Display(SpanText(before, classes, text, after), [DEFAULT_STYLE])) ==
      Success(before + (SequenceOf(CodesOf(classes))
              + (text + ((if CodesOf(classes) == [] then "" else Sequence([0])) + after))))
  {
    var style := WithClasses(DEFAULT_STYLE, classes);
    var closing := [Popped(DEFAULT_STYLE)] + Visibles(after);
    SpanPrints(before, classes, text, after);
    PrintThenDisplay(SpanMarkup(before, classes, text, after));
    SpanEventsAre(before, classes, text, after);
    OutputOfLetters(before, DEFAULT_STYLE, [Pushed(style)] + (Visibles(text) + closing));
    OutputNext(true, DEFAULT_STYLE, Pushed(style), Visibles(text) + closing);
    OutputOfLetters(text, style, closing);
    OutputNext(true, style, Popped(DEFAULT_STYLE), Visibles(after));
    OutputOfLetters(after, DEFAULT_STYLE, []);
    NothingAfter(Visibles(after));
    NothingAfter(after);
    TogglesAreCodes(classes);
    ClassesLook(classes);
    OpeningCodes(style);
    ClosingCodes(style);
    BothOrNeither(style);
  }

  /** For instance. */
  lemma BoldRedOutput(text: string)
    requires text == "foo .bold.red[bar] baz"
    ensures Rendered(true, Display(text, [DEFAULT_STYLE])) == Success("foo \U{1B}[1;31mbar\U{1B}[0m baz")
  {
    var classes := ["bold", "red"];
    BoldRedCodes(classes);
    BoldRedText(classes, text);
    SpanOutput("foo ", classes, "bar", " baz");
    BoldRedParts(Sequence([1, 31]), Sequence([0]));
  }

  lemma BoldRedParts(opening: string, closing: string)
    requires opening == Sequence([1, 31]) && closing == Sequence([0])
    ensures "foo " + (opening + ("bar" + (closing + " baz"))) == "foo \U{1B}[1;31mbar\U{1B}[0m baz"
  {
    SpelledCodes();
  }

  lemma BoldRedText(classes: seq<string>, text: string)
    requires classes == ["bold", "red"] && text == "foo .bold.red[bar] baz"
    ensures IsSpan("foo ", classes, "bar", " baz") && SpanText("foo ", classes, "bar", " baz") == text
  {
    assert IsName("bold") && IsName("red");
    JoinTwo("bold", "red");
  }

  lemma BoldRedCodes(classes: seq<string>)
    requires classes == ["bold", "red"]
    ensures CodesOf(classes) == [1, 31]
  {
    assert classes[1..] == ["red"];
    OneClass("red");
    ColorIsNoAttribute("red");
    Numbers();
    assert "bold" in classes;
    assert LastColor(classes) == Some("red");
  }

  lemma SpelledCodes()
    ensures Sequence([1, 31]) == "\U{1B}[1;31m" && Sequence([0]) == "\U{1B}[0m"
  {
    SpellCons(1, [31]);
    assert [1] + [31] == [1, 31];
    assert Decimal(31) == "3" + "1";
  }

  // -- Text without spans ----------------------------------------------------------------------

  /** A dot only opens a span if a letter follows it, and a bracket only closes one inside a span. */
  predicate OpensNothing(text: string) {
    '`' !in text && forall i | 0 < i < |text| && text[i - 1] == '.' :: !IsLetter(text[i])
  }

  predicate IsLetter(c: char) {
    'a' <= c <= 'z' || 'A' <= c <= 'Z'
  }

  lemma {:induction false} NothingOpened(text: string)
    requires OpensNothing(text)
    ensures Display(text, [DEFAULT_STYLE]) == Success(Visibles(text))
    decreases |text|
  {
    if text != "" {
      HeadTail(text);
      assert text[0] in text;
      forall i | 0 < i < |text[1..]| && text[1..][i - 1] == '.' ensures !IsLetter(text[1..][i]) {
        assert text[i + 1 - 1] == '.';
      }
      NothingOpened(text[1..]);
    }
  }

  lemma {:induction false} VisiblesPrint(doStyle: bool, text: string, style: TextStyle)
    ensures Output(doStyle, style, Visibles(text)) == text
  {
    if text != "" {
      HeadTail(text);
      VisiblesPrint(doStyle, text[1..], style);
      OutputNext(doStyle, style, Visible(text[0]), Visibles(text[1..]));
    }
  }

  /** Text in which nothing opens a span comes out as it is. */
  lemma PlainTextPrints(doStyle: bool, text: string)
    requires OpensNothing(text)
    ensures Rendered(doStyle, Display(text, [DEFAULT_STYLE])) == Success(text)
  {
    NothingOpened(text);
    VisiblesPrint(doStyle, text, DEFAULT_STYLE);
  }

  /** A backtick before every character. */
  function Ticked(text: string): string {
    if text == "" then "" else ['`', text[0]] + Ticked(text[1..])
  }

  /** Any character at all stands for itself after a backtick. */
  lemma {:induction false} TickedIsShown(text: string, stack: Stack)
    ensures Display(Ticked(text), stack) == Success(Visibles(text))
  {
    if text != "" {
      var s := Ticked(text);
      assert s[0] == '`' && s[1] == text[0] && s[2..] == Ticked(text[1..]);
      TickedIsShown(text[1..], stack);
    }
  }

  lemma TickedTextPrints(doStyle: bool, text: string)
    ensures Rendered(doStyle, Display(Ticked(text), [DEFAULT_STYLE])) == Success(text)
  {
    TickedIsShown(text, [DEFAULT_STYLE]);
    VisiblesPrint(doStyle, text, DEFAULT_STYLE);
  }

  /** There are no classes but the named ones. */
  lemma OnlyNames(style: TextStyle, cls: string)
    ensures ApplyClass(style, cls).Some? <==> IsName(cls) || cls == "unspecified"
  {
    if IsName(cls) {
      NameMarks(style, cls);
    }
  }

  /** Any other class is a fault, wherever it is met. */
  lemma OtherClassFails(doStyle: bool, cls: string, more: string)
    requires cls != "" && IsLetter(cls[0]) && '[' !in cls && '.' !in cls
    requires !IsName(cls) && cls != "unspecified"
    ensures Rendered(doStyle, Display("." + (cls + ("[" + more)), [DEFAULT_STYLE])) == Failure(BadClass(cls))
  {
    var s := cls + ("[" + more);
    OnlyNames(DEFAULT_STYLE, cls);
    ConsTail('.', s);
    ConsTail('[', more);
    assert s[0] == cls[0];
    ReadWord("", cls, "[" + more, DEFAULT_STYLE);
    NothingBefore(cls);
  }
}
