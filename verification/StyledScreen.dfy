/** What a terminal shows of rendered markup, cell by cell, and when that is what the markup means. */
module StyledScreen {
  import opened Sequences
  import opened Terminal
  import opened TextWriter
  import opened Wrappers
  import opened StyleMarkup

  /** What the renderer puts out for one event, when `prev` is the style that the writer put last.  Opening a span puts
      a style only if styling is on; closing one always does. */
  function Piece(doStyle: bool, prev: TextStyle, e: Event): string {
    match e
    case Visible(c) => [c]
    case Pushed(style) => if doStyle then Emission(style, prev) else ""
    case Popped(style) => Emission(style, prev)
  }

  /** The style that the writer has put last after the event. */
  function PutAfter(doStyle: bool, prev: TextStyle, e: Event): TextStyle {
    match e
    case Visible(_) => prev
    case Pushed(style) => if doStyle then style else prev
    case Popped(style) => style
  }

  function Output(doStyle: bool, prev: TextStyle, events: seq<Event>): string
    decreases |events|
  {
    if events == [] then ""
    else Piece(doStyle, prev, events[0]) + Output(doStyle, PutAfter(doStyle, prev, events[0]), events[1..])
  }

  /** The whole result of rendering. */
  function Rendered(doStyle: bool, meaning: Meaning): Result<string, Fault> {
    if meaning.Failure? then Failure(meaning.error) else Success(Output(doStyle, DEFAULT_STYLE, meaning.value))
  }

  /** What the result will be once `text` and the output for what is left are added to `buf`. */
  function Completed(doStyle: bool, buf: string, style: TextStyle, text: string, left: Meaning): Result<string, Fault> {
    if left.Failure? then Failure(left.error) else Success(buf + (text + Output(doStyle, style, left.value)))
  }

  lemma CompletedAtStart(doStyle: bool, meaning: Meaning)
    ensures Completed(doStyle, "", DEFAULT_STYLE, "", meaning) == Rendered(doStyle, meaning)
  {
    if meaning.Success? {
      var text := Output(doStyle, DEFAULT_STYLE, meaning.value);
      assert "" + ("" + text) == text;
    }
  }

  lemma CompletedAtEnd(doStyle: bool, buf: string, style: TextStyle)
    ensures Completed(doStyle, buf, style, "", Success([])) == Success(buf)
  {
    assert buf + ("" + "") == buf;
  }

  lemma CompletedFlush(doStyle: bool, buf: string, style: TextStyle, text: string, left: Meaning)
    ensures Completed(doStyle, buf + text, style, "", left) == Completed(doStyle, buf, style, text, left)
  {
    if left.Success? {
      var more := Output(doStyle, style, left.value);
      Associate(buf, text, more);
      assert "" + more == more;
    }
  }

  lemma OutputNext(doStyle: bool, style: TextStyle, e: Event, more: seq<Event>)
    ensures Output(doStyle, style, [e] + more) ==
      Piece(doStyle, style, e) + Output(doStyle, PutAfter(doStyle, style, e), more)
  {
    ConsTail(e, more);
  }

  /** A visible character joins the pending text. */
  lemma CompletedScan(doStyle: bool, buf: string, style: TextStyle, text: string, c: char, left: Meaning)
    ensures Completed(doStyle, buf, style, text, Prefixed([Visible(c)], left)) ==
      Completed(doStyle, buf, style, text + [c], left)
  {
    if left.Success? {
      OutputNext(doStyle, style, Visible(c), left.value);
      Associate(text, [c], Output(doStyle, style, left.value));
    }
  }

  /** The next event is put out. */
  lemma CompletedPut(doStyle: bool, buf: string, style: TextStyle, e: Event, left: Meaning)
    ensures Completed(doStyle, buf, style, "", Prefixed([e], left)) ==
      Completed(doStyle, buf + Piece(doStyle, style, e), PutAfter(doStyle, style, e), "", left)
  {
    if left.Success? {
      var piece, more := Piece(doStyle, style, e), Output(doStyle, PutAfter(doStyle, style, e), left.value);
      OutputNext(doStyle, style, e, left.value);
      Associate(buf, piece, more);
      assert "" + (piece + more) == piece + more && "" + more == more;
    }
  }

  // -- Without styling -------------------------------------------------------------------------

  /** The event puts its style. */
  predicate Puts(doStyle: bool, e: Event) {
    e.Popped? || (doStyle && e.Pushed?)
  }

  function VisibleText(events: seq<Event>): string {
    if events == [] then ""
    else (if events[0].Visible? then [events[0].c] else "") + VisibleText(events[1..])
  }

  lemma {:induction false} OutputIsLonger(doStyle: bool, prev: TextStyle, events: seq<Event>)
    ensures |Output(doStyle, prev, events)| >= |VisibleText(events)|
    decreases |events|
  {
    if events != [] {
      OutputIsLonger(doStyle, PutAfter(doStyle, prev, events[0]), events[1..]);
    }
  }

  lemma SilentPiece(doStyle: bool, prev: TextStyle, e: Event)
    requires !e.Visible?
    ensures Piece(doStyle, prev, e) == "" <==> (Puts(doStyle, e) ==> SameCodes(e.style, prev))
  {
    NothingToggled(e.style, prev);
  }

  ghost predicate AllPutLike(doStyle: bool, style: TextStyle, events: seq<Event>) {
    forall e | e in events && Puts(doStyle, e) :: SameCodes(e.style, style)
  }

  lemma PutLikeNext(doStyle: bool, style: TextStyle, events: seq<Event>)
    requires events != [] && (Puts(doStyle, events[0]) ==> SameCodes(events[0].style, style))
    ensures AllPutLike(doStyle, style, events) <==>
      AllPutLike(doStyle, PutAfter(doStyle, style, events[0]), events[1..])
  {
    HeadTail(events);
    assert events[0] in events;
    forall e | e in events[1..] ensures e in events {}
  }

  /** The output is the visible text alone if and only if every style that is put has the codes of the first. */
  lemma {:induction false} PlainExactly(doStyle: bool, style: TextStyle, events: seq<Event>)
    ensures Output(doStyle, style, events) == VisibleText(events) <==> AllPutLike(doStyle, style, events)
    decreases |events|
  {
    if events != [] {
      var e, more := events[0], events[1..];
      var next := PutAfter(doStyle, style, e);
      PlainExactly(doStyle, next, more);
      if e.Visible? {
        PutLikeNext(doStyle, style, events);
        SameAfter(e.c, Output(doStyle, next, more), VisibleText(more));
      } else {
        SilentPiece(doStyle, style, e);
        if Piece(doStyle, style, e) == "" {
          PutLikeNext(doStyle, style, events);
          NothingBefore(Output(doStyle, next, more));
          NothingBefore(VisibleText(more));
        } else {
          OutputIsLonger(doStyle, next, more);
          assert e in events;
        }
      }
    }
  }

  lemma SameAfter(c: char, a: string, b: string)
    ensures [c] + a == [c] + b <==> a == b
  {
    ConsTail(c, a);
    ConsTail(c, b);
  }

  /** The characters of nested markup. */
  function TextOf(m: Markup): string {
    match m
    case Empty => ""
    case Char(c, rest) => [c] + TextOf(rest)
    case Span(_, inner, rest) => TextOf(inner) + TextOf(rest)
  }

  /** Every span that closes inside another returns to a style with the codes of the default. */
  predicate ReturnsPlain(m: Markup, style: TextStyle) {
    match m
    case Empty => true
    case Char(_, rest) => ReturnsPlain(rest, style)
    case Span(classes, inner, rest) =>
      SameCodes(style, DEFAULT_STYLE) && ReturnsPlain(inner, WithClasses(style, classes)) && ReturnsPlain(rest, style)
  }

  lemma {:induction false} VisibleConcat(a: seq<Event>, b: seq<Event>)
    ensures VisibleText(a + b) == VisibleText(a) + VisibleText(b)
    decreases |a|
  {
    if a == [] {
      NothingBefore(b);
    } else {
      HeadTail(a);
      Associate([a[0]], a[1..], b);
      ConsTail(a[0], a[1..] + b);
      VisibleConcat(a[1..], b);
      Associate(if a[0].Visible? then [a[0].c] else "", VisibleText(a[1..]), VisibleText(b));
    }
  }

  lemma VisibleNext(e: Event, more: seq<Event>)
    ensures VisibleText([e] + more) == (if e.Visible? then [e.c] else "") + VisibleText(more)
  {
    ConsTail(e, more);
  }

  lemma {:induction false} EventsShowText(m: Markup, style: TextStyle)
    ensures VisibleText(Events(m, style)) == TextOf(m)
    decreases m
  {
    match m
    case Empty =>
    case Char(c, rest) =>
      VisibleNext(Visible(c), Events(rest, style));
      EventsShowText(rest, style);
    case Span(classes, inner, rest) =>
      var within := WithClasses(style, classes);
      var closing := [Popped(style)] + Events(rest, style);
      EventsShowText(inner, within);
      EventsShowText(rest, style);
      VisibleNext(Popped(style), Events(rest, style));
      NothingBefore(TextOf(rest));
      Associate([Pushed(within)], Events(inner, within), closing);
      VisibleNext(Pushed(within), Events(inner, within) + closing);
      VisibleConcat(Events(inner, within), closing);
      NothingBefore(TextOf(inner) + TextOf(rest));
  }

  lemma {:induction false} PoppedAreReturns(m: Markup, style: TextStyle)
    ensures AllPutLike(false, DEFAULT_STYLE, Events(m, style)) <==> ReturnsPlain(m, style)
    decreases m
  {
    match m
    case Empty =>
    case Char(c, rest) =>
      PoppedAreReturns(rest, style);
      PutLikeParts([Visible(c)], Events(rest, style));
    case Span(classes, inner, rest) =>
      var within := WithClasses(style, classes);
      var closing := [Popped(style)] + Events(rest, style);
      PoppedAreReturns(inner, within);
      PoppedAreReturns(rest, style);
      assert AllPutLike(false, DEFAULT_STYLE, [Pushed(within)]);
      PutLikeParts([Pushed(within)], Events(inner, within));
      PutLikeParts([Pushed(within)] + Events(inner, within), closing);
      PutLikeParts([Popped(style)], Events(rest, style));
      OnePutLike(style);
  }

  lemma PutLikeParts(a: seq<Event>, b: seq<Event>)
    ensures AllPutLike(false, DEFAULT_STYLE, a + b) <==>
      AllPutLike(false, DEFAULT_STYLE, a) && AllPutLike(false, DEFAULT_STYLE, b)
  {
    forall e ensures e in a + b <==> e in a || e in b {}
  }

  lemma OnePutLike(style: TextStyle)
    ensures AllPutLike(false, DEFAULT_STYLE, [Popped(style)]) <==> SameCodes(style, DEFAULT_STYLE)
  {
    assert Popped(style) in [Popped(style)];
  }

  /** Rendering printed markup without styling gives just its characters if and only if every span that closes inside
      another returns to a style with the codes of the default. */
  lemma UnstyledExactly(m: Markup)
    requires WellFormed(m)
    ensures Rendered(false, Display(Print(m), [DEFAULT_STYLE])) == Success(TextOf(m)) <==>
      ReturnsPlain(m, DEFAULT_STYLE)
  {
    PrintThenDisplay(m);
    EventsShowText(m, DEFAULT_STYLE);
    PoppedAreReturns(m, DEFAULT_STYLE);
    PlainExactly(false, DEFAULT_STYLE, Events(m, DEFAULT_STYLE));
  }

  // -- The look of the cells -------------------------------------------------------------------

  predicate NoEscapes(events: seq<Event>) {
    forall e | e in events && e.Visible? :: e.c != ESC
  }

  /** What the terminal shows next after the event. */
  function LookThen(doStyle: bool, look: Rendition, prev: TextStyle, e: Event): Rendition {
    if Puts(doStyle, e) then LookAfter(look, e.style, prev) else look
  }

  function Glyph(e: Event, look: Rendition): seq<Cell> {
    if e.Visible? then [Cell(e.c, look)] else []
  }

  /** The cells as the terminal shows them. */
  function Actual(doStyle: bool, look: Rendition, prev: TextStyle, events: seq<Event>): seq<Cell>
    decreases |events|
  {
    if events == [] then []
    else
      Glyph(events[0], look)
      + Actual(doStyle, LookThen(doStyle, look, prev, events[0]), PutAfter(doStyle, prev, events[0]), events[1..])
  }

  function LastLook(doStyle: bool, look: Rendition, prev: TextStyle, events: seq<Event>): Rendition
    decreases |events|
  {
    if events == [] then look
    else LastLook(doStyle, LookThen(doStyle, look, prev, events[0]), PutAfter(doStyle, prev, events[0]), events[1..])
  }

  /** One event on a terminal. */
  lemma PieceShows(doStyle: bool, screen: Screen, prev: TextStyle, e: Event)
    requires screen.mode.Text? && (e.Visible? ==> e.c != ESC)
    ensures FeedAll(screen, Piece(doStyle, prev, e)) ==
      Screen(LookThen(doStyle, screen.look, prev, e), Text, screen.cells + Glyph(e, screen.look))
  {
    NothingAfter(screen.cells);
    if e.Visible? {
      assert [e.c][1..] == "";
    } else {
      EmissionLooks(screen, e.style, prev);
    }
  }

  /** A terminal that receives the output of rendering, whatever it shows, shows just these cells in addition. */
  lemma {:induction false} OutputShows(doStyle: bool, screen: Screen, prev: TextStyle, events: seq<Event>)
    requires NoEscapes(events) && screen.mode.Text?
    ensures FeedAll(screen, Output(doStyle, prev, events)) ==
      Screen(LastLook(doStyle, screen.look, prev, events), Text,
             screen.cells + Actual(doStyle, screen.look, prev, events))
    decreases |events|
  {
    if events == [] {
      NothingAfter(screen.cells);
    } else {
      var e, more := events[0], events[1..];
      var next := PutAfter(doStyle, prev, e);
      assert e in events;
      PieceShows(doStyle, screen, prev, e);
      var middle := FeedAll(screen, Piece(doStyle, prev, e));
      FeedConcat(screen, Piece(doStyle, prev, e), Output(doStyle, next, more));
      OutputShows(doStyle, middle, next, more);
      Associate(screen.cells, Glyph(e, screen.look), Actual(doStyle, middle.look, next, more));
    }
  }

  // -- The cells that are meant ----------------------------------------------------------------

  predicate AllSpecified(events: seq<Event>) {
    forall e | e in events && !e.Visible? :: Specified(e.style)
  }

  function StyleAfter(style: TextStyle, e: Event): TextStyle {
    if e.Visible? then style else e.style
  }

  predicate LostAt(style: TextStyle, lost: bool, e: Event) {
    if e.Visible? then lost else LostAfter(lost, e.style, style)
  }

  lemma SpecifiedAfter(style: TextStyle, events: seq<Event>)
    requires Specified(style) && AllSpecified(events) && events != []
    ensures Specified(StyleAfter(style, events[0])) && AllSpecified(events[1..])
  {
    assert events[0] in events;
  }

  /** The cells as the markup means them: each in the style on top. */
  function Intended(style: TextStyle, events: seq<Event>): seq<Cell>
    requires Specified(style) && AllSpecified(events)
    decreases |events|
  {
    if events == [] then []
    else
      SpecifiedAfter(style, events);
      Glyph(events[0], Shows(style)) + Intended(StyleAfter(style, events[0]), events[1..])
  }

  /** No character becomes visible while bold is on and lost. */
  predicate BoldKept(style: TextStyle, lost: bool, events: seq<Event>)
    decreases |events|
  {
    events == [] ||
    (&& !(events[0].Visible? && style.bold && lost)
     && BoldKept(StyleAfter(style, events[0]), LostAt(style, lost, events[0]), events[1..]))
  }

  lemma LookThenSpecified(style: TextStyle, lost: bool, e: Event)
    requires Specified(style) && Specified(StyleAfter(style, e))
    ensures LookThen(true, LookOf(style, lost), style, e) == LookOf(StyleAfter(style, e), LostAt(style, lost, e))
    ensures PutAfter(true, style, e) == StyleAfter(style, e)
  {
    if !e.Visible? {
      SpecifiedLooks(e.style, style, lost);
    }
  }

  /** Where all colours are specified, the cells are as they are meant to be exactly if bold is on wherever it shows. */
  lemma {:induction false} MeantExactly(style: TextStyle, lost: bool, events: seq<Event>)
    requires Specified(style) && AllSpecified(events)
    ensures Actual(true, LookOf(style, lost), style, events) == Intended(style, events) <==>
      BoldKept(style, lost, events)
    decreases |events|
  {
    if events != [] {
      var next, flag := StyleAfter(style, events[0]), LostAt(style, lost, events[0]);
      SpecifiedAfter(style, events);
      LookThenSpecified(style, lost, events[0]);
      MeantExactly(next, flag, events[1..]);
      SameCells(Glyph(events[0], LookOf(style, lost)), Actual(true, LookOf(next, flag), next, events[1..]),
                Glyph(events[0], Shows(style)), Intended(next, events[1..]));
    }
  }

  lemma SameCells(a: seq<Cell>, more: seq<Cell>, b: seq<Cell>, others: seq<Cell>)
    requires |a| == |b|
    ensures a + more == b + others <==> a == b && more == others
  {
    if a + more == b + others {
      assert a == (a + more)[..|a|] && b == (b + others)[..|a|];
      assert more == (a + more)[|a|..] && others == (b + others)[|a|..];
    }
  }

  /** Without faint nothing is ever lost. */
  lemma {:induction false} FaintFreeKeepsBold(style: TextStyle, events: seq<Event>)
    requires !style.faint && forall e | e in events && !e.Visible? :: !e.style.faint
    ensures BoldKept(style, false, events)
    decreases |events|
  {
    if events != [] {
      assert events[0] in events;
      FaintFreeKeepsBold(StyleAfter(style, events[0]), events[1..]);
    }
  }

  lemma KeptTail(style: TextStyle, lost: bool, e: Event, more: seq<Event>)
    requires BoldKept(style, lost, [e] + more)
    ensures !(e.Visible? && style.bold && lost) && BoldKept(StyleAfter(style, e), LostAt(style, lost, e), more)
  {
    assert ([e] + more)[1..] == more;
  }

  const BOLD := DEFAULT_STYLE.(bold := true)
  const BOLD_FAINT := DEFAULT_STYLE.(bold := true, faint := true)

  /** `.bold[.faint[x]y]` */
  const LOSING := Span(["bold"], Span(["faint"], Char('x', Empty), Char('y', Empty)), Empty)

  const INNER := Span(["faint"], Char('x', Empty), Char('y', Empty))

  lemma InnerPrints()
    ensures WellFormed(INNER) && Print(INNER) == ".faint[x]y"
  {
    assert IsClass("faint") && PrintChar('x') == "x" && PrintChar('y') == "y";
    assert "x" + "" == "x" && "y" + "" == "y";
  }

  lemma LosingPrints()
    ensures WellFormed(LOSING) && Print(LOSING) == ".bold[.faint[x]y]"
  {
    InnerPrints();
    assert IsClass("bold");
    assert LOSING == Span(["bold"], INNER, Empty);
  }

  lemma LosingEvents()
    ensures Events(LOSING, DEFAULT_STYLE) ==
      [Pushed(BOLD)] + ([Pushed(BOLD_FAINT)]
        + ([Visible('x')] + ([Popped(BOLD)] + ([Visible('y')] + [Popped(DEFAULT_STYLE)]))))
  {
    assert ["bold"][1..] == [] && ["faint"][1..] == [];
    assert WithClasses(DEFAULT_STYLE, ["bold"]) == BOLD && WithClasses(BOLD, ["faint"]) == BOLD_FAINT;
  }

  /** The failing case in markup: the bold of `y` is lost. */
  lemma BoldIsLostInMarkup()
    ensures WellFormed(LOSING) && Print(LOSING) == ".bold[.faint[x]y]"
    ensures !BoldKept(DEFAULT_STYLE, false, Events(LOSING, DEFAULT_STYLE))
  {
    LosingPrints();
    LosingEvents();
    FaintUnderBoldIsLost();
    if BoldKept(DEFAULT_STYLE, false, Events(LOSING, DEFAULT_STYLE)) {
      var y := [Visible('y')] + [Popped(DEFAULT_STYLE)];
      var pop := [Popped(BOLD)] + y;
      var x := [Visible('x')] + pop;
      KeptTail(DEFAULT_STYLE, false, Pushed(BOLD), [Pushed(BOLD_FAINT)] + x);
      var first := LostAfter(false, BOLD, DEFAULT_STYLE);
      KeptTail(BOLD, first, Pushed(BOLD_FAINT), x);
      var second := LostAfter(first, BOLD_FAINT, BOLD);
      KeptTail(BOLD_FAINT, second, Visible('x'), pop);
      KeptTail(BOLD_FAINT, second, Popped(BOLD), y);
      KeptTail(BOLD, LostAfter(second, BOLD, BOLD_FAINT), Visible('y'), [Popped(DEFAULT_STYLE)]);
      assert false;
    }
  }

  // -- Strike lost to an unspecified colour -----------------------------------------------------

  const STRIKE := DEFAULT_STYLE.(strike := true)
  const STRAY := STRIKE.(fgColor := Unspecified)

  /** `.strike.unspecified[x]` */
  const STRUCK := Span(["strike", "unspecified"], Char('x', Empty), Empty)

  /** The failing case in markup: `x` is shown without its strike. */
  lemma StrikeIsLostInMarkup()
    ensures WellFormed(STRUCK) && Print(STRUCK) == ".strike.unspecified[x]"
    ensures Actual(true, RESET, DEFAULT_STYLE, Events(STRUCK, DEFAULT_STYLE)) == [Cell('x', RESET)]
  {
    StruckPrints();
    StruckEvents();
    StruckShows([Popped(DEFAULT_STYLE)]);
  }

  lemma StruckShows(closing: seq<Event>)
    requires closing == [Popped(DEFAULT_STYLE)]
    ensures Actual(true, RESET, DEFAULT_STYLE, [Pushed(STRAY)] + ([Visible('x')] + closing)) == [Cell('x', RESET)]
  {
    StrayLook();
    ActualNext(true, RESET, DEFAULT_STYLE, Pushed(STRAY), [Visible('x')] + closing);
    ActualNext(true, RESET, STRAY, Visible('x'), closing);
    NothingShown(true, RESET, STRAY, Popped(DEFAULT_STYLE));
    NothingBefore([Cell('x', RESET)]);
    NothingAfter([Cell('x', RESET)]);
  }

  lemma ActualNext(doStyle: bool, look: Rendition, prev: TextStyle, e: Event, more: seq<Event>)
    ensures Actual(doStyle, look, prev, [e] + more) ==
      Glyph(e, look) + Actual(doStyle, LookThen(doStyle, look, prev, e), PutAfter(doStyle, prev, e), more)
  {
    ConsTail(e, more);
  }

  lemma NothingShown(doStyle: bool, look: Rendition, prev: TextStyle, e: Event)
    requires !e.Visible?
    ensures Actual(doStyle, look, prev, [e]) == []
  {
    NothingAfter([e]);
    ActualNext(doStyle, look, prev, e, []);
  }

  lemma StruckPrints()
    ensures WellFormed(STRUCK) && Print(STRUCK) == ".strike.unspecified[x]"
  {
    StruckClasses();
    StruckInner();
    assert STRUCK == Span(["strike", "unspecified"], Char('x', Empty), Empty);
  }

  lemma StruckClasses()
    ensures IsClass("strike") && IsClass("unspecified")
    ensures Join(["strike", "unspecified"]) == "strike.unspecified"
  {
    assert ["strike", "unspecified"][1..] == ["unspecified"];
  }

  lemma StruckInner()
    ensures WellFormed(Char('x', Empty)) && Print(Char('x', Empty)) == "x"
  {
    assert PrintChar('x') == "x";
    NothingAfter("x");
  }

  lemma StruckEvents()
    ensures Events(STRUCK, DEFAULT_STYLE) == [Pushed(STRAY)] + ([Visible('x')] + [Popped(DEFAULT_STYLE)])
  {
    assert ["strike", "unspecified"][1..] == ["unspecified"] && ["unspecified"][1..] == [];
    assert WithClasses(STRIKE, ["unspecified"]) == STRAY;
    assert WithClasses(DEFAULT_STYLE, ["strike", "unspecified"]) == STRAY;
  }

  lemma StrayLook()
    ensures LookAfter(RESET, STRAY, DEFAULT_STYLE) == RESET
  {
    StrikeAfter(RESET, STRAY, DEFAULT_STYLE);
  }
}
