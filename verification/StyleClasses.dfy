/** What the style classes look like, by their names: the cells that forced rendering shows for nested markup. */
module StyleClasses {
  import opened Sequences
  import opened Wrappers
  import opened Terminal
  import opened TextWriter
  import opened StyleMarkup
  import opened StyledScreen
  import opened Styled

  /** The place of a colour in the palette of the terminal. */
  function Number(cls: string): Option<nat> {
    if cls == "black" then Some(0)
    else if cls == "red" then Some(1)
    else if cls == "green" then Some(2)
    else if cls == "yellow" then Some(3)
    else if cls == "blue" then Some(4)
    else if cls == "magent" then Some(5)
    else if cls == "cyan" then Some(6)
    else if cls == "white" then Some(7)
    else None
  }

  predicate IsColor(cls: string) {
    cls == "normal" || Number(cls).Some?
  }

  /** All classes but `unspecified`. */
  predicate IsName(cls: string) {
    || IsColor(cls) || cls == "br" || cls == "bold" || cls == "faint" || cls == "italic" || cls == "underline"
    || cls == "reverse" || cls == "strike"
  }

  /** The last class that names a colour. */
  function LastColor(classes: seq<string>): Option<string> {
    if classes == [] then None
    else
      var later := LastColor(classes[1..]);
      if later.None? && IsColor(classes[0]) then Some(classes[0]) else later
  }

  function FgOf(color: Option<string>, bright: bool): Ink {
    if color.None? || Number(color.value).None? then Default
    else if bright then Bright(Number(color.value).value)
    else Basic(Number(color.value).value)
  }

  /** What text looks like inside these classes, outermost first. */
  function ClassLook(classes: seq<string>): Rendition {
    Rendition(FgOf(LastColor(classes), "br" in classes), Default, "bold" in classes, "faint" in classes,
              "italic" in classes, if "underline" in classes then Single else Plain, "reverse" in classes,
              "strike" in classes)
  }

  predicate Named(m: Markup) {
    match m
    case Empty => true
    case Char(c, rest) => c != ESC && Named(rest)
    case Span(classes, inner, rest) =>
      classes != [] && (forall cls | cls in classes :: IsName(cls)) && Named(inner) && Named(rest)
  }

  /** Every character in the look of all the classes around it. */
  function MarkupCells(m: Markup, classes: seq<string>): seq<Cell> {
    match m
    case Empty => []
    case Char(c, rest) => [Cell(c, ClassLook(classes))] + MarkupCells(rest, classes)
    case Span(more, inner, rest) => MarkupCells(inner, classes + more) + MarkupCells(rest, classes)
  }

  // -- One class -------------------------------------------------------------------------------

  lemma ColorIsNamed(cls: string)
    ensures IsColor(cls) ==> ColorNamed(cls).Some? && ColorNamed(cls).value != Unspecified
    ensures Number(cls).Some? ==>
      ColorNamed(cls).value != Normal && ColorValue(ColorNamed(cls).value) == Number(cls).value
    ensures cls == "normal" ==> ColorNamed(cls) == Some(Normal) && Number(cls).None?
  {}

  lemma OthersAreNoColors(cls: string)
    requires IsName(cls) && !IsColor(cls)
    ensures ColorNamed(cls).None?
  {}

  /** A style with one class more. */
  function Marked(style: TextStyle, cls: string): TextStyle {
    style.(fgColor := if IsColor(cls) && ColorNamed(cls).Some? then ColorNamed(cls).value else style.fgColor,
           bright := style.bright || cls == "br", bold := style.bold || cls == "bold",
           faint := style.faint || cls == "faint", italic := style.italic || cls == "italic",
           underline := style.underline || cls == "underline", reverse := style.reverse || cls == "reverse",
           strike := style.strike || cls == "strike")
  }

  lemma ColorMarks(style: TextStyle, cls: string)
    requires IsColor(cls)
    ensures ApplyClass(style, cls) == Some(Marked(style, cls))
  {
    ColorIsNamed(cls);
  }

  lemma AttributeMarks(style: TextStyle, cls: string)
    requires IsName(cls) && !IsColor(cls)
    ensures ApplyClass(style, cls) == Some(Marked(style, cls))
  {
    OthersAreNoColors(cls);
  }

  lemma NameMarks(style: TextStyle, cls: string)
    requires IsName(cls)
    ensures ApplyClass(style, cls) == Some(Marked(style, cls))
  {
    if IsColor(cls) {
      ColorMarks(style, cls);
    } else {
      AttributeMarks(style, cls);
    }
  }

  // -- Lists of classes ------------------------------------------------------------------------

  lemma {:induction false} LastColorIsColor(classes: seq<string>)
    ensures LastColor(classes).Some? ==> IsColor(LastColor(classes).value)
  {
    if classes != [] {
      LastColorIsColor(classes[1..]);
    }
  }

  lemma {:induction false} ClassesMark(style: TextStyle, classes: seq<string>)
    requires forall cls | cls in classes :: IsName(cls)
    ensures var s := WithClasses(style, classes);
      && s.bgColor == style.bgColor
      && s.fgColor == (match LastColor(classes)
                       case None => style.fgColor
                       case Some(cls) => if ColorNamed(cls).Some? then ColorNamed(cls).value else style.fgColor)
      && s.bright == (style.bright || "br" in classes) && s.bold == (style.bold || "bold" in classes)
      && s.faint == (style.faint || "faint" in classes) && s.italic == (style.italic || "italic" in classes)
      && s.underline == (style.underline || "underline" in classes)
      && s.reverse == (style.reverse || "reverse" in classes) && s.strike == (style.strike || "strike" in classes)
    decreases |classes|
  {
    if classes != [] {
      var cls, more := classes[0], classes[1..];
      assert cls in classes;
      NameMarks(style, cls);
      ClassesMark(Marked(style, cls), more);
      ColorIsNamed(cls);
      LastColorIsColor(more);
      if LastColor(more).Some? {
        ColorIsNamed(LastColor(more).value);
      }
      InFirstOrRest(classes);
    }
  }

  lemma InFirstOrRest(classes: seq<string>)
    requires classes != []
    ensures forall cls :: cls in classes <==> cls == classes[0] || cls in classes[1..]
  {
    HeadTail(classes);
  }

  /** The look of the style that a list of classes makes. */
  lemma ClassesLook(classes: seq<string>)
    requires forall cls | cls in classes :: IsName(cls)
    ensures var s := WithClasses(DEFAULT_STYLE, classes); Specified(s) && Shows(s) == ClassLook(classes)
  {
    ClassesMark(DEFAULT_STYLE, classes);
    LastColorIsColor(classes);
    if LastColor(classes).Some? {
      ColorIsNamed(LastColor(classes).value);
    }
  }

  lemma {:induction false} ClassesConcat(style: TextStyle, a: seq<string>, b: seq<string>)
    ensures WithClasses(style, a + b) == WithClasses(WithClasses(style, a), b)
    decreases |a|
  {
    if a == [] {
      NothingBefore(b);
    } else {
      HeadTail(a);
      Associate([a[0]], a[1..], b);
      ConsTail(a[0], a[1..] + b);
      var next := ApplyClass(style, a[0]);
      ClassesConcat(if next.Some? then next.value else style, a[1..], b);
    }
  }

  // -- Nested markup ---------------------------------------------------------------------------

  predicate AllNames(classes: seq<string>) {
    forall cls | cls in classes :: IsName(cls)
  }

  /** The events of markup inside `classes` have specified styles and no escape characters. */
  lemma {:induction false} EventsAreShowable(m: Markup, classes: seq<string>)
    requires Named(m) && AllNames(classes)
    ensures var events := Events(m, WithClasses(DEFAULT_STYLE, classes)); AllSpecified(events) && NoEscapes(events)
    decreases m
  {
    var style := WithClasses(DEFAULT_STYLE, classes);
    ClassesLook(classes);
    match m
    case Empty =>
    case Char(c, rest) =>
      EventsAreShowable(rest, classes);
    case Span(more, inner, rest) =>
      ClassesConcat(DEFAULT_STYLE, classes, more);
      ClassesLook(classes + more);
      EventsAreShowable(inner, classes + more);
      EventsAreShowable(rest, classes);
  }

  lemma IntendedNext(style: TextStyle, e: Event, more: seq<Event>)
    requires Specified(style) && AllSpecified([e] + more)
    ensures Specified(StyleAfter(style, e)) && AllSpecified(more)
    ensures Intended(style, [e] + more) == Glyph(e, Shows(style)) + Intended(StyleAfter(style, e), more)
  {
    ConsTail(e, more);
    SpecifiedAfter(style, [e] + more);
  }

  lemma SpecifiedParts(a: seq<Event>, b: seq<Event>)
    ensures AllSpecified(a + b) <==> AllSpecified(a) && AllSpecified(b)
  {
    forall e ensures e in a + b <==> e in a || e in b {}
  }

  /** The intended cells of markup, and then of what follows it. */
  lemma {:induction false} IntendedCells(m: Markup, classes: seq<string>, more: seq<Event>)
    requires Named(m) && AllNames(classes) && AllSpecified(more)
    ensures var style := WithClasses(DEFAULT_STYLE, classes);
      && Specified(style) && AllSpecified(Events(m, style) + more)
      && Intended(style, Events(m, style) + more) == MarkupCells(m, classes) + Intended(style, more)
    decreases m, 1
  {
    var style := WithClasses(DEFAULT_STYLE, classes);
    ClassesLook(classes);
    EventsAreShowable(m, classes);
    SpecifiedParts(Events(m, style), more);
    match m
    case Empty =>
      NothingBefore(more);
      NothingBefore(Intended(style, more));
    case Char(c, rest) =>
      var events := Events(rest, style);
      IntendedCells(rest, classes, more);
      Associate([Visible(c)], events, more);
      IntendedNext(style, Visible(c), events + more);
      Associate([Cell(c, ClassLook(classes))], MarkupCells(rest, classes), Intended(style, more));
    case Span(added, inner, rest) =>
      SpanCells(m, classes, more);
  }

  lemma {:induction false} SpanCells(m: Markup, classes: seq<string>, more: seq<Event>)
    requires m.Span? && Named(m) && AllNames(classes) && AllSpecified(more)
    ensures var style := WithClasses(DEFAULT_STYLE, classes);
      && Specified(style) && AllSpecified(Events(m, style) + more)
      && Intended(style, Events(m, style) + more) == MarkupCells(m, classes) + Intended(style, more)
    decreases m, 0
  {
    var added, inner, rest := m.classes, m.inner, m.rest;
    var style := WithClasses(DEFAULT_STYLE, classes);
    var within := WithClasses(style, added);
    var last := Events(rest, style) + more;
    var tail := [Popped(style)] + last;
    ClassesLook(classes);
    ClassesLook(classes + added);
    ClassesConcat(DEFAULT_STYLE, classes, added);
    IntendedCells(rest, classes, more);
    SpecifiedParts([Popped(style)], last);
    IntendedNext(within, Popped(style), last);
    IntendedCells(inner, classes + added, tail);
    SpecifiedParts([Pushed(within)], Events(inner, within) + tail);
    IntendedNext(style, Pushed(within), Events(inner, within) + tail);
    SpanEvents(within, Events(inner, within), style, Events(rest, style), more);
    NothingBefore(Intended(style, last));
    NothingBefore(Intended(within, Events(inner, within) + tail));
    Associate(MarkupCells(inner, classes + added), MarkupCells(rest, classes), Intended(style, more));
  }

  lemma SpanEvents(within: TextStyle, a: seq<Event>, style: TextStyle, b: seq<Event>, more: seq<Event>)
    ensures [Pushed(within)] + a + ([Popped(style)] + b) + more ==
      [Pushed(within)] + (a + ([Popped(style)] + (b + more)))
  {}

  /** Forced rendering of nested markup on a blank terminal shows every character in the look of all the classes
      around it, if and only if none is shown while its bold is lost. */
  lemma MarkupShows(m: Markup)
    requires Named(m) && WellFormed(m)
    ensures var r := Rendered(true, Display(Print(m), [DEFAULT_STYLE]));
      && r.Success?
      && (FeedAll(BLANK, r.value).cells == MarkupCells(m, []) <==>
          BoldKept(DEFAULT_STYLE, false, Events(m, DEFAULT_STYLE)))
  {
    var events := Events(m, DEFAULT_STYLE);
    PrintThenDisplay(m);
    EventsAreShowable(m, []);
    IntendedCells(m, [], []);
    NothingAfter(events);
    NothingAfter(MarkupCells(m, []));
    ForcedShows(events);
  }
}
