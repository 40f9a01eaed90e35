/** The markup language of styled text: `.bold.red[text]` is `text` in bold red, and a backtick escapes the next
    character.  What a text means is a sequence of events, and nested markup prints to a text that means it. */
module StyleMarkup {
  import opened Sequences
  import opened Wrappers
  import opened TextWriter

  /** What the renderer's assertions reject, and input that ends too early. */
  datatype Fault = IncompleteEscape | BadClass(cls: string) | UnclosedClasses

  // -- Style classes ---------------------------------------------------------------------------

  function ColorNamed(cls: string): Option<StdColor> {
    if cls == "unspecified" then Some(Unspecified)
    else if cls == "black" then Some(Black)
    else if cls == "red" then Some(Red)
    else if cls == "green" then Some(Green)
    else if cls == "yellow" then Some(Yellow)
    else if cls == "blue" then Some(Blue)
    else if cls == "magent" then Some(Magent)
    else if cls == "cyan" then Some(Cyan)
    else if cls == "white" then Some(White)
    else if cls == "normal" then Some(Normal)
    else None
  }

  function ApplyClass(style: TextStyle, cls: string): Option<TextStyle> {
    var color := ColorNamed(cls);
    if color.Some? then Some(style.(fgColor := color.value))
    else if cls == "bold" then Some(style.(bold := true))
    else if cls == "faint" then Some(style.(faint := true))
    else if cls == "italic" then Some(style.(italic := true))
    else if cls == "underline" then Some(style.(underline := true))
    else if cls == "reverse" then Some(style.(reverse := true))
    else if cls == "strike" then Some(style.(strike := true))
    else if cls == "br" then Some(style.(bright := true))
    else None
  }

  datatype Opened = Opened(style: TextStyle, rest: string)

  /** Reads the classes up to the opening bracket; `cls` is the part of the current class that has been read.  The
      character after a dot is taken into the next class unseen. */
  function ReadStyle(cls: string, s: string, style: TextStyle): (r: Result<Opened, Fault>)
    ensures r.Success? ==> |r.value.rest| < |s|
    decreases |s|
  {
    if s == "" then Failure(UnclosedClasses)
    else if s[0] == '[' || s[0] == '.' then
      match ApplyClass(style, cls)
      case None => Failure(BadClass(cls))
      case Some(next) =>
        if s[0] == '[' then Success(Opened(next, s[1..]))
        else if |s| == 1 then Failure(UnclosedClasses)
        else ReadStyle([s[1]], s[2..], next)
    else ReadStyle(cls + [s[0]], s[1..], style)
  }

  // -- What a text means -----------------------------------------------------------------------

  predicate IsAlpha(c: char) {
    'a' <= c <= 'z' || 'A' <= c <= 'Z'
  }

  datatype Event = Visible(c: char) | Pushed(style: TextStyle) | Popped(style: TextStyle)

  type Meaning = Result<seq<Event>, Fault>

  type Stack = s: seq<TextStyle> | s != [] witness [DEFAULT_STYLE]

  function Top(stack: Stack): TextStyle {
    stack[|stack| - 1]
  }

  function Prefixed(events: seq<Event>, rest: Meaning): Meaning {
    if rest.Failure? then rest else Success(events + rest.value)
  }

  /** The characters that become visible, and the styles that come to the top of the stack. */
  function Display(s: string, stack: Stack): Meaning
    decreases |s|
  {
    if s == "" then Success([])
    else if s[0] == '`' then
      if |s| == 1 then Failure(IncompleteEscape)
      else Prefixed([Visible(s[1])], Display(s[2..], stack))
    else if s[0] == '.' && |s| > 1 && IsAlpha(s[1]) then
      match ReadStyle("", s[1..], Top(stack))
      case Failure(f) => Failure(f)
      case Success(o) => Prefixed([Pushed(o.style)], Display(o.rest, stack + [o.style]))
    else if s[0] == ']' && |stack| > 1 then
      var below := stack[..|stack| - 1];
      Prefixed([Popped(Top(below))], Display(s[1..], below))
    else Prefixed([Visible(s[0])], Display(s[1..], stack))
  }

  lemma PrefixedTwice(a: seq<Event>, b: seq<Event>, rest: Meaning)
    ensures Prefixed(a, Prefixed(b, rest)) == Prefixed(a + b, rest)
  {
    if rest.Success? {
      assert a + (b + rest.value) == a + b + rest.value;
    }
  }

  lemma PrefixedNothing(rest: Meaning)
    ensures Prefixed([], rest) == rest
  {
    if rest.Success? {
      assert [] + rest.value == rest.value;
    }
  }

  // -- Nested markup ---------------------------------------------------------------------------

  /** A list of characters and of spans in some style, which contain markup again. */
  datatype Markup = Empty | Char(c: char, rest: Markup) | Span(classes: seq<string>, inner: Markup, rest: Markup)

  predicate IsClass(cls: string) {
    ApplyClass(DEFAULT_STYLE, cls).Some?
  }

  predicate WellFormed(m: Markup) {
    match m
    case Empty => true
    case Char(_, rest) => WellFormed(rest)
    case Span(classes, inner, rest) =>
      classes != [] && (forall cls | cls in classes :: IsClass(cls)) && WellFormed(inner) && WellFormed(rest)
  }

  /** A style with classes added, in order. */
  function WithClasses(style: TextStyle, classes: seq<string>): TextStyle
    decreases |classes|
  {
    if classes == [] then style
    else
      var next := ApplyClass(style, classes[0]);
      WithClasses(if next.Some? then next.value else style, classes[1..])
  }

  /** Inside a span its style is on top, and after it the surrounding one again. */
  function Events(m: Markup, style: TextStyle): seq<Event> {
    match m
    case Empty => []
    case Char(c, rest) => [Visible(c)] + Events(rest, style)
    case Span(classes, inner, rest) =>
      var within := WithClasses(style, classes);
      [Pushed(within)] + Events(inner, within) + ([Popped(style)] + Events(rest, style))
  }

  function Join(classes: seq<string>): string
    requires classes != []
  {
    if |classes| == 1 then classes[0] else classes[0] + ("." + Join(classes[1..]))
  }

  function PrintChar(c: char): string {
    if c == '`' || c == '.' || c == ']' then ['`', c] else [c]
  }

  function Print(m: Markup): string
    requires WellFormed(m)
  {
    match m
    case Empty => ""
    case Char(c, rest) => PrintChar(c) + Print(rest)
    case Span(classes, inner, rest) => "." + Join(classes) + "[" + Print(inner) + "]" + Print(rest)
  }

  // -- Printed markup means what it nests ------------------------------------------------------

  predicate PlainClass(cls: string) {
    cls != "" && IsAlpha(cls[0]) && '[' !in cls && '.' !in cls
  }

  lemma ClassesArePlain(cls: string, style: TextStyle)
    requires IsClass(cls)
    ensures PlainClass(cls) && ApplyClass(style, cls).Some?
  {
    if ColorNamed(cls).Some? {
      ColorsArePlain(cls);
    }
  }

  lemma ColorsArePlain(cls: string)
    requires ColorNamed(cls).Some?
    ensures PlainClass(cls)
  {}

  /** The characters of a class are gathered one by one. */
  lemma {:induction false} ReadWord(cls: string, word: string, s: string, style: TextStyle)
    requires '[' !in word && '.' !in word
    ensures ReadStyle(cls, word + s, style) == ReadStyle(cls + word, s, style)
    decreases |word|
  {
    if word == "" {
      assert word + s == s && cls + word == cls;
    } else {
      assert word == [word[0]] + word[1..];
      Associate([word[0]], word[1..], s);
      ConsTail(word[0], word[1..] + s);
      ReadWord(cls + [word[0]], word[1..], s, style);
      Associate(cls, [word[0]], word[1..]);
    }
  }

  /** What follows the first of the printed classes. */
  function MoreClasses(classes: seq<string>, tail: string): string
    requires classes != []
  {
    if |classes| == 1 then "[" + tail else "." + (Join(classes[1..]) + ("[" + tail))
  }

  lemma JoinedClasses(classes: seq<string>, tail: string)
    requires classes != []
    ensures Join(classes) + ("[" + tail) == classes[0] + MoreClasses(classes, tail)
  {
    if |classes| > 1 {
      Associate(classes[0], "." + Join(classes[1..]), "[" + tail);
      Associate(".", Join(classes[1..]), "[" + tail);
    }
  }

  lemma {:induction false} ReadPrinted(classes: seq<string>, tail: string, style: TextStyle)
    requires classes != [] && forall cls | cls in classes :: IsClass(cls)
    ensures ReadStyle(classes[0], MoreClasses(classes, tail), style) ==
      Success(Opened(WithClasses(style, classes), tail))
    decreases |classes|
  {
    var s := MoreClasses(classes, tail);
    ClassesArePlain(classes[0], style);
    var next := ApplyClass(style, classes[0]).value;
    if |classes| == 1 {
      ConsTail('[', tail);
      assert classes[1..] == [];
    } else {
      var more := classes[1..];
      var word, after := more[0], MoreClasses(more, tail);
      assert word in classes;
      ClassesArePlain(word, style);
      JoinedClasses(more, tail);
      assert word == [word[0]] + word[1..];
      Associate([word[0]], word[1..], after);
      ConsTail('.', word + after);
      ConsTail(word[0], word[1..] + after);
      assert s == "." + (word + after) && s[1] == word[0] && s[2..] == word[1..] + after;
      ReadWord([word[0]], word[1..], after, next);
      ReadPrinted(more, tail, next);
    }
  }

  lemma OpeningIsRead(classes: seq<string>, tail: string, style: TextStyle)
    requires classes != [] && forall cls | cls in classes :: IsClass(cls)
    ensures var s := Join(classes) + ("[" + tail);
      && s != "" && IsAlpha(s[0])
      && ReadStyle("", s, style) == Success(Opened(WithClasses(style, classes), tail))
  {
    JoinedClasses(classes, tail);
    ClassesArePlain(classes[0], style);
    ReadWord("", classes[0], MoreClasses(classes, tail), style);
    assert "" + classes[0] == classes[0];
    ReadPrinted(classes, tail, style);
  }

  lemma CharIsShown(c: char, s: string, stack: Stack)
    ensures Display(PrintChar(c) + s, stack) == Prefixed([Visible(c)], Display(s, stack))
  {
    var text := PrintChar(c) + s;
    if c == '`' || c == '.' || c == ']' {
      assert text[0] == '`' && text[1] == c && text[2..] == s;
    } else {
      assert text[0] == c && text[1..] == s;
    }
  }

  lemma SpanText(classes: seq<string>, inner: string, rest: string, more: string)
    requires classes != []
    ensures "." + Join(classes) + "[" + inner + "]" + rest + more ==
      "." + (Join(classes) + ("[" + (inner + ("]" + (rest + more)))))
  {}

  /** Whatever follows it, printed markup shows its characters in the styles that they are nested in. */
  lemma {:induction false} PrintedMeans(m: Markup, more: string, stack: Stack)
    requires WellFormed(m)
    ensures Display(Print(m) + more, stack) == Prefixed(Events(m, Top(stack)), Display(more, stack))
    decreases m
  {
    match m
    case Empty =>
      assert "" + more == more;
      PrefixedNothing(Display(more, stack));
    case Char(c, rest) =>
      Associate(PrintChar(c), Print(rest), more);
      CharIsShown(c, Print(rest) + more, stack);
      PrintedMeans(rest, more, stack);
      PrefixedTwice([Visible(c)], Events(rest, Top(stack)), Display(more, stack));
    case Span(classes, inner, rest) =>
      var within := WithClasses(Top(stack), classes);
      var after := Print(rest) + more;
      SpanText(classes, Print(inner), Print(rest), more);
      OpeningIsRead(classes, Print(inner) + ("]" + after), Top(stack));
      ConsTail('.', Join(classes) + ("[" + (Print(inner) + ("]" + after))));
      PrintedMeans(inner, "]" + after, stack + [within]);
      ClosingPops("]" + after, stack, within);
      ConsTail(']', after);
      PrintedMeans(rest, more, stack);
      Nested(within, Events(inner, within), Top(stack), Events(rest, Top(stack)), Display(more, stack));
  }

  lemma ClosingPops(s: string, stack: Stack, style: TextStyle)
    requires s != "" && s[0] == ']'
    ensures Display(s, stack + [style]) == Prefixed([Popped(Top(stack))], Display(s[1..], stack))
  {
    assert (stack + [style])[..|stack|] == stack;
  }

  lemma Nested(within: TextStyle, a: seq<Event>, style: TextStyle, b: seq<Event>, rest: Meaning)
    ensures Prefixed([Pushed(within)], Prefixed(a, Prefixed([Popped(style)], Prefixed(b, rest)))) ==
      Prefixed([Pushed(within)] + a + ([Popped(style)] + b), rest)
  {
    PrefixedTwice([Popped(style)], b, rest);
    PrefixedTwice(a, [Popped(style)] + b, rest);
    PrefixedTwice([Pushed(within)], a + ([Popped(style)] + b), rest);
    assert [Pushed(within)] + (a + ([Popped(style)] + b)) == [Pushed(within)] + a + ([Popped(style)] + b);
  }

  /** The whole text of printed markup. */
  lemma PrintThenDisplay(m: Markup)
    requires WellFormed(m)
    ensures Display(Print(m), [DEFAULT_STYLE]) == Success(Events(m, DEFAULT_STYLE))
  {
    PrintedMeans(m, "", [DEFAULT_STYLE]);
    assert Print(m) + "" == Print(m);
    assert Events(m, DEFAULT_STYLE) + [] == Events(m, DEFAULT_STYLE);
  }
}
