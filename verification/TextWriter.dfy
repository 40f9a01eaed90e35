/** The writer that turns a change of style into an SGR sequence, choosing the shorter of two encodings. */
module TextWriter {
  import opened Sequences
  import opened Terminal

  datatype StdColor = Unspecified | Black | Red | Green | Yellow | Blue | Magent | Cyan | White | Normal

  datatype TextStyle = TextStyle(fgColor: StdColor, bgColor: StdColor, bright: bool, bold: bool, faint: bool,
                                 italic: bool, underline: bool, reverse: bool, strike: bool)

  const DEFAULT_STYLE := TextStyle(Normal, Normal, false, false, false, false, false, false, false)

  function ColorValue(col: StdColor): int {
    match col
    case Unspecified => -1
    case Black => 0
    case Red => 1
    case Green => 2
    case Yellow => 3
    case Blue => 4
    case Magent => 5
    case Cyan => 6
    case White => 7
    case Normal => 9
  }

  function CodeForColor(col: StdColor, bright: bool): nat {
    30 + ColorValue(col) + if bright && col != Normal then 60 else 0
  }

  predicate Specified(s: TextStyle) {
    s.fgColor != Unspecified && s.bgColor != Unspecified
  }

  // -- What a style looks like -----------------------------------------------------------------

  function InkOf(col: StdColor, bright: bool): Ink
    requires col != Unspecified
  {
    if col == Normal then Default
    else if bright then Bright(ColorValue(col))
    else Basic(ColorValue(col))
  }

  function Line(on: bool): Underline {
    if on then Single else Plain
  }

  /** The colours of one style, the shape of another, and some intensity. */
  function Mixed(colors: TextStyle, bold: bool, faint: bool, shape: TextStyle): Rendition
    requires Specified(colors)
  {
    Rendition(InkOf(colors.fgColor, colors.bright), InkOf(colors.bgColor, colors.bright), bold, faint,
              shape.italic, Line(shape.underline), shape.reverse, shape.strike)
  }

  /** The rendition that a style asks for. */
  function Shows(s: TextStyle): Rendition
    requires Specified(s)
  {
    Mixed(s, s.bold, s.faint, s)
  }

  // -- The two encodings -----------------------------------------------------------------------

  function Change(mine: bool, prev: bool, on: nat): seq<nat> {
    if mine == prev then [] else if mine then [on] else [on + 20]
  }

  function Enable(mine: bool, on: nat): seq<nat> {
    if mine then [on] else []
  }

  function ChangeColor(mine: nat, prev: nat): seq<nat> {
    if mine != prev then [mine] else []
  }

  function EnableColor(col: StdColor, code: nat): seq<nat> {
    if col == Normal then [] else [code]
  }

  function IntensityChanges(new_: TextStyle, prev: TextStyle): seq<nat> {
    Change(new_.bold, prev.bold, 1) + Change(new_.faint, prev.faint, 2)
  }

  function ShapeChanges(new_: TextStyle, prev: TextStyle): seq<nat> {
    Change(new_.italic, prev.italic, 3) + Change(new_.underline, prev.underline, 4)
    + Change(new_.reverse, prev.reverse, 7) + Change(new_.strike, prev.strike, 9)
  }

  function ColorChanges(new_: TextStyle, prev: TextStyle): seq<nat> {
    ChangeColor(CodeForColor(new_.fgColor, new_.bright), CodeForColor(prev.fgColor, prev.bright))
    + ChangeColor(CodeForColor(new_.bgColor, new_.bright) + 10, CodeForColor(prev.bgColor, prev.bright) + 10)
  }

  /** The codes that change only what is different. */
  function Toggles(new_: TextStyle, prev: TextStyle): seq<nat> {
    IntensityChanges(new_, prev) + ShapeChanges(new_, prev) + ColorChanges(new_, prev)
  }

  function EnableIntensity(s: TextStyle): seq<nat> {
    Enable(s.bold, 1) + Enable(s.faint, 2)
  }

  function EnableShape(s: TextStyle): seq<nat> {
    Enable(s.italic, 3) + Enable(s.underline, 4) + Enable(s.reverse, 7) + Enable(s.strike, 9)
  }

  function EnableColors(s: TextStyle): seq<nat> {
    EnableColor(s.fgColor, CodeForColor(s.fgColor, s.bright))
    + EnableColor(s.bgColor, CodeForColor(s.bgColor, s.bright) + 10)
  }

  /** The styles are spelled alike: nothing has to be put out between them. */
  predicate SameCodes(a: TextStyle, b: TextStyle) {
    && a.bold == b.bold && a.faint == b.faint && a.italic == b.italic && a.underline == b.underline
    && a.reverse == b.reverse && a.strike == b.strike
    && CodeForColor(a.fgColor, a.bright) == CodeForColor(b.fgColor, b.bright)
    && CodeForColor(a.bgColor, a.bright) == CodeForColor(b.bgColor, b.bright)
  }

  lemma NothingToggled(new_: TextStyle, prev: TextStyle)
    ensures Toggles(new_, prev) == [] <==> SameCodes(new_, prev)
  {
    if !SameCodes(new_, prev) {
      assert IntensityChanges(new_, prev) != [] || ShapeChanges(new_, prev) != [] || ColorChanges(new_, prev) != [];
    }
  }

  /** The codes that start over from the default. */
  function Restart(new_: TextStyle): seq<nat> {
    [0] + EnableIntensity(new_) + EnableShape(new_) + EnableColors(new_)
  }

  /** Starting over is chosen when bold is dropped or when the changes are longer to spell. */
  predicate StartsOver(new_: TextStyle, prev: TextStyle) {
    (prev.bold && !new_.bold) || |Spell(Toggles(new_, prev))| > |Spell(Restart(new_))|
  }

  function Emission(new_: TextStyle, prev: TextStyle): string {
    if Toggles(new_, prev) == [] then ""
    else Sequence(if StartsOver(new_, prev) then Restart(new_) else Toggles(new_, prev))
  }

  class TextWriter {
    var buf: string
    var style: TextStyle

    constructor ()
      ensures buf == "" && style == DEFAULT_STYLE
    {
      buf, style := "", DEFAULT_STYLE;
    }

    method Write(text: string)
      modifies this`buf
      ensures buf == old(buf) + text
    {
      buf := buf + text;
    }

    method Putc(c: char)
      modifies this`buf
      ensures buf == old(buf) + [c]
    {
      buf := buf + [c];
    }

    method PutStyle(newStyle: TextStyle)
      modifies this
      ensures style == newStyle
      ensures buf == old(buf) + Emission(newStyle, old(style))
    {
      var prev := style;
      var pending := new Pending();
      pending.AppendIntensity(newStyle, prev);
      pending.AppendShape(newStyle, prev);
      pending.AppendColors(newStyle, prev);
      SpellEmpty(pending.toggles);
      if pending.setToggles == "" {
        assert buf + "" == buf;
      } else if pending.unbold || |pending.setToggles| > |pending.resetThenEnable| {
        buf := buf + ([ESC, '['] + pending.resetThenEnable + "m");
      } else {
        buf := buf + ([ESC, '['] + pending.setToggles + "m");
      }
      style := newStyle;
    }
  }

  /** The two encodings under construction, as text and as the codes that the text spells. */
  class Pending {
    var setToggles: string
    var resetThenEnable: string
    var unbold: bool
    ghost var toggles: seq<nat>
    ghost var restart: seq<nat>

    ghost predicate Valid()
      reads this
    {
      setToggles == Spell(toggles) && resetThenEnable == Spell(restart)
    }

    constructor ()
      ensures Valid() && toggles == [] && restart == [0] && !unbold
    {
      setToggles, resetThenEnable, unbold := "", "0", false;
      toggles, restart := [], [0];
    }

    method AppendToggle(mine: bool, prev: bool, on: nat)
      requires Valid()
      modifies this
      ensures Valid()
      ensures toggles == old(toggles) + Change(mine, prev, on) && restart == old(restart) + Enable(mine, on)
      ensures unbold == (old(unbold) || (on == 1 && prev && !mine))
    {
      var off := on + 20;
      if !mine {
        if prev != mine {
          setToggles := AppendInt(setToggles, off, toggles);
          toggles := toggles + [off];
          if off == 21 {
            unbold := true;
          }
        }
      } else {
        resetThenEnable := AppendInt(resetThenEnable, on, restart);
        restart := restart + [on];
        if prev != mine {
          setToggles := AppendInt(setToggles, on, toggles);
          toggles := toggles + [on];
        }
      }
    }

    method AppendColor(col: StdColor, code: nat, prevCode: nat)
      requires Valid()
      modifies this
      ensures Valid() && unbold == old(unbold)
      ensures toggles == old(toggles) + ChangeColor(code, prevCode)
      ensures restart == old(restart) + EnableColor(col, code)
    {
      if col == Normal {
        if code != prevCode {
          setToggles := AppendInt(setToggles, code, toggles);
          toggles := toggles + [code];
        }
      } else {
        resetThenEnable := AppendInt(resetThenEnable, code, restart);
        restart := restart + [code];
        if code != prevCode {
          setToggles := AppendInt(setToggles, code, toggles);
          toggles := toggles + [code];
        }
      }
    }

    method AppendIntensity(new_: TextStyle, prev: TextStyle)
      requires Valid() && toggles == [] && restart == [0] && !unbold
      modifies this
      ensures Valid() && toggles == IntensityChanges(new_, prev) && restart == [0] + EnableIntensity(new_)
      ensures unbold == (prev.bold && !new_.bold)
    {
      AppendToggle(new_.bold, prev.bold, 1);
      AppendToggle(new_.faint, prev.faint, 2);
      Associate([0], Enable(new_.bold, 1), Enable(new_.faint, 2));
    }

    method AppendShape(new_: TextStyle, prev: TextStyle)
      requires Valid()
      modifies this
      ensures Valid() && unbold == old(unbold)
      ensures toggles == old(toggles) + ShapeChanges(new_, prev) && restart == old(restart) + EnableShape(new_)
    {
      AppendToggle(new_.italic, prev.italic, 3);
      AppendToggle(new_.underline, prev.underline, 4);
      AppendToggle(new_.reverse, prev.reverse, 7);
      AppendToggle(new_.strike, prev.strike, 9);
      AssociateFour(old(toggles), Change(new_.italic, prev.italic, 3), Change(new_.underline, prev.underline, 4),
                    Change(new_.reverse, prev.reverse, 7), Change(new_.strike, prev.strike, 9));
      AssociateFour(old(restart), Enable(new_.italic, 3), Enable(new_.underline, 4),
                    Enable(new_.reverse, 7), Enable(new_.strike, 9));
    }

    method AppendColors(new_: TextStyle, prev: TextStyle)
      requires Valid()
      modifies this
      ensures Valid() && unbold == old(unbold)
      ensures toggles == old(toggles) + ColorChanges(new_, prev) && restart == old(restart) + EnableColors(new_)
    {
      var fg := CodeForColor(new_.fgColor, new_.bright);
      var bg := CodeForColor(new_.bgColor, new_.bright) + 10;
      var prevFg := CodeForColor(prev.fgColor, prev.bright);
      var prevBg := CodeForColor(prev.bgColor, prev.bright) + 10;
      AppendColor(new_.fgColor, fg, prevFg);
      AppendColor(new_.bgColor, bg, prevBg);
      Associate(old(toggles), ChangeColor(fg, prevFg), ChangeColor(bg, prevBg));
      Associate(old(restart), EnableColor(new_.fgColor, fg), EnableColor(new_.bgColor, bg));
    }
  }

  lemma AssociateFour(a: seq<nat>, b: seq<nat>, c: seq<nat>, d: seq<nat>, e: seq<nat>)
    ensures a + b + c + d + e == a + (b + c + d + e)
  {}

  method AppendInt(out: string, i: nat, ghost codes: seq<nat>) returns (r: string)
    requires out == Spell(codes)
    ensures r == Spell(codes + [i])
  {
    SpellEmpty(codes);
    assert (codes + [i])[..|codes|] == codes;
    r := out;
    if r != "" {
      r := r + ";";
    }
    r := r + Decimal(i);
  }

  lemma SpellEmpty(codes: seq<nat>)
    ensures Spell(codes) == "" <==> codes == []
  {}

  // -- What the terminal makes of it -----------------------------------------------------------

  lemma SgrOne(r: Rendition, code: nat)
    ensures SgrAll(r, [code]) == Sgr(r, code)
  {
    assert [code][1..] == [];
  }

  /** The code of an unspecified colour that is not bright means something else: 29 ends strike, and 39, where the
      background is meant, brings back the default foreground. */
  predicate Stray(col: StdColor, bright: bool) {
    col == Unspecified && !bright
  }

  lemma ColorCode(col: StdColor, bright: bool, r: Rendition)
    ensures Sgr(r, CodeForColor(col, bright)) ==
      if Stray(col, bright) then r.(strike := false)
      else if col == Unspecified then r
      else r.(fg := InkOf(col, bright))
    ensures Sgr(r, CodeForColor(col, bright) + 10) ==
      if Stray(col, bright) then r.(fg := Default)
      else if col == Unspecified then r
      else r.(bg := InkOf(col, bright))
  {}

  /** Equal codes are equal inks. */
  lemma SameCode(col: StdColor, bright: bool, other: StdColor, otherBright: bool)
    requires CodeForColor(col, bright) == CodeForColor(other, otherBright)
    ensures col == Unspecified <==> other == Unspecified
    ensures col != Unspecified ==> InkOf(col, bright) == InkOf(other, otherBright)
  {}

  // -- The effect of the changes on any look ---------------------------------------------------

  function Updated(mine: bool, prev: bool, was: bool): bool {
    if mine == prev then was else mine
  }

  /** Dropping faint ends bold too. */
  function IntensityLook(r: Rendition, new_: TextStyle, prev: TextStyle): Rendition {
    r.(bold := Updated(new_.bold, prev.bold, r.bold) && !(prev.faint && !new_.faint),
       faint := Updated(new_.faint, prev.faint, r.faint))
  }

  function ItalicLook(r: Rendition, new_: TextStyle, prev: TextStyle): Rendition {
    r.(italic := Updated(new_.italic, prev.italic, r.italic))
  }

  function UnderlineLook(r: Rendition, new_: TextStyle, prev: TextStyle): Rendition {
    r.(underline := if new_.underline == prev.underline then r.underline else Line(new_.underline))
  }

  function ReverseLook(r: Rendition, new_: TextStyle, prev: TextStyle): Rendition {
    r.(reverse := Updated(new_.reverse, prev.reverse, r.reverse))
  }

  function StrikeLook(r: Rendition, new_: TextStyle, prev: TextStyle): Rendition {
    r.(strike := Updated(new_.strike, prev.strike, r.strike))
  }

  function ShapeLook(r: Rendition, new_: TextStyle, prev: TextStyle): Rendition {
    StrikeLook(ReverseLook(UnderlineLook(ItalicLook(r, new_, prev), new_, prev), new_, prev), new_, prev)
  }

  predicate FgChanges(new_: TextStyle, prev: TextStyle) {
    CodeForColor(new_.fgColor, new_.bright) != CodeForColor(prev.fgColor, prev.bright)
  }

  predicate BgChanges(new_: TextStyle, prev: TextStyle) {
    CodeForColor(new_.bgColor, new_.bright) != CodeForColor(prev.bgColor, prev.bright)
  }

  function FgLook(r: Rendition, new_: TextStyle, prev: TextStyle): Rendition {
    if !FgChanges(new_, prev) then r
    else if Stray(new_.fgColor, new_.bright) then r.(strike := false)
    else if new_.fgColor == Unspecified then r
    else r.(fg := InkOf(new_.fgColor, new_.bright))
  }

  function BgLook(r: Rendition, new_: TextStyle, prev: TextStyle): Rendition {
    if !BgChanges(new_, prev) then r
    else if Stray(new_.bgColor, new_.bright) then r.(fg := Default)
    else if new_.bgColor == Unspecified then r
    else r.(bg := InkOf(new_.bgColor, new_.bright))
  }

  /** The foreground goes first: a stray background code undoes it. */
  function ColorLook(r: Rendition, new_: TextStyle, prev: TextStyle): Rendition {
    BgLook(FgLook(r, new_, prev), new_, prev)
  }

  function ToggledLook(r: Rendition, new_: TextStyle, prev: TextStyle): Rendition {
    ColorLook(ShapeLook(IntensityLook(r, new_, prev), new_, prev), new_, prev)
  }

  // Each kind of code by itself.

  lemma BoldStep(r: Rendition, mine: bool, prev: bool)
    requires !(prev && !mine)
    ensures SgrAll(r, Change(mine, prev, 1)) == r.(bold := Updated(mine, prev, r.bold))
  {
    SgrOne(r, 1);
  }

  lemma FaintStep(r: Rendition, mine: bool, prev: bool)
    ensures SgrAll(r, Change(mine, prev, 2)) ==
      r.(faint := Updated(mine, prev, r.faint), bold := r.bold && !(prev && !mine))
  {
    SgrOne(r, 2);
    SgrOne(r, 22);
  }

  lemma ItalicStep(r: Rendition, new_: TextStyle, prev: TextStyle)
    ensures SgrAll(r, Change(new_.italic, prev.italic, 3)) == ItalicLook(r, new_, prev)
  {
    SgrOne(r, 3);
    SgrOne(r, 23);
  }

  lemma UnderlineStep(r: Rendition, new_: TextStyle, prev: TextStyle)
    ensures SgrAll(r, Change(new_.underline, prev.underline, 4)) == UnderlineLook(r, new_, prev)
  {
    SgrOne(r, 4);
    SgrOne(r, 24);
  }

  lemma ReverseStep(r: Rendition, new_: TextStyle, prev: TextStyle)
    ensures SgrAll(r, Change(new_.reverse, prev.reverse, 7)) == ReverseLook(r, new_, prev)
  {
    SgrOne(r, 7);
    SgrOne(r, 27);
  }

  lemma StrikeStep(r: Rendition, new_: TextStyle, prev: TextStyle)
    ensures SgrAll(r, Change(new_.strike, prev.strike, 9)) == StrikeLook(r, new_, prev)
  {
    SgrOne(r, 9);
    SgrOne(r, 29);
  }

  lemma FgStep(r: Rendition, new_: TextStyle, prev: TextStyle)
    ensures SgrAll(r, ChangeColor(CodeForColor(new_.fgColor, new_.bright), CodeForColor(prev.fgColor, prev.bright))) ==
      FgLook(r, new_, prev)
  {
    SgrOne(r, CodeForColor(new_.fgColor, new_.bright));
    ColorCode(new_.fgColor, new_.bright, r);
  }

  lemma BgStep(r: Rendition, new_: TextStyle, prev: TextStyle)
    ensures SgrAll(r, ChangeColor(CodeForColor(new_.bgColor, new_.bright) + 10,
                                  CodeForColor(prev.bgColor, prev.bright) + 10)) ==
      BgLook(r, new_, prev)
  {
    SgrOne(r, CodeForColor(new_.bgColor, new_.bright) + 10);
    ColorCode(new_.bgColor, new_.bright, r);
  }

  lemma Compose(r: Rendition, a: seq<nat>, r1: Rendition, b: seq<nat>, r2: Rendition)
    requires SgrAll(r, a) == r1 && SgrAll(r1, b) == r2
    ensures SgrAll(r, a + b) == r2
  {
    SgrConcat(r, a, b);
  }

  lemma IntensityShows(r: Rendition, new_: TextStyle, prev: TextStyle)
    requires !(prev.bold && !new_.bold)
    ensures SgrAll(r, IntensityChanges(new_, prev)) == IntensityLook(r, new_, prev)
  {
    var r1 := r.(bold := Updated(new_.bold, prev.bold, r.bold));
    BoldStep(r, new_.bold, prev.bold);
    FaintStep(r1, new_.faint, prev.faint);
    Compose(r, Change(new_.bold, prev.bold, 1), r1, Change(new_.faint, prev.faint, 2), IntensityLook(r, new_, prev));
  }

  lemma ShapeShows(r: Rendition, new_: TextStyle, prev: TextStyle)
    ensures SgrAll(r, ShapeChanges(new_, prev)) == ShapeLook(r, new_, prev)
  {
    var italic := Change(new_.italic, prev.italic, 3);
    var lines := italic + Change(new_.underline, prev.underline, 4);
    var r1 := ItalicLook(r, new_, prev);
    var r2 := UnderlineLook(r1, new_, prev);
    var r3 := ReverseLook(r2, new_, prev);
    ItalicStep(r, new_, prev);
    UnderlineStep(r1, new_, prev);
    ReverseStep(r2, new_, prev);
    StrikeStep(r3, new_, prev);
    Compose(r, italic, r1, Change(new_.underline, prev.underline, 4), r2);
    Compose(r, lines, r2, Change(new_.reverse, prev.reverse, 7), r3);
    Compose(r, lines + Change(new_.reverse, prev.reverse, 7), r3, Change(new_.strike, prev.strike, 9),
            StrikeLook(r3, new_, prev));
  }

  lemma ColorShows(r: Rendition, new_: TextStyle, prev: TextStyle)
    ensures SgrAll(r, ColorChanges(new_, prev)) == ColorLook(r, new_, prev)
  {
    var fg, prevFg := CodeForColor(new_.fgColor, new_.bright), CodeForColor(prev.fgColor, prev.bright);
    var bg, prevBg := CodeForColor(new_.bgColor, new_.bright) + 10, CodeForColor(prev.bgColor, prev.bright) + 10;
    var r1 := FgLook(r, new_, prev);
    FgStep(r, new_, prev);
    BgStep(r1, new_, prev);
    Compose(r, ChangeColor(fg, prevFg), r1, ChangeColor(bg, prevBg), ColorLook(r, new_, prev));
  }

  /** What the toggles do to any look, for any two styles. */
  lemma TogglesShow(r: Rendition, new_: TextStyle, prev: TextStyle)
    requires !(prev.bold && !new_.bold)
    ensures SgrAll(r, Toggles(new_, prev)) == ToggledLook(r, new_, prev)
  {
    var r1 := IntensityLook(r, new_, prev);
    var r2 := ShapeLook(r1, new_, prev);
    IntensityShows(r, new_, prev);
    ShapeShows(r1, new_, prev);
    ColorShows(r2, new_, prev);
    Compose(r, IntensityChanges(new_, prev), r1, ShapeChanges(new_, prev), r2);
    Compose(r, IntensityChanges(new_, prev) + ShapeChanges(new_, prev), r2, ColorChanges(new_, prev),
            ColorLook(r2, new_, prev));
  }

  /** Enabling is changing from a style that has nothing. */
  lemma EnablesAreChanges(s: TextStyle)
    ensures EnableIntensity(s) == IntensityChanges(s, DEFAULT_STYLE)
    ensures EnableShape(s) == ShapeChanges(s, DEFAULT_STYLE)
    ensures EnableColors(s) == ColorChanges(s, DEFAULT_STYLE)
  {}

  lemma RestartIsToggles(s: TextStyle)
    ensures Restart(s) == [0] + Toggles(s, DEFAULT_STYLE)
  {
    EnablesAreChanges(s);
    Associate([0] + EnableIntensity(s), EnableShape(s), EnableColors(s));
    Associate([0], EnableIntensity(s), EnableShape(s) + EnableColors(s));
    Associate(EnableIntensity(s), EnableShape(s), EnableColors(s));
  }

  /** Starting over does not depend on what was shown before, and shows every style that has its colours specified. */
  lemma RestartShows(r: Rendition, new_: TextStyle)
    ensures SgrAll(r, Restart(new_)) == ToggledLook(RESET, new_, DEFAULT_STYLE)
    ensures Specified(new_) ==> SgrAll(r, Restart(new_)) == Shows(new_)
  {
    RestartIsToggles(new_);
    SgrConcat(r, [0], Toggles(new_, DEFAULT_STYLE));
    SgrOne(r, 0);
    TogglesShow(RESET, new_, DEFAULT_STYLE);
    if Specified(new_) {
      ToggledSpecified(new_, DEFAULT_STYLE, false);
    }
  }

  /** Between styles with specified colours, the toggles show the new style, but for bold when faint is dropped: 22 ends
      both.  Lost bold stays lost. */
  lemma ToggledSpecified(new_: TextStyle, prev: TextStyle, lost: bool)
    requires Specified(new_) && Specified(prev) && !(prev.bold && !new_.bold)
    ensures ToggledLook(LookOf(prev, lost), new_, prev) ==
      LookOf(new_, (prev.faint && !new_.faint) || (prev.bold && lost))
  {
    var bold := new_.bold && !((prev.faint && !new_.faint) || (prev.bold && lost));
    assert IntensityLook(LookOf(prev, lost), new_, prev) == Mixed(prev, bold, new_.faint, prev);
    ShapeSpecified(new_, prev, bold, new_.faint);
    ColorSpecified(new_, prev, bold, new_.faint);
  }

  lemma ShapeSpecified(new_: TextStyle, prev: TextStyle, bold: bool, faint: bool)
    requires Specified(prev)
    ensures ShapeLook(Mixed(prev, bold, faint, prev), new_, prev) == Mixed(prev, bold, faint, new_)
  {}

  lemma ColorSpecified(new_: TextStyle, prev: TextStyle, bold: bool, faint: bool)
    requires Specified(new_) && Specified(prev)
    ensures ColorLook(Mixed(prev, bold, faint, new_), new_, prev) == Mixed(new_, bold, faint, new_)
  {
    if !FgChanges(new_, prev) {
      SameCode(new_.fgColor, new_.bright, prev.fgColor, prev.bright);
    }
    if !BgChanges(new_, prev) {
      SameCode(new_.bgColor, new_.bright, prev.bgColor, prev.bright);
    }
  }

  // -- The effect of an emission ---------------------------------------------------------------

  function LookAfter(r: Rendition, new_: TextStyle, prev: TextStyle): Rendition {
    if StartsOver(new_, prev) then ToggledLook(RESET, new_, DEFAULT_STYLE) else ToggledLook(r, new_, prev)
  }

  /** The exact effect of any change of style on a terminal that shows anything: the look changes in this way, and
      nothing else does. */
  lemma EmissionLooks(screen: Screen, new_: TextStyle, prev: TextStyle)
    requires screen.mode.Text?
    ensures FeedAll(screen, Emission(new_, prev)) == screen.(look := LookAfter(screen.look, new_, prev))
  {
    DroppedIsToggled(new_, prev);
    if Toggles(new_, prev) == [] {
      SpellEmpty(Toggles(new_, prev));
      TogglesShow(screen.look, new_, prev);
    } else if StartsOver(new_, prev) {
      RestartShows(screen.look, new_);
      FeedSequence(screen, Restart(new_));
    } else {
      TogglesShow(screen.look, new_, prev);
      FeedSequence(screen, Toggles(new_, prev));
    }
  }

  /** Unless bold is dropped, the shorter encoding is put out, and the changes if both are as long. */
  lemma ShorterIsChosen(new_: TextStyle, prev: TextStyle)
    requires !(prev.bold && !new_.bold) && Toggles(new_, prev) != []
    ensures var e, changes, restart := Emission(new_, prev), Sequence(Toggles(new_, prev)), Sequence(Restart(new_));
      e == if |restart| < |changes| then restart else changes
  {}

  /** What a style looks like, when its bold may have been lost. */
  function LookOf(style: TextStyle, lost: bool): Rendition
    requires Specified(style)
  {
    Mixed(style, style.bold && !lost, style.faint, style)
  }

  /** Bold is lost when faint is dropped under it, and stays so until bold is set anew or the style starts over. */
  predicate LostAfter(lost: bool, new_: TextStyle, prev: TextStyle) {
    !StartsOver(new_, prev) && new_.bold && ((prev.faint && !new_.faint) || (prev.bold && lost))
  }

  /** While all colours are specified, bold is all that is ever lost. */
  lemma SpecifiedLooks(new_: TextStyle, prev: TextStyle, lost: bool)
    requires Specified(new_) && Specified(prev)
    ensures LookAfter(LookOf(prev, lost), new_, prev) == LookOf(new_, LostAfter(lost, new_, prev))
  {
    if StartsOver(new_, prev) {
      RestartShows(RESET, new_);
    } else {
      ToggledSpecified(new_, prev, lost);
    }
  }

  /** Faint is dropped under bold without starting over. */
  predicate LosesBold(new_: TextStyle, prev: TextStyle) {
    prev.faint && !new_.faint && new_.bold && !StartsOver(new_, prev)
  }

  /** A screen that shows the previous style shows the new one after the emission, exactly unless faint is
      dropped under bold without starting over.  Nothing else on the screen changes. */
  lemma EmissionShows(screen: Screen, new_: TextStyle, prev: TextStyle)
    requires Specified(new_) && Specified(prev)
    requires screen.mode.Text? && screen.look == Shows(prev)
    ensures FeedAll(screen, Emission(new_, prev)) == screen.(look := Shows(new_)) <==> !LosesBold(new_, prev)
  {
    EmissionLooks(screen, new_, prev);
    SpecifiedLooks(new_, prev, false);
  }

  /** An unspecified foreground that is not bright takes the strike away whenever its code is put out, and so whenever
      the style starts over; otherwise strike is shown as the style has it, or stays what it was. */
  lemma StrikeAfter(r: Rendition, new_: TextStyle, prev: TextStyle)
    ensures LookAfter(r, new_, prev).strike ==
      if Stray(new_.fgColor, new_.bright) && (StartsOver(new_, prev) || FgChanges(new_, prev)) then false
      else if StartsOver(new_, prev) || new_.strike != prev.strike then new_.strike
      else r.strike
  {
    var over := StartsOver(new_, prev);
    var start, from := if over then RESET else r, if over then DEFAULT_STYLE else prev;
    var r1 := IntensityLook(start, new_, from);
    StrikeAfterShape(r1, new_, from);
    StrikeAfterColors(ShapeLook(r1, new_, from), new_, from);
  }

  lemma StrikeAfterShape(r: Rendition, new_: TextStyle, prev: TextStyle)
    ensures ShapeLook(r, new_, prev).strike == Updated(new_.strike, prev.strike, r.strike)
  {}

  lemma StrikeAfterColors(r: Rendition, new_: TextStyle, prev: TextStyle)
    ensures ColorLook(r, new_, prev).strike ==
      (r.strike && !(FgChanges(new_, prev) && Stray(new_.fgColor, new_.bright)))
  {}

  /** Dropping bold or faint is a change. */
  lemma DroppedIsToggled(new_: TextStyle, prev: TextStyle)
    ensures (prev.bold && !new_.bold) || (prev.faint && !new_.faint) ==> Toggles(new_, prev) != []
  {
    NothingToggled(new_, prev);
  }

  /** There is such a change: from bold and faint to bold, with enough of the style kept to make starting over
      the longer encoding. */
  lemma FaintUnderBoldIsLost()
    ensures LosesBold(DEFAULT_STYLE.(bold := true), DEFAULT_STYLE.(bold := true, faint := true))
  {
    var new_, prev := DEFAULT_STYLE.(bold := true), DEFAULT_STYLE.(bold := true, faint := true);
    assert Toggles(new_, prev) == [22];
    assert Restart(new_) == [0, 1];
    assert Decimal(22) == [Digit(2)] + [Digit(2)];
    assert [0, 1][..1] == [0];
    assert |Spell([22])| == 2 && |Spell([0, 1])| == 3;
  }
}
