/** The renderer of styled text: a cursor over the input, the stack of styles, and the writer. */
module Styled {
  import opened Sequences
  import opened StyledScreen
  import opened StyleMarkup
  import opened Terminal
  import opened TextWriter
  import opened Wrappers

  /** A terminal that has shown nothing. */
  const BLANK := Screen(RESET, Text, [])

  datatype Bracket = Bracket(style: TextStyle, at: nat)

  // -- Moving cursors --------------------------------------------------------------------------

  lemma DropMore(input: string, i: nat, n: nat)
    requires i + n <= |input|
    ensures input[i..][n..] == input[i + n..]
  {}

  lemma PendingGrows(input: string, place: nat, iter: nat)
    requires place <= iter < |input|
    ensures input[place..iter + 1] == input[place..iter] + [input[iter]]
    ensures input[iter..] != "" && input[iter..][0] == input[iter] && input[iter..][1..] == input[iter + 1..]
  {}

  // -- What comes next -------------------------------------------------------------------------

  lemma EscapeIsNext(s: string, stack: Stack)
    requires s != "" && s[0] == '`'
    ensures Display(s, stack) ==
      if |s| == 1 then Failure(IncompleteEscape) else Prefixed([Visible(s[1])], Display(s[2..], stack))
  {}

  /** A dot that no letter follows, a closing bracket that closes nothing, and all other characters show as they are. */
  predicate IsPlain(s: string, depth: nat)
    requires s != ""
  {
    s[0] != '`' && !(s[0] == '.' && |s| > 1 && IsAlpha(s[1])) && !(s[0] == ']' && depth > 1)
  }

  lemma PlainIsNext(s: string, stack: Stack)
    requires s != "" && IsPlain(s, |stack|)
    ensures Display(s, stack) == Prefixed([Visible(s[0])], Display(s[1..], stack))
  {}

  lemma ClosingIsNext(s: string, stack: Stack)
    requires s != "" && s[0] == ']' && |stack| > 1
    ensures var below: Stack := stack[..|stack| - 1];
      Display(s, stack) == Prefixed([Popped(Top(below))], Display(s[1..], below))
  {}

  lemma SpanIsNext(s: string, stack: Stack)
    requires |s| > 1 && s[0] == '.' && IsAlpha(s[1])
    ensures var read := ReadStyle("", s[1..], Top(stack));
      Display(s, stack) ==
        if read.Failure? then Failure(read.error)
        else Prefixed([Pushed(read.value.style)], Display(read.value.rest, stack + [read.value.style]))
  {}

  // -- Reading classes with two cursors --------------------------------------------------------

  lemma ReadOn(input: string, place: nat, iter: nat, style: TextStyle)
    requires place <= iter < |input| && input[iter] != '[' && input[iter] != '.'
    ensures ReadStyle(input[place..iter], input[iter..], style) ==
      ReadStyle(input[place..iter + 1], input[iter + 1..], style)
  {
    DropNext(input, iter);
    assert input[place..iter + 1] == input[place..iter] + [input[iter]];
  }

  lemma ReadDot(input: string, place: nat, iter: nat, style: TextStyle)
    requires place <= iter && iter + 1 < |input| && input[iter] == '.' && ApplyClass(style, input[place..iter]).Some?
    ensures ReadStyle(input[place..iter], input[iter..], style) ==
      ReadStyle(input[iter + 1..iter + 2], input[iter + 2..], ApplyClass(style, input[place..iter]).value)
  {
    var s := input[iter..];
    assert s[0] == '.' && s[1] == input[iter + 1] && s[2..] == input[iter + 2..];
    assert input[iter + 1..iter + 2] == [s[1]];
  }

  lemma ReadBracket(input: string, place: nat, iter: nat, style: TextStyle)
    requires place <= iter < |input| && input[iter] == '['
    ensures ReadStyle(input[place..iter], input[iter..], style) ==
      match ApplyClass(style, input[place..iter])
      case None => Failure(BadClass(input[place..iter]))
      case Some(next) => Success(Opened(next, input[iter + 1..]))
  {
    DropNext(input, iter);
  }

  // -- The renderer ----------------------------------------------------------------------------

  class TextStyler {
    const input: string
    const doStyle: bool
    const out: TextWriter
    ghost const whole: Result<string, Fault>  // what rendering has to return
    var sIter: nat
    var sPlace: nat
    var stack: Stack
    ghost var pending: string                 // input[sPlace..sIter]
    ghost var rest: string                    // input[sIter..]
    ghost var left: Meaning                   // what the rest means

    constructor (input: string, doStyle: bool)
      ensures this.input == input && this.doStyle == doStyle && fresh(out)
      ensures whole == Rendered(doStyle, Display(input, [DEFAULT_STYLE]))
      ensures Valid() && sIter == 0
    {
      this.input, this.doStyle := input, doStyle;
      out := new TextWriter();
      whole := Rendered(doStyle, Display(input, [DEFAULT_STYLE]));
      sIter, sPlace, stack := 0, 0, [DEFAULT_STYLE];
      pending, rest, left := "", input, Display(input, [DEFAULT_STYLE]);
      new;
      CompletedAtStart(doStyle, left);
    }

    /** Where the cursors stand, and what is left from there. */
    ghost predicate Placed()
      reads this
    {
      && sPlace <= sIter <= |input| && pending == input[sPlace..sIter] && rest == input[sIter..]
      && left == Display(rest, stack)
    }

    /** Output so far, pending text and what is left make up the result. */
    ghost predicate Valid()
      reads this, out
    {
      Placed() && whole == Completed(doStyle, out.buf, out.style, pending, left)
    }

    /** Writes the pending text. */
    method Flush()
      requires Valid()
      modifies this`sPlace, this`pending, out
      ensures Valid() && pending == ""
    {
      CompletedFlush(doStyle, out.buf, out.style, pending, left);
      out.Write(input[sPlace..sIter]);
      sPlace := sIter;
      pending := "";
    }

    /** Takes the next character into the pending text. */
    method Scan()
      requires Valid() && rest != "" && IsPlain(rest, |stack|)
      modifies this`sIter, this`pending, this`rest, this`left
      ensures Valid() && sIter == old(sIter) + 1
    {
      PlainIsNext(rest, stack);
      PendingGrows(input, sPlace, sIter);
      left := Display(rest[1..], stack);
      CompletedScan(doStyle, out.buf, out.style, pending, rest[0], left);
      pending, rest := pending + [rest[0]], rest[1..];
      sIter := sIter + 1;
    }

    /** Moves behind `n` characters that are dealt with. */
    method Skip(n: nat)
      requires pending == "" && sIter + n <= |input| && rest == input[sIter..]
      modifies this`sIter, this`sPlace, this`rest, this`left
      ensures Placed() && sIter == old(sIter) + n && rest == old(rest)[n..]
    {
      DropMore(input, sIter, n);
      sIter := sIter + n;
      sPlace := sIter;
      rest := rest[n..];
      left := Display(rest, stack);
    }

    /** Writes an escaped character. */
    method PutEscaped()
      requires Valid() && pending == "" && |rest| > 1 && rest[0] == '`'
      modifies this, out
      ensures Valid() && sIter == old(sIter) + 2
    {
      EscapeIsNext(rest, stack);
      CompletedPut(doStyle, out.buf, out.style, Visible(rest[1]), Display(rest[2..], stack));
      out.Putc(input[sIter + 1]);
      Skip(2);
    }

    method PutIfStyled(style: TextStyle)
      modifies out
      ensures out.buf == old(out.buf) + Piece(doStyle, old(out.style), Pushed(style))
      ensures out.style == PutAfter(doStyle, old(out.style), Pushed(style))
    {
      if doStyle {
        out.PutStyle(style);
      } else {
        assert out.buf + "" == out.buf;
      }
    }

    /** Opens a span behind its bracket, with its style on top. */
    method PushStyle(style: TextStyle, n: nat)
      requires Valid() && pending == "" && n <= |rest|
      requires left == Prefixed([Pushed(style)], Display(rest[n..], stack + [style]))
      modifies this, out
      ensures Valid() && sIter == old(sIter) + n
    {
      CompletedPut(doStyle, out.buf, out.style, Pushed(style), Display(rest[n..], stack + [style]));
      PutIfStyled(style);
      stack := stack + [style];
      Skip(n);
    }

    /** Closes a span: the style below is on top again, and is put whether or not styling is on. */
    method PopStyle()
      requires Valid() && pending == "" && rest != "" && rest[0] == ']' && |stack| > 1
      modifies this, out
      ensures Valid() && sIter == old(sIter) + 1
    {
      var below: Stack := stack[..|stack| - 1];
      ClosingIsNext(rest, stack);
      CompletedPut(doStyle, out.buf, out.style, Popped(Top(below)), Display(rest[1..], below));
      out.PutStyle(Top(below));
      stack := below;
      Skip(1);
    }

    /** Reads the classes that start at `from`; the loop keeps the style under construction. */
    method ReadClasses(from: nat) returns (r: Result<Bracket, Fault>)
      requires from <= |input|
      ensures r.Success? ==>
        && from <= r.value.at < |input|
        && ReadStyle("", input[from..], Top(stack)) == Success(Opened(r.value.style, input[r.value.at + 1..]))
      ensures r.Failure? ==> ReadStyle("", input[from..], Top(stack)) == Failure(r.error)
    {
      var place: nat, iter: nat := from, from;
      var style := Top(stack);
      ghost var whole := ReadStyle("", input[from..], style);
      assert input[place..iter] == "";
      while iter != |input|
        invariant from <= place <= iter <= |input|
        invariant whole == ReadStyle(input[place..iter], input[iter..], style)
        decreases |input| - iter
      {
        if input[iter] == '[' || input[iter] == '.' {
          var cls := input[place..iter];
          var applied := ApplyClass(style, cls);
          if applied.None? {
            DropNext(input, iter);
            return Failure(BadClass(cls));
          }
          if input[iter] == '[' {
            ReadBracket(input, place, iter, style);
            return Success(Bracket(applied.value, iter));
          }
          if iter + 1 == |input| {
            return Failure(UnclosedClasses);
          }
          ReadDot(input, place, iter, style);
          style := applied.value;
          iter := iter + 1;
          place := iter;
        } else {
          ReadOn(input, place, iter, style);
        }
        iter := iter + 1;
      }
      return Failure(UnclosedClasses);
    }

    /** One turn of the rendering loop. */
    method Advance() returns (fault: Option<Fault>)
      requires Valid() && sIter < |input|
      modifies this, out
      ensures fault.None? ==> Valid() && old(sIter) < sIter <= |input|
      ensures fault.Some? ==> whole == Failure(fault.value)
    {
      fault := None;
      var c := input[sIter];
      DropNext(input, sIter);
      if c == '`' {
        EscapeIsNext(rest, stack);
        if sIter + 1 == |input| {
          return Some(IncompleteEscape);
        }
        Flush();
        PutEscaped();
      } else if c == '.' {
        Flush();
        if sIter + 1 == |input| || !IsAlpha(input[sIter + 1]) {
          Scan();
        } else {
          fault := OpenSpan();
        }
      } else if c == ']' && |stack| > 1 {
        Flush();
        PopStyle();
      } else {
        Scan();
      }
    }

    /** A dot before a letter. */
    method OpenSpan() returns (fault: Option<Fault>)
      requires Valid() && pending == "" && |rest| > 1 && rest[0] == '.' && IsAlpha(rest[1])
      modifies this, out
      ensures fault.None? ==> Valid() && old(sIter) < sIter <= |input|
      ensures fault.Some? ==> whole == Failure(fault.value)
    {
      SpanIsNext(rest, stack);
      DropMore(input, sIter, 1);
      var classes := ReadClasses(sIter + 1);
      if classes.Failure? {
        return Some(classes.error);
      }
      var n := classes.value.at + 1 - sIter;
      DropMore(input, sIter, n);
      PushStyle(classes.value.style, n);
      return None;
    }

    /** Renders the whole input. */
    method Render() returns (r: Result<string, Fault>)
      requires Valid() && sIter == 0
      modifies this, out
      ensures r == whole
    {
      while sIter != |input|
        invariant Valid()
        decreases |input| - sIter
      {
        var fault := Advance();
        if fault.Some? {
          return Failure(fault.value);
        }
      }
      Flush();
      CompletedAtEnd(doStyle, out.buf, out.style);
      return Success(out.buf);
    }
  }

  method Stylize(str: string, doStyle: bool) returns (r: Result<string, Fault>)
    ensures r == Rendered(doStyle, Display(str, [DEFAULT_STYLE]))
  {
    var styler := new TextStyler(str, doStyle);
    r := styler.Render();
  }

  /** What rendering looks like: a blank terminal shows exactly the cells of `Actual`. */
  lemma RenderedShows(doStyle: bool, events: seq<Event>)
    requires NoEscapes(events)
    ensures FeedAll(BLANK, Output(doStyle, DEFAULT_STYLE, events)) ==
      Screen(LastLook(doStyle, RESET, DEFAULT_STYLE, events), Text, Actual(doStyle, RESET, DEFAULT_STYLE, events))
  {
    OutputShows(doStyle, BLANK, DEFAULT_STYLE, events);
    NothingBefore(Actual(doStyle, RESET, DEFAULT_STYLE, events));
  }

  /** With forced styling and all colours specified, these are the intended cells if and only if no character is shown
      while its bold is lost. */
  lemma ForcedShows(events: seq<Event>)
    requires AllSpecified(events) && NoEscapes(events)
    ensures FeedAll(BLANK, Output(true, DEFAULT_STYLE, events)).cells == Intended(DEFAULT_STYLE, events)
       <==> BoldKept(DEFAULT_STYLE, false, events)
  {
    assert LookOf(DEFAULT_STYLE, false) == RESET;
    RenderedShows(true, events);
    MeantExactly(DEFAULT_STYLE, false, events);
  }
}
