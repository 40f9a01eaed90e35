/** Path globs: the expression is split at slashes into `**` items and file-name patterns, and a path is
    matched element by element. */
module Glob {
  import opened FnPattern
  import opened FnmatchRuntime
  import opened GlobLanguage
  import opened Sequences
  import opened Wrappers

  datatype GlobError = BadPattern(error: PatternError) | EmptyGlob

  /** No pattern stands for `**`. */
  type Item = Option<PatternImpl>

  ghost function PatternsOf(items: seq<Item>): set<object> {
    set i | 0 <= i < |items| && items[i].Some? :: items[i].value
  }

  /** The items hold compiled patterns and stand for `glob`. */
  ghost predicate Mean(items: seq<Item>, glob: seq<GlobElem>)
    reads PatternsOf(items)
  {
    && |items| == |glob|
    && (forall i | 0 <= i < |items| && items[i].None? :: glob[i] == AnyDepth)
    && (forall i | 0 <= i < |items| && items[i].Some? ::
         items[i].value.Closed() && glob[i] == One(items[i].value.nodes))
  }

  // -- Compiling -------------------------------------------------------------------------------

  /** The parts between slashes; a slash at the very end opens no further part. */
  function Parts(pattern: string): seq<string>
    decreases |pattern|
  {
    if pattern == "" then []
    else
      var slash := IndexOf(pattern, '/');
      [pattern[..slash]] + Parts(AfterSlash(pattern, slash))
  }

  function AfterSlash(pattern: string, slash: nat): (rest: string)
    requires slash <= |pattern|
    ensures pattern != "" ==> |rest| < |pattern|
  {
    if slash < |pattern| then pattern[slash + 1..] else ""
  }

  function Join(parts: seq<string>): string {
    if |parts| == 0 then ""
    else if |parts| == 1 then parts[0]
    else parts[0] + "/" + Join(parts[1..])
  }

  /** Nothing is lost in splitting: the parts hold no slash, and joining them gives the expression back, up
      to one slash at its end. */
  lemma {:induction false} PartsJoin(pattern: string)
    ensures forall part | part in Parts(pattern) :: '/' !in part
    ensures pattern == Join(Parts(pattern)) || pattern == Join(Parts(pattern)) + "/"
    decreases |pattern|
  {
    if pattern != "" {
      var slash := IndexOf(pattern, '/');
      IndexFinds(pattern, '/');
      var first, rest := pattern[..slash], AfterSlash(pattern, slash);
      PartsJoin(rest);
      JoinBack(pattern, slash, Parts(rest));
    }
  }

  lemma JoinBack(pattern: string, slash: nat, parts: seq<string>)
    requires slash <= |pattern| && (slash < |pattern| ==> pattern[slash] == '/')
    requires parts == [] <==> AfterSlash(pattern, slash) == ""
    requires AfterSlash(pattern, slash) == Join(parts) || AfterSlash(pattern, slash) == Join(parts) + "/"
    ensures var all := Join([pattern[..slash]] + parts); pattern == all || pattern == all + "/"
  {
    var first, rest := pattern[..slash], AfterSlash(pattern, slash);
    JoinCons(first, parts);
    if slash < |pattern| {
      assert pattern == first + "/" + rest;
      Associate(first + "/", Join(parts), "/");
      NothingAfter(first + "/");
    } else {
      assert first == pattern;
    }
  }

  lemma JoinCons(first: string, rest: seq<string>)
    ensures Join([first] + rest) == if rest == [] then first else first + "/" + Join(rest)
  {
    assert ([first] + rest)[1..] == rest;
  }

  ghost predicate WellFormed(part: string) {
    part == "**" || Tokens(part, false).Some?
  }

  ghost predicate AllWellFormed(parts: seq<string>) {
    forall i | 0 <= i < |parts| :: WellFormed(parts[i])
  }

  /** What a part of an expression stands for. */
  ghost function PartMeaning(part: string): GlobElem
    requires WellFormed(part)
  {
    if part == "**" then AnyDepth else One(Tokens(part, false).value)
  }

  ghost function GlobOf(parts: seq<string>): seq<GlobElem>
    requires AllWellFormed(parts)
  {
    seq(|parts|, i requires 0 <= i < |parts| => PartMeaning(parts[i]))
  }

  ghost predicate ItemFor(part: string, item: Item)
    reads if item.Some? then {item.value} else {}
  {
    if part == "**" then item.None?
    else
      && item.Some? && item.value.Closed() && Tokens(part, false).Some?
      && Expand(item.value.nodes) == Tokens(part, false).value + [End]
  }

  ghost predicate ItemsFor(parts: seq<string>, items: seq<Item>)
    reads PatternsOf(items)
  {
    |items| == |parts| && forall i | 0 <= i < |items| :: ItemFor(parts[i], items[i])
  }

  method CompilePart(part: string) returns (r: Result<Item, PatternError>)
    ensures r.Success? <==> WellFormed(part)
    ensures r.Success? ==> ItemFor(part, r.value)
  {
    if part == "**" {
      return Success(None);
    }
    var compiled := Compile(part);
    if compiled.Failure? {
      return Failure(compiled.error);
    }
    return Success(Some(compiled.value));
  }

  method CompileGlobExpr(expr: string) returns (r: Result<seq<Item>, GlobError>)
    ensures r.Success? <==> expr != "" && AllWellFormed(Parts(expr))
    ensures r.Failure? ==> (r.error.EmptyGlob? <==> expr == "")
    ensures r.Success? ==> ItemsFor(Parts(expr), r.value)
  {
    var items: seq<Item> := [];
    var pattern := expr;
    ghost var done: seq<string> := [];
    ghost var left := Parts(expr);
    NothingBefore(left);
    while pattern != ""
      invariant Parts(expr) == done + left && left == Parts(pattern)
      invariant ItemsFor(done, items)
      decreases |pattern|
    {
      var nextSlash := IndexOf(pattern, '/');
      var nextPart := pattern[..nextSlash];
      pattern := AfterSlash(pattern, nextSlash);
      left := Parts(pattern);
      var item := CompilePart(nextPart);
      if item.Failure? {
        IllFormedPart(done, nextPart, left);
        return Failure(BadPattern(item.error));
      }
      ItemsForStep(done, items, nextPart, item.value);
      Associate(done, [nextPart], left);
      items := items + [item.value];
      done := done + [nextPart];
    }
    NothingAfter(done);
    AllItemsWellFormed(done, items);
    if items == [] {
      return Failure(EmptyGlob);
    }
    return Success(items);
  }

  lemma IllFormedPart(done: seq<string>, part: string, left: seq<string>)
    requires !WellFormed(part)
    ensures !AllWellFormed(done + ([part] + left))
  {
    var parts := done + ([part] + left);
    assert parts[|done|] == part;
  }

  lemma ItemsForStep(parts: seq<string>, items: seq<Item>, part: string, item: Item)
    requires ItemsFor(parts, items) && ItemFor(part, item)
    ensures ItemsFor(parts + [part], items + [item])
  {}

  lemma AllItemsWellFormed(parts: seq<string>, items: seq<Item>)
    requires ItemsFor(parts, items)
    ensures AllWellFormed(parts)
  {
    forall i | 0 <= i < |parts| ensures WellFormed(parts[i]) {
      assert ItemFor(parts[i], items[i]);
    }
  }

  // -- Matching --------------------------------------------------------------------------------

  /** Whether the elements from `at` on match the items from `pat` on. */
  method CheckMatches(elems: seq<string>, at: nat, items: seq<Item>, pat: nat, ghost glob: seq<GlobElem>)
    returns (b: bool)
    requires Mean(items, glob) && at <= |elems| && pat <= |items|
    ensures b <==> GlobAccepts(glob[pat..], elems[at..])
    decreases |items| - pat, 1
  {
    ghost var rest, path := glob[pat..], elems[at..];
    if at == |elems| && pat == |items| {
      GlobEmpty(path);
      return true;
    }
    if at == |elems| || pat == |items| {
      GlobEmpty(path);
      if pat < |items| { NothingIsRejected(rest); }
      return false;
    }
    assert rest[0] == glob[pat] && rest[1..] == glob[pat + 1..];
    if items[pat].Some? {
      OneTakesOne(rest, path);
      assert path[0] == elems[at] && path[1..] == elems[at + 1..];
      var matched := items[pat].value.Match(elems[at]);
      if !matched {
        return false;
      }
      b := CheckMatches(elems, at + 1, items, pat + 1, glob);
    } else if pat + 1 == |items| {
      assert rest == [AnyDepth];
      FinalDepth(path);
      return true;
    } else {
      InnerDepthFrom(rest, elems, at);
      b := PeelElements(elems, at, items, pat + 1, glob);
    }
  }

  /** The loop for a `**`: peels off elements until the items from `next` on match. */
  method PeelElements(elems: seq<string>, at: nat, items: seq<Item>, next: nat, ghost glob: seq<GlobElem>)
    returns (b: bool)
    requires Mean(items, glob) && at <= |elems| && next <= |items|
    ensures b <==> exists k :: at <= k < |elems| && GlobAccepts(glob[next..], elems[k..])
    decreases |items| - next, 2
  {
    var elem := at;
    while elem != |elems|
      invariant at <= elem <= |elems|
      invariant forall k | at <= k < elem :: !GlobAccepts(glob[next..], elems[k..])
    {
      var matched := CheckMatches(elems, elem, items, next, glob);
      if matched {
        return true;
      }
      elem := elem + 1;
    }
    return false;
  }

  lemma InnerDepthFrom(glob: seq<GlobElem>, elems: seq<string>, at: nat)
    requires |glob| > 1 && glob[0].AnyDepth? && at <= |elems|
    ensures GlobAccepts(glob, elems[at..]) <==> exists k :: at <= k < |elems| && GlobAccepts(glob[1..], elems[k..])
  {
    var path := elems[at..];
    InnerDepth(glob, path);
    if k :| 0 <= k < |path| && GlobAccepts(glob[1..], path[k..]) {
      assert path[k..] == elems[at + k..];
    }
    if k :| at <= k < |elems| && GlobAccepts(glob[1..], elems[k..]) {
      assert path[k - at..] == elems[k..];
    }
  }

  /** Compiling an expression and matching a path against it. */
  method MatchGlob(expr: string, path: seq<string>) returns (r: Result<bool, GlobError>)
    ensures r.Success? <==> expr != "" && AllWellFormed(Parts(expr))
    ensures r.Success? ==> (r.value <==> GlobAccepts(GlobOf(Parts(expr)), path))
  {
    var compiled := CompileGlobExpr(expr);
    if compiled.Failure? {
      return Failure(compiled.error);
    }
    var items := compiled.value;
    ghost var parts, glob := Parts(expr), MeaningOf(items);
    forall i | 0 <= i < |items| ensures items[i].Some? ==> items[i].value.Closed() {
      assert ItemFor(parts[i], items[i]);
    }
    var b := CheckMatches(path, 0, items, 0, glob);
    assert path[0..] == path && glob[0..] == glob;
    forall i | 0 <= i < |items| ensures SameLanguage(glob[i], GlobOf(parts)[i]) {
      assert ItemFor(parts[i], items[i]);
      if items[i].Some? {
        SamePattern(items[i].value.nodes, Tokens(parts[i], false).value);
      }
    }
    SameLanguages(glob, GlobOf(parts), path);
    return Success(b);
  }

  ghost function MeaningOf(items: seq<Item>): (glob: seq<GlobElem>)
    reads PatternsOf(items)
    ensures |glob| == |items|
    ensures forall i | 0 <= i < |items| ::
      glob[i] == if items[i].Some? then One(items[i].value.nodes) else AnyDepth
  {
    seq(|items|, i requires 0 <= i < |items| reads PatternsOf(items) =>
      if items[i].Some? then One(items[i].value.nodes) else AnyDepth)
  }

  lemma SamePattern(nodes: seq<Elem>, tokens: seq<Elem>)
    requires Expand(nodes) == tokens + [End]
    ensures forall s :: Accepts(nodes, s) <==> Accepts(tokens, s)
  {
    forall s ensures Accepts(nodes, s) <==> Accepts(tokens, s) {
      ExpandKeepsLanguage(nodes, s);
      AcceptsEnd(tokens, s);
    }
  }
}
