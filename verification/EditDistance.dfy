/** Edit distance: the matrix computation, and the shortest edit scripts that it is meant to measure. */
module EditDistance {
  import opened Sequences
  import opened Wrappers

  // -- Edit scripts ----------------------------------------------------------------------------

  /** One change at a position of a string. */
  datatype Edit = Insert(at: nat, c: char) | Delete(at: nat) | Substitute(at: nat, c: char)

  predicate Applies(e: Edit, s: string) {
    if e.Insert? then e.at <= |s| else e.at < |s|
  }

  function Apply(e: Edit, s: string): string
    requires Applies(e, s)
  {
    match e
    case Insert(at, c) => s[..at] + [c] + s[at..]
    case Delete(at) => s[..at] + s[at + 1..]
    case Substitute(at, c) => s[..at] + [c] + s[at + 1..]
  }

  /** `script` turns `a` into `b`, one change after the other. */
  ghost predicate Turns(a: string, script: seq<Edit>, b: string)
    decreases |script|
  {
    if script == [] then a == b
    else Applies(script[0], a) && Turns(Apply(script[0], a), script[1..], b)
  }

  /** `d` is the length of the shortest script from `a` to `b`. */
  ghost predicate IsDistance(a: string, b: string, d: nat) {
    && (exists script :: Turns(a, script, b) && |script| == d)
    && (forall script | Turns(a, script, b) :: d <= |script|)
  }

  // -- The recurrence that the matrix tabulates ------------------------------------------------

  function Min(x: nat, y: nat): nat {
    if x <= y then x else y
  }

  function Cost(x: char, y: char): nat {
    if x == y then 0 else 1
  }

  /** The distance between the first `i` characters of `a` and the first `j` of `b`. */
  function LevAt(a: string, b: string, i: nat, j: nat): nat
    requires i <= |a| && j <= |b|
  {
    if i == 0 then j
    else if j == 0 then i
    else
      Min(LevAt(a, b, i, j - 1) + 1,
          Min(LevAt(a, b, i - 1, j) + 1, LevAt(a, b, i - 1, j - 1) + Cost(a[i - 1], b[j - 1])))
  }

  function Lev(a: string, b: string): nat {
    LevAt(a, b, |a|, |b|)
  }

  // -- Alignments ------------------------------------------------------------------------------

  /** A column sets a character of one string against one of the other, or one against nothing. */
  datatype Column = Both(x: char, y: char) | Gone(x: char) | New(y: char)
  {
    ghost function Upper(): string {
      if New? then [] else [x]
    }

    ghost function Lower(): string {
      if Gone? then [] else [y]
    }

    ghost function Weight(): nat {
      if Both? then Cost(x, y) else 1
    }
  }

  ghost function Source(al: seq<Column>): string {
    if al == [] then [] else Source(al[..|al| - 1]) + al[|al| - 1].Upper()
  }

  ghost function Target(al: seq<Column>): string {
    if al == [] then [] else Target(al[..|al| - 1]) + al[|al| - 1].Lower()
  }

  ghost function Weight(al: seq<Column>): nat {
    if al == [] then 0 else Weight(al[..|al| - 1]) + al[|al| - 1].Weight()
  }

  ghost predicate Aligns(al: seq<Column>, a: string, b: string) {
    Source(al) == a && Target(al) == b
  }

  lemma AppendColumn(al: seq<Column>, c: Column)
    ensures Source(al + [c]) == Source(al) + c.Upper()
    ensures Target(al + [c]) == Target(al) + c.Lower()
    ensures Weight(al + [c]) == Weight(al) + c.Weight()
  {
    assert (al + [c])[..|al|] == al;
  }

  lemma {:induction false} ConcatenateSource(al: seq<Column>, more: seq<Column>)
    ensures Source(al + more) == Source(al) + Source(more)
  {
    if more == [] {
      assert al + more == al;
    } else {
      assert (al + more)[..|al + more| - 1] == al + more[..|more| - 1];
      ConcatenateSource(al, more[..|more| - 1]);
    }
  }

  lemma {:induction false} ConcatenateTarget(al: seq<Column>, more: seq<Column>)
    ensures Target(al + more) == Target(al) + Target(more)
  {
    if more == [] {
      assert al + more == al;
    } else {
      assert (al + more)[..|al + more| - 1] == al + more[..|more| - 1];
      ConcatenateTarget(al, more[..|more| - 1]);
    }
  }

  lemma {:induction false} ConcatenateWeight(al: seq<Column>, more: seq<Column>)
    ensures Weight(al + more) == Weight(al) + Weight(more)
  {
    if more == [] {
      assert al + more == al;
    } else {
      assert (al + more)[..|al + more| - 1] == al + more[..|more| - 1];
      ConcatenateWeight(al, more[..|more| - 1]);
    }
  }

  /** A fitting column extends an alignment of what comes before it. */
  lemma Extend(al: seq<Column>, c: Column, a: string, b: string, i: nat, j: nat)
    requires i <= |a| && j <= |b| && Fits(c, a, b, i, j)
    requires Aligns(al, a[..i - |c.Upper()|], b[..j - |c.Lower()|])
    ensures Aligns(al + [c], a[..i], b[..j]) && Weight(al + [c]) == Weight(al) + c.Weight()
  {
    AppendColumn(al, c);
    LastTaken(a, i, c.Upper());
    LastTaken(b, j, c.Lower());
  }

  lemma LastTaken(s: string, i: nat, last: string)
    requires i <= |s| && (last == "" || (i > 0 && last == [s[i - 1]]))
    ensures s[..i] == s[..i - |last|] + last
  {}

  /** A column that the last characters allow is one of the ways the recurrence considers. */
  ghost predicate Fits(c: Column, a: string, b: string, i: nat, j: nat)
    requires i <= |a| && j <= |b|
  {
    match c
    case New(y) => j > 0 && y == b[j - 1]
    case Gone(x) => i > 0 && x == a[i - 1]
    case Both(x, y) => i > 0 && j > 0 && x == a[i - 1] && y == b[j - 1]
  }

  /** A column takes up something, and no more than there is. */
  lemma FitsBounds(c: Column, a: string, b: string, i: nat, j: nat)
    requires i <= |a| && j <= |b| && Fits(c, a, b, i, j)
    ensures |c.Upper()| <= i && |c.Lower()| <= j && |c.Upper()| + |c.Lower()| > 0
  {}

  lemma LevBound(c: Column, a: string, b: string, i: nat, j: nat)
    requires i <= |a| && j <= |b| && Fits(c, a, b, i, j)
    ensures LevAt(a, b, i, j) <= LevAt(a, b, i - |c.Upper()|, j - |c.Lower()|) + c.Weight()
  {}

  lemma FitsEnd(c: Column, s: string, t: string, a: string, b: string, i: nat, j: nat)
    requires i <= |a| && j <= |b| && s + c.Upper() == a[..i] && t + c.Lower() == b[..j]
    ensures Fits(c, a, b, i, j)
    ensures s == a[..i - |c.Upper()|] && t == b[..j - |c.Lower()|]
  {
    assert |s| + |c.Upper()| == i && |t| + |c.Lower()| == j;
    assert (s + c.Upper())[..|s|] == s && (t + c.Lower())[..|t|] == t;
    if !c.New? { assert (s + c.Upper())[i - 1] == c.x; }
    if !c.Gone? { assert (t + c.Lower())[j - 1] == c.y; }
  }

  /** No alignment weighs less than the recurrence says. */
  lemma {:induction false} AlignmentAtLeast(al: seq<Column>, a: string, b: string, i: nat, j: nat)
    requires i <= |a| && j <= |b| && Aligns(al, a[..i], b[..j])
    ensures LevAt(a, b, i, j) <= Weight(al)
  {
    if al != [] {
      var front, last := al[..|al| - 1], al[|al| - 1];
      FitsEnd(last, Source(front), Target(front), a, b, i, j);
      AlignmentAtLeast(front, a, b, i - |last.Upper()|, j - |last.Lower()|);
      LevBound(last, a, b, i, j);
    }
  }

  /** The last column of a best alignment. */
  lemma BestColumn(a: string, b: string, i: nat, j: nat) returns (c: Column)
    requires i <= |a| && j <= |b| && i + j > 0
    ensures Fits(c, a, b, i, j)
    ensures LevAt(a, b, i, j) == LevAt(a, b, i - |c.Upper()|, j - |c.Lower()|) + c.Weight()
  {
    if j > 0 && (i == 0 || LevAt(a, b, i, j) == LevAt(a, b, i, j - 1) + 1) {
      c := New(b[j - 1]);
    } else if i > 0 && (j == 0 || LevAt(a, b, i, j) == LevAt(a, b, i - 1, j) + 1) {
      c := Gone(a[i - 1]);
    } else {
      c := Both(a[i - 1], b[j - 1]);
    }
  }

  /** Some alignment weighs exactly that. */
  lemma {:induction false} BestAlignment(a: string, b: string, i: nat, j: nat) returns (al: seq<Column>)
    requires i <= |a| && j <= |b|
    ensures Aligns(al, a[..i], b[..j]) && Weight(al) == LevAt(a, b, i, j)
    decreases i + j
  {
    if i == 0 && j == 0 {
      al := [];
    } else {
      var c := BestColumn(a, b, i, j);
      FitsBounds(c, a, b, i, j);
      var front := BestAlignment(a, b, i - |c.Upper()|, j - |c.Lower()|);
      Extend(front, c, a, b, i, j);
      al := front + [c];
    }
  }

  // -- From a script to an alignment -----------------------------------------------------------

  /** Where the first `at` characters of the source end. */
  lemma {:induction false} CutAt(al: seq<Column>, at: nat) returns (k: nat)
    requires at <= |Source(al)|
    ensures k <= |al| && Source(al[..k]) == Source(al)[..at] && Source(al[k..]) == Source(al)[at..]
  {
    k := CutBefore(al, at);
    assert al[..k] + al[k..] == al;
    ConcatenateSource(al[..k], al[k..]);
  }

  lemma {:induction false} CutBefore(al: seq<Column>, at: nat) returns (k: nat)
    requires at <= |Source(al)|
    ensures k <= |al| && Source(al[..k]) == Source(al)[..at]
  {
    if at == |Source(al)| {
      k := |al|;
      assert al[..k] == al;
    } else {
      var front := al[..|al| - 1];
      k := CutBefore(front, at);
      assert front[..k] == al[..k];
    }
  }

  /** The column of the source character at position `at`. */
  lemma {:induction false} ColumnOf(al: seq<Column>, at: nat) returns (k: nat)
    requires at < |Source(al)|
    ensures k < |al| && al[k].Upper() == [Source(al)[at]]
    ensures Source(al[..k]) == Source(al)[..at] && Source(al[k + 1..]) == Source(al)[at + 1..]
  {
    k := ColumnBefore(al, at);
    SourceAround(al, k);
    AfterColumn(Source(al), at, Source(al[..k]), Source(al[k + 1..]));
  }

  lemma SourceAround(al: seq<Column>, k: nat)
    requires k < |al|
    ensures Source(al) == Source(al[..k]) + al[k].Upper() + Source(al[k + 1..])
  {
    TakeNext(al, k);
    AppendColumn(al[..k], al[k]);
    assert al == al[..k + 1] + al[k + 1..];
    ConcatenateSource(al[..k + 1], al[k + 1..]);
  }

  lemma AfterColumn(s: string, at: nat, before: string, after: string)
    requires at < |s| && before == s[..at] && s == before + [s[at]] + after
    ensures after == s[at + 1..]
  {}

  lemma {:induction false} ColumnBefore(al: seq<Column>, at: nat) returns (k: nat)
    requires at < |Source(al)|
    ensures k < |al| && al[k].Upper() == [Source(al)[at]] && Source(al[..k]) == Source(al)[..at]
  {
    var front := al[..|al| - 1];
    if at < |Source(front)| {
      k := ColumnBefore(front, at);
      assert front[..k] == al[..k];
    } else {
      k := |al| - 1;
    }
  }

  /** Replacing one column by others. */
  lemma Splice(al: seq<Column>, k: nat, l: nat, mid: seq<Column>)
    requires k <= l <= |al|
    ensures var spliced := al[..k] + mid + al[l..];
      && Source(spliced) == Source(al[..k]) + Source(mid) + Source(al[l..])
      && Target(spliced) == Target(al[..k]) + Target(mid) + Target(al[l..])
      && Weight(spliced) == Weight(al[..k]) + Weight(mid) + Weight(al[l..])
  {
    ConcatenateSource(al[..k] + mid, al[l..]);
    ConcatenateSource(al[..k], mid);
    ConcatenateTarget(al[..k] + mid, al[l..]);
    ConcatenateTarget(al[..k], mid);
    ConcatenateWeight(al[..k] + mid, al[l..]);
    ConcatenateWeight(al[..k], mid);
  }

  lemma Cut<T>(s: seq<T>, k: nat, l: nat)
    requires k <= l <= |s|
    ensures s[..k] + s[k..l] + s[l..] == s
  {}

  lemma SingleColumn(c: Column)
    ensures Source([c]) == c.Upper() && Target([c]) == c.Lower() && Weight([c]) == c.Weight()
  {
    assert [] + [c] == [c];
    AppendColumn([], c);
  }

  /** Exchanging the columns between two positions for others with the same lower row. */
  lemma Exchange(al: seq<Column>, k: nat, l: nat, mid: seq<Column>) returns (more: seq<Column>)
    requires k <= l <= |al| && Target(mid) == Target(al[k..l])
    ensures Source(more) == Source(al[..k]) + Source(mid) + Source(al[l..])
    ensures Target(more) == Target(al)
    ensures Weight(more) + Weight(al[k..l]) == Weight(al) + Weight(mid)
  {
    more := al[..k] + mid + al[l..];
    Splice(al, k, l, mid);
    Splice(al, k, l, al[k..l]);
    Cut(al, k, l);
  }

  /** What an edit leaves around the place where it applies. */
  lemma ApplyAround(e: Edit, a: string)
    requires Applies(e, a)
    ensures Apply(e, a)[..e.at] == a[..e.at]
    ensures e.Insert? ==> Apply(e, a)[e.at + 1..] == a[e.at..]
    ensures e.Delete? ==> Apply(e, a)[e.at..] == a[e.at + 1..]
    ensures e.Substitute? ==> Apply(e, a)[e.at + 1..] == a[e.at + 1..]
    ensures a == if e.Insert? then a[..e.at] + [] + a[e.at..] else a[..e.at] + [a[e.at]] + a[e.at + 1..]
  {}

  /** Putting an edit in front costs at most one more. */
  lemma EditFirst(e: Edit, a: string, al: seq<Column>, b: string) returns (more: seq<Column>)
    requires Applies(e, a) && Aligns(al, Apply(e, a), b)
    ensures Aligns(more, a, b) && Weight(more) <= Weight(al) + 1
  {
    ApplyAround(e, a);
    if e.Delete? {
      var k := CutAt(al, e.at);
      SingleColumn(Gone(a[e.at]));
      assert al[k..k] == [];
      more := Exchange(al, k, k, [Gone(a[e.at])]);
    } else {
      var k := ColumnOf(al, e.at);
      more := ChangeColumn(al, k, if e.Insert? then None else Some(a[e.at]));
    }
  }

  /** Taking the source character out of a column, or putting another in its place. */
  lemma ChangeColumn(al: seq<Column>, k: nat, u: Option<char>) returns (more: seq<Column>)
    requires k < |al| && !al[k].New?
    ensures Source(more) == Source(al[..k]) + (if u.Some? then [u.value] else []) + Source(al[k + 1..])
    ensures Target(more) == Target(al) && Weight(more) <= Weight(al) + 1
  {
    var c := al[k];
    SingleColumn(c);
    assert al[k..k + 1] == [c];
    if u.None? && c.Gone? {
      more := Exchange(al, k, k + 1, []);
    } else {
      var c' := if u.None? then New(c.y) else if c.Both? then Both(u.value, c.y) else Gone(u.value);
      SingleColumn(c');
      more := Exchange(al, k, k + 1, [c']);
    }
  }

  lemma {:induction false} Identity(a: string) returns (al: seq<Column>)
    ensures Aligns(al, a, a) && Weight(al) == 0
  {
    if a == [] {
      al := [];
    } else {
      var c := a[|a| - 1];
      al := Identity(a[..|a| - 1]);
      AppendColumn(al, Both(c, c));
      al := al + [Both(c, c)];
    }
  }

  lemma {:induction false} ScriptAligns(a: string, script: seq<Edit>, b: string) returns (al: seq<Column>)
    requires Turns(a, script, b)
    ensures Aligns(al, a, b) && Weight(al) <= |script|
    decreases |script|
  {
    if script == [] {
      al := Identity(a);
    } else {
      var rest := ScriptAligns(Apply(script[0], a), script[1..], b);
      al := EditFirst(script[0], a, rest, b);
    }
  }

  lemma NoScriptIsShorter(a: string, script: seq<Edit>, b: string)
    requires Turns(a, script, b)
    ensures Lev(a, b) <= |script|
  {
    var al := ScriptAligns(a, script, b);
    assert a[..|a|] == a && b[..|b|] == b;
    AlignmentAtLeast(al, a, b, |a|, |b|);
  }

  // -- A script of that length -----------------------------------------------------------------

  lemma {:induction false} TurnsThen(a: string, s: seq<Edit>, b: string, t: seq<Edit>, c: string)
    requires Turns(a, s, b) && Turns(b, t, c)
    ensures Turns(a, s + t, c)
    decreases |s|
  {
    if s == [] {
      NothingBefore(t);
    } else {
      TurnsThen(Apply(s[0], a), s[1..], b, t, c);
      HeadTail(s);
      Associate([s[0]], s[1..], t);
      ConsTail(s[0], s[1..] + t);
    }
  }

  lemma ApplyWithTail(e: Edit, a: string, tail: string)
    requires Applies(e, a)
    ensures Apply(e, a + tail) == Apply(e, a) + tail
  {
    assert (a + tail)[..e.at] == a[..e.at];
    if e.Insert? {
      assert (a + tail)[e.at..] == a[e.at..] + tail;
    } else {
      assert (a + tail)[e.at + 1..] == a[e.at + 1..] + tail;
    }
  }

  /** A script also works when a common tail follows both strings. */
  lemma {:induction false} TurnsBefore(a: string, s: seq<Edit>, b: string, tail: string)
    requires Turns(a, s, b)
    ensures Turns(a + tail, s, b + tail)
    decreases |s|
  {
    if s != [] {
      var e := s[0];
      ApplyWithTail(e, a, tail);
      TurnsBefore(Apply(e, a), s[1..], b, tail);
    }
  }

  lemma OneEdit(e: Edit, a: string)
    requires Applies(e, a)
    ensures Turns(a, [e], Apply(e, a))
  {
    assert [e][1..] == [];
  }

  /** A script as long as an alignment is heavy. */
  lemma {:induction false} ScriptOf(al: seq<Column>) returns (script: seq<Edit>)
    ensures Turns(Source(al), script, Target(al)) && |script| == Weight(al)
  {
    if al == [] {
      script := [];
    } else {
      var last := al[|al| - 1];
      var x, y := Source(al[..|al| - 1]), Target(al[..|al| - 1]);
      var s := ScriptOf(al[..|al| - 1]);
      TurnsBefore(x, s, y, last.Upper());
      if last.Weight() == 0 {
        script := s;
      } else {
        var e := match last
          case New(v) => Insert(|y|, v)
          case Gone(_) => Delete(|y|)
          case Both(_, v) => Substitute(|y|, v);
        OneEdit(e, y + last.Upper());
        assert Apply(e, y + last.Upper()) == y + last.Lower();
        TurnsThen(x + last.Upper(), s, y + last.Upper(), [e], y + last.Lower());
        script := s + [e];
      }
    }
  }

  lemma ShortestScript(a: string, b: string) returns (script: seq<Edit>)
    ensures Turns(a, script, b) && |script| == Lev(a, b)
  {
    var al := BestAlignment(a, b, |a|, |b|);
    assert a[..|a|] == a && b[..|b|] == b;
    script := ScriptOf(al);
  }

  /** The recurrence computes the length of the shortest edit script. */
  lemma LevIsDistance(a: string, b: string)
    ensures IsDistance(a, b, Lev(a, b))
  {
    var script := ShortestScript(a, b);
    assert Turns(a, script, b) && |script| == Lev(a, b);
    forall other | Turns(a, other, b) ensures Lev(a, b) <= |other| {
      NoScriptIsShorter(a, other, b);
    }
  }

  // -- It is a metric --------------------------------------------------------------------------

  lemma LevZero(a: string, b: string)
    ensures Lev(a, b) == 0 <==> a == b
  {
    var script := ShortestScript(a, b);
    if a == b {
      NoScriptIsShorter(a, [], b);
    }
  }

  /** The edit that takes `Apply(e, a)` back to `a`. */
  function Undo(e: Edit, a: string): Edit
    requires Applies(e, a)
  {
    match e
    case Insert(at, _) => Delete(at)
    case Delete(at) => Insert(at, a[at])
    case Substitute(at, _) => Substitute(at, a[at])
  }

  lemma UndoTurnsBack(e: Edit, a: string)
    requires Applies(e, a)
    ensures Turns(Apply(e, a), [Undo(e, a)], a)
  {
    var b := Apply(e, a);
    OneEdit(Undo(e, a), b);
    assert Apply(Undo(e, a), b) == a;
  }

  lemma {:induction false} ReverseScript(a: string, script: seq<Edit>, b: string) returns (back: seq<Edit>)
    requires Turns(a, script, b)
    ensures Turns(b, back, a) && |back| == |script|
    decreases |script|
  {
    if script == [] {
      back := [];
    } else {
      var mid := Apply(script[0], a);
      var rest := ReverseScript(mid, script[1..], b);
      UndoTurnsBack(script[0], a);
      back := rest + [Undo(script[0], a)];
      TurnsThen(b, rest, mid, [Undo(script[0], a)], a);
    }
  }

  lemma LevSymmetric(a: string, b: string)
    ensures Lev(a, b) == Lev(b, a)
  {
    var s := ShortestScript(a, b);
    var s' := ReverseScript(a, s, b);
    NoScriptIsShorter(b, s', a);
    var t := ShortestScript(b, a);
    var t' := ReverseScript(b, t, a);
    NoScriptIsShorter(a, t', b);
  }

  lemma LevTriangle(a: string, b: string, c: string)
    ensures Lev(a, c) <= Lev(a, b) + Lev(b, c)
  {
    var s := ShortestScript(a, b);
    var t := ShortestScript(b, c);
    TurnsThen(a, s, b, t, c);
    NoScriptIsShorter(a, s + t, c);
  }

  // -- The computation -------------------------------------------------------------------------

  /** Row r, column c holds the distance between the first c characters of `a` and the first r of `b`. */
  method LevEditDistance(a: string, b: string) returns (d: nat)
    ensures d == Lev(a, b)
  {
    var rows, columns := |b| + 1, |a| + 1;
    var matrix := new nat[rows, columns]((_, _) => 0);
    for n := 1 to columns
      invariant forall c | 0 <= c < n :: matrix[0, c] == c
    {
      matrix[0, n] := n;
    }
    for n := 1 to rows
      invariant forall c | 0 <= c < columns :: matrix[0, c] == c
      invariant forall r | 0 <= r < n :: matrix[r, 0] == r
    {
      matrix[n, 0] := n;
    }
    for row := 1 to rows
      invariant forall r | 0 <= r < rows :: matrix[r, 0] == r
      invariant forall r, c {:trigger matrix[r, c]} | 0 <= r < row && 0 <= c < columns ::
        matrix[r, c] == LevAt(a, b, c, r)
    {
      for col := 1 to columns
        invariant forall r | 0 <= r < rows :: matrix[r, 0] == r
        invariant forall r, c {:trigger matrix[r, c]} | 0 <= r < row && 0 <= c < columns ::
          matrix[r, c] == LevAt(a, b, c, r)
        invariant forall c {:trigger matrix[row, c]} | 0 <= c < col :: matrix[row, c] == LevAt(a, b, c, row)
      {
        var cost := if a[col - 1] == b[row - 1] then 0 else 1;
        var t1 := matrix[row - 1, col] + 1;
        var t2 := matrix[row, col - 1] + 1;
        var t3 := matrix[row - 1, col - 1] + cost;
        matrix[row, col] := MinElement(t1, t2, t3);
      }
    }
    return matrix[rows - 1, columns - 1];
  }

  function MinElement(t1: nat, t2: nat, t3: nat): nat {
    Min(t1, Min(t2, t3))
  }

  lemma Distances(given: string, strings: seq<string>) returns (ds: seq<nat>)
    ensures |ds| == |strings| && forall j {:trigger ds[j]} | 0 <= j < |ds| :: ds[j] == Lev(strings[j], given)
  {
    ds := seq(|strings|, j requires 0 <= j < |strings| => Lev(strings[j], given));
  }

  ghost predicate IsFirstNearest(given: string, strings: seq<string>, i: nat)
    requires i < |strings|
  {
    && (forall j {:trigger strings[j]} | 0 <= j < |strings| :: Lev(strings[i], given) <= Lev(strings[j], given))
    && (forall j {:trigger strings[j]} | 0 <= j < i :: Lev(strings[i], given) < Lev(strings[j], given))
  }

  /** The first of the candidates that are nearest to `given`, by fewest edits. */
  method DidYouMean(given: string, strings: seq<string>) returns (r: Option<string>)
    ensures r.None? <==> strings == []
    ensures r.Some? ==> exists i :: 0 <= i < |strings| && r.value == strings[i] && IsFirstNearest(given, strings, i)
    ensures given in strings ==> r == Some(given)
  {
    if strings == [] {
      return None;
    }
    ghost var ds := Distances(given, strings);
    var best := 0;
    var least := LevEditDistance(strings[0], given);
    for n := 1 to |strings|
      invariant 0 <= best < n && least == ds[best]
      invariant forall j | 0 <= j < n :: least <= ds[j]
      invariant forall j | 0 <= j < best :: least < ds[j]
    {
      var d := LevEditDistance(strings[n], given);
      assert d == ds[n];
      if d < least {
        best, least := n, d;
      }
    }
    assert IsFirstNearest(given, strings, best) by {
      assert forall j | 0 <= j < |strings| :: ds[j] == Lev(strings[j], given);
    }
    if j :| 0 <= j < |strings| && strings[j] == given {
      LevZero(given, given);
      LevZero(strings[best], given);
      assert ds[best] <= ds[j];
    }
    return Some(strings[best]);
  }
}
