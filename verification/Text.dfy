/** The order of strings, and white space and trimming as the parsers use them. */
module Text {
  import opened Sequences

  predicate IsSpace(c: char) {
    c == ' ' || c == '\t' || c == '\n' || c == '\r' || c == '\U{B}' || c == '\U{C}'
  }

  predicate AllSpace(s: string) {
    forall i | 0 <= i < |s| :: IsSpace(s[i])
  }

  predicate Trimmed(s: string) {
    s == "" || (!IsSpace(s[0]) && !IsSpace(s[|s| - 1]))
  }

  /** `s` without the white space around it. */
  function Trim(s: string): (t: string)
    ensures Trimmed(t)
    ensures Trimmed(s) ==> t == s
    decreases |s|
  {
    if s == "" then ""
    else if IsSpace(s[0]) then Trim(s[1..])
    else if IsSpace(s[|s| - 1]) then Trim(s[..|s| - 1])
    else s
  }

  /** Only the white space around a trimmed text goes. */
  lemma {:induction false} TrimAround(before: string, t: string, after: string)
    requires AllSpace(before) && Trimmed(t) && AllSpace(after)
    ensures Trim(before + t + after) == t
    decreases |before| + |after|
  {
    var s := before + t + after;
    if before != "" {
      assert s[0] == before[0] && s[1..] == before[1..] + t + after;
      TrimAround(before[1..], t, after);
    } else if after != "" {
      var front := after[..|after| - 1];
      assert s[..|s| - 1] == before + t + front;
      assert s[|s| - 1] == after[|after| - 1];
      if t == "" {
        assert s[0] == after[0] && s[1..] == "" + t + after[1..];
        TrimAround("", t, after[1..]);
      } else {
        assert s[0] == t[0];
        TrimAround(before, t, front);
      }
    } else {
      assert s == t;
    }
  }

  /** Trimming keeps everything between two characters that are not white space. */
  lemma {:induction false} TrimKeeps(s: string, m: nat)
    requires m < |s| && !IsSpace(s[0]) && !IsSpace(s[m])
    ensures Trim(s) <= s && |Trim(s)| > m
    decreases |s|
  {
    if IsSpace(s[|s| - 1]) {
      TrimKeeps(s[..|s| - 1], m);
      assert s[..|s| - 1] <= s;
    }
  }

  lemma {:induction false} TrimContains(s: string, c: char)
    requires c !in s
    ensures c !in Trim(s)
    decreases |s|
  {
    if s != "" && IsSpace(s[0]) {
      TrimContains(s[1..], c);
    } else if s != "" && IsSpace(s[|s| - 1]) {
      TrimContains(s[..|s| - 1], c);
    }
  }

  lemma {:induction false} TrimShortens(s: string)
    ensures |Trim(s)| <= |s|
    decreases |s|
  {
    if s != "" && IsSpace(s[0]) {
      TrimShortens(s[1..]);
    } else if s != "" && IsSpace(s[|s| - 1]) {
      TrimShortens(s[..|s| - 1]);
    }
  }

  /** What trimming takes away is white space on both sides. */
  lemma {:induction false} TrimParts(s: string) returns (before: string, after: string)
    ensures s == before + Trim(s) + after && AllSpace(before) && AllSpace(after)
    decreases |s|
  {
    before, after := "", "";
    if s != "" && IsSpace(s[0]) {
      var more, rest := TrimParts(s[1..]);
      before, after := [s[0]] + more, rest;
      SpaceInFront(s, more, Trim(s), rest);
    } else if s != "" && IsSpace(s[|s| - 1]) {
      var more, rest := TrimParts(s[..|s| - 1]);
      before, after := more, rest + [s[|s| - 1]];
      SpaceBehind(s, more, Trim(s), rest);
    }
  }

  lemma SpaceInFront(s: string, before: string, t: string, after: string)
    requires s != "" && IsSpace(s[0]) && AllSpace(before) && s[1..] == before + t + after
    ensures s == [s[0]] + before + t + after && AllSpace([s[0]] + before)
  {
    HeadTail(s);
    Associate([s[0]], before + t, after);
    Associate([s[0]], before, t);
  }

  lemma SpaceBehind(s: string, before: string, t: string, after: string)
    requires s != "" && IsSpace(s[|s| - 1]) && AllSpace(after) && s[..|s| - 1] == before + t + after
    ensures s == before + t + (after + [s[|s| - 1]]) && AllSpace(after + [s[|s| - 1]])
  {
    Associate(before + t, after, [s[|s| - 1]]);
  }

  lemma {:induction false} TrimBefore(s: string) returns (before: string)
    requires s == "" || !IsSpace(s[|s| - 1])
    ensures s == before + Trim(s) && AllSpace(before)
  {
    before := "";
    if s != "" && IsSpace(s[0]) {
      var more := TrimBefore(s[1..]);
      before := [s[0]] + more;
      HeadTail(s);
      Associate([s[0]], more, Trim(s[1..]));
    }
  }

  /** The first character that is not white space is the first one left. */
  lemma {:induction false} TrimFirst(before: string, s: string)
    requires AllSpace(before) && s != "" && !IsSpace(s[0])
    ensures Trim(before + s) != "" && Trim(before + s)[0] == s[0]
  {
    if before == "" {
      assert before + s == s;
      TrimKeeps(s, 0);
    } else {
      assert (before + s)[1..] == before[1..] + s;
      TrimFirst(before[1..], s);
    }
  }

  // -- Order -----------------------------------------------------------------------------------

  predicate Less(a: string, b: string) {
    if b == "" then false
    else if a == "" then true
    else a[0] < b[0] || (a[0] == b[0] && Less(a[1..], b[1..]))
  }

  lemma {:induction false} LessIsStrict(a: string, b: string)
    ensures Less(a, b) ==> a != b && !Less(b, a)
    ensures a == b || Less(a, b) || Less(b, a)
  {
    if a != "" && b != "" {
      LessIsStrict(a[1..], b[1..]);
      assert a == [a[0]] + a[1..] && b == [b[0]] + b[1..];
    }
  }

  lemma {:induction false} LessTransitive(a: string, b: string, c: string)
    requires Less(a, b) && Less(b, c)
    ensures Less(a, c)
  {
    if a != "" && b != "" && c != "" && a[0] == b[0] == c[0] {
      LessTransitive(a[1..], b[1..], c[1..]);
    }
  }

  /** One string comes before another if it is a proper prefix of it, or has the smaller character where they first
      differ. */
  ghost predicate ComesBefore(a: string, b: string) {
    exists k ::
      && 0 <= k <= |a| && k < |b| && a[..k] == b[..k]
      && (k < |a| ==> a[k] < b[k])
  }

  lemma {:induction false} LessMeansBefore(a: string, b: string)
    ensures Less(a, b) <==> ComesBefore(a, b)
  {
    if a == "" && b != "" {
      assert a[..0] == b[..0];
    } else if a != "" && b != "" {
      LessMeansBefore(a[1..], b[1..]);
      if a[0] < b[0] {
        assert a[..0] == b[..0];
      } else if a[0] == b[0] {
        BeforeTail(a, b);
      } else {
        FirstsDiffer(a, b);
      }
    }
  }

  lemma FirstsDiffer(a: string, b: string)
    requires a != "" && b != "" && b[0] < a[0]
    ensures !ComesBefore(a, b)
  {
    forall k | 0 < k <= |a| && k < |b| ensures a[..k] != b[..k] {
      assert a[..k][0] == a[0] && b[..k][0] == b[0];
    }
  }

  lemma BeforeTail(a: string, b: string)
    requires a != "" && b != "" && a[0] == b[0]
    ensures ComesBefore(a, b) <==> ComesBefore(a[1..], b[1..])
  {
    if k :| 0 <= k <= |a| && k < |b| && a[..k] == b[..k] && (k < |a| ==> a[k] < b[k]) {
      assert k > 0;
      assert a[1..][..k - 1] == a[..k][1..] && b[1..][..k - 1] == b[..k][1..];
    }
    if k :|
        0 <= k <= |a[1..]| && k < |b[1..]| && a[1..][..k] == b[1..][..k] && (k < |a[1..]| ==> a[1..][k] < b[1..][k]) {
      assert a[..k + 1] == [a[0]] + a[1..][..k] && b[..k + 1] == [b[0]] + b[1..][..k];
    }
  }

  /** The characters that trimming takes away, one by one. */
  lemma TrimTakes(before: string, t: string, after: string)
    requires forall c | c in before || c in after :: c in " \t\n\r\U{B}\U{C}"
    requires t == "" || (t[0] !in " \t\n\r\U{B}\U{C}" && t[|t| - 1] !in " \t\n\r\U{B}\U{C}")
    ensures Trim(before + t + after) == t
  {
    forall i | 0 <= i < |before| ensures IsSpace(before[i]) {
      assert before[i] in before;
    }
    forall i | 0 <= i < |after| ensures IsSpace(after[i]) {
      assert after[i] in after;
    }
    TrimAround(before, t, after);
  }

  // -- Text without its white space ------------------------------------------------------------

  ghost function NoSpace(s: string): string {
    if s == "" then ""
    else if IsSpace(s[0]) then NoSpace(s[1..])
    else [s[0]] + NoSpace(s[1..])
  }

  lemma {:induction false} NoSpaceConcat(s: string, t: string)
    ensures NoSpace(s + t) == NoSpace(s) + NoSpace(t)
  {
    if s == "" {
      assert s + t == t;
    } else {
      assert (s + t)[1..] == s[1..] + t;
      NoSpaceConcat(s[1..], t);
    }
  }

  lemma {:induction false} NoSpaceOfSpace(s: string)
    requires AllSpace(s)
    ensures NoSpace(s) == ""
  {
    if s != "" {
      NoSpaceOfSpace(s[1..]);
    }
  }

  lemma NoSpaceTrim(s: string)
    ensures NoSpace(Trim(s)) == NoSpace(s)
  {
    var before, after := TrimParts(s);
    NoSpaceConcat(before + Trim(s), after);
    NoSpaceConcat(before, Trim(s));
    NoSpaceOfSpace(before);
    NoSpaceOfSpace(after);
  }

  method TrimView(s: string) returns (t: string)
    ensures t == Trim(s)
  {
    var iter := 0;
    while iter != |s| && IsSpace(s[iter])
      invariant 0 <= iter <= |s| && AllSpace(s[..iter])
    {
      iter := iter + 1;
    }
    var end := |s|;
    while end != iter && IsSpace(s[end - 1])
      invariant iter <= end <= |s| && AllSpace(s[end..])
    {
      end := end - 1;
    }
    t := s[iter..end];
    assert s == s[..iter] + t + s[end..];
    TrimAround(s[..iter], t, s[end..]);
  }
}
