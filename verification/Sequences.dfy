/** Sequence algebra that the proofs name instead of leaving it to be found. */
module Sequences {
  lemma Associate<T>(a: seq<T>, b: seq<T>, c: seq<T>)
    ensures a + b + c == a + (b + c)
  {}

  lemma NothingBefore<T>(s: seq<T>)
    ensures [] + s == s
  {}

  lemma NothingAfter<T>(s: seq<T>)
    ensures s + [] == s
  {}

  lemma ConsTail<T>(x: T, s: seq<T>)
    ensures ([x] + s)[0] == x && ([x] + s)[1..] == s
  {}

  /** A non-empty sequence is its head and its tail. */
  lemma HeadTail<T>(s: seq<T>)
    requires s != []
    ensures s == [s[0]] + s[1..]
  {}

  /** The part before `i` grows by the element at `i`. */
  lemma TakeNext<T>(s: seq<T>, i: nat)
    requires i < |s|
    ensures s[..i + 1] == s[..i] + [s[i]]
  {}

  /** The part from `i` on loses the element at `i`. */
  lemma DropNext<T>(s: seq<T>, i: nat)
    requires i < |s|
    ensures s[i..] != [] && s[i..][0] == s[i] && s[i..][1..] == s[i + 1..]
  {}

  /** Where `x` first occurs, or the length. */
  function IndexOf<T(==)>(s: seq<T>, x: T): (at: nat)
    ensures at <= |s|
  {
    if s == [] || s[0] == x then 0 else 1 + IndexOf(s[1..], x)
  }

  lemma {:induction false} IndexFinds<T>(s: seq<T>, x: T)
    ensures var at := IndexOf(s, x); x !in s[..at] && (at < |s| ==> s[at] == x)
  {
    if s != [] && s[0] != x {
      IndexFinds(s[1..], x);
      var at := IndexOf(s, x);
      assert s[..at] == [s[0]] + s[1..][..at - 1];
    }
  }

  lemma {:induction false} IndexIs<T>(s: seq<T>, x: T, at: nat)
    requires at < |s| && s[at] == x && x !in s[..at]
    ensures IndexOf(s, x) == at
  {
    if at > 0 {
      assert s[..at] == [s[0]] + s[1..][..at - 1];
      IndexIs(s[1..], x, at - 1);
    }
  }
}
