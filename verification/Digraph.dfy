/** Finite directed graphs given as successor lists.  A successor that is not itself a key of the
    graph is a dangling reference; it contributes no edge. */
module Digraph {

  type Graph<V> = map<V, seq<V>>

  ghost predicate Edge<V>(g: Graph<V>, u: V, v: V) {
    u in g && v in g && v in g[u]
  }

  ghost predicate Distinct<V>(s: seq<V>) {
    forall i, j | 0 <= i < j < |s| :: s[i] != s[j]
  }

  ghost predicate IsWalk<V>(g: Graph<V>, p: seq<V>) {
    && |p| > 0
    && (forall v | v in p :: v in g)
    && (forall i | 0 < i < |p| :: StepInto(g, p, i))
  }

  ghost predicate StepInto<V>(g: Graph<V>, p: seq<V>, i: nat)
    requires 0 < i < |p|
  {
    Edge(g, p[i - 1], p[i])
  }

  ghost predicate WalkBetween<V>(g: Graph<V>, p: seq<V>, u: V, v: V) {
    IsWalk(g, p) && p[0] == u && p[|p| - 1] == v
  }

  /** A closed walk: every member has an edge to the next one, and the last one to the first. */
  ghost predicate IsCycle<V>(g: Graph<V>, c: seq<V>) {
    IsWalk(g, c) && Edge(g, c[|c| - 1], c[0])
  }

  ghost predicate Acyclic<V(!new)>(g: Graph<V>) {
    forall c: seq<V> :: !IsCycle(g, c)
  }

  ghost predicate Reaches<V(!new)>(g: Graph<V>, u: V, v: V) {
    exists p: seq<V> :: WalkBetween(g, p, u, v)
  }

  /** Every vertex that can be reached from `u`, `u` itself included. */
  ghost function ReachSet<V(!new)>(g: Graph<V>, u: V): set<V> {
    set v | v in g.Keys && Reaches(g, u, v)
  }

  /** Listing the vertices so that every edge leads to an earlier one. */
  ghost predicate Topological<V(!new)>(g: Graph<V>, order: seq<V>) {
    && Distinct(order)
    && (forall v | v in order :: v in g)
    && (forall i, w | 0 <= i < |order| && Edge(g, order[i], w) :: w in order[..i])
  }

  lemma TopologicalExtend<V(!new)>(g: Graph<V>, order: seq<V>, v: V)
    requires Topological(g, order) && v in g && v !in order
    requires forall w | Edge(g, v, w) :: w in order
    ensures Topological(g, order + [v])
  {
    var longer := order + [v];
    forall i, w | 0 <= i < |longer| && Edge(g, longer[i], w) ensures w in longer[..i] {
      assert longer[..i] == order[..i];
      assert order[..|order|] == order;
    }
  }

  lemma WalkTail<V>(g: Graph<V>, p: seq<V>)
    requires IsWalk(g, p) && |p| > 1
    ensures Edge(g, p[0], p[1]) && IsWalk(g, p[1..])
  {
    var rest := p[1..];
    assert StepInto(g, p, 1);
    forall i | 0 < i < |rest| ensures StepInto(g, rest, i) {
      assert StepInto(g, p, i + 1);
    }
  }

  lemma WalkPrepend<V>(g: Graph<V>, u: V, p: seq<V>)
    requires IsWalk(g, p) && Edge(g, u, p[0])
    ensures IsWalk(g, [u] + p)
  {
    var q := [u] + p;
    forall i | 0 < i < |q| ensures StepInto(g, q, i) {
      if i > 1 { assert StepInto(g, p, i - 1); }
    }
  }

  /** Along a walk that starts at position `at` of a topological listing, the position drops by at
      least one each step. */
  lemma {:induction false} WalkDescends<V(!new)>(g: Graph<V>, order: seq<V>, p: seq<V>, at: nat) returns (end: nat)
    requires Topological(g, order) && IsWalk(g, p)
    requires at < |order| && order[at] == p[0]
    ensures end < |order| && order[end] == p[|p| - 1] && end + |p| <= at + 1
    decreases |p|
  {
    if |p| == 1 {
      end := at;
    } else {
      WalkTail(g, p);
      assert p[1] in order[..at];
      var next :| 0 <= next < at && order[next] == p[1];
      end := WalkDescends(g, order, p[1..], next);
    }
  }

  lemma NoCycleInListing<V(!new)>(g: Graph<V>, order: seq<V>, c: seq<V>)
    requires Topological(g, order) && IsWalk(g, c) && c[0] in order
    ensures !IsCycle(g, c)
  {
    var at :| 0 <= at < |order| && order[at] == c[0];
    var end := WalkDescends(g, order, c, at);
  }

  lemma TopologicalMeansAcyclic<V(!new)>(g: Graph<V>, order: seq<V>)
    requires Topological(g, order)
    requires forall v | v in g :: v in order
    ensures Acyclic(g)
  {
    forall c: seq<V> ensures !IsCycle(g, c) {
      if IsCycle(g, c) {
        NoCycleInListing(g, order, c);
      }
    }
  }

  lemma ReachesSelf<V(!new)>(g: Graph<V>, u: V)
    requires u in g
    ensures Reaches(g, u, u)
  {
    assert WalkBetween(g, [u], u, u);
  }

  lemma EdgeThenReach<V(!new)>(g: Graph<V>, u: V, v: V, w: V)
    requires Edge(g, u, v) && Reaches(g, v, w)
    ensures Reaches(g, u, w)
  {
    var p: seq<V> :| WalkBetween(g, p, v, w);
    WalkPrepend(g, u, p);
    assert WalkBetween(g, [u] + p, u, w);
  }

  /** What a vertex reaches is itself or is reached through one of its successors. */
  lemma ReachUnfold<V(!new)>(g: Graph<V>, u: V, w: V)
    requires Reaches(g, u, w)
    ensures w == u || exists v :: Edge(g, u, v) && Reaches(g, v, w)
  {
    var p: seq<V> :| WalkBetween(g, p, u, w);
    if |p| > 1 {
      WalkTail(g, p);
      assert WalkBetween(g, p[1..], p[1], w);
    }
  }

  lemma ReachThenEdge<V(!new)>(g: Graph<V>, x: V, w: V, u: V)
    requires Reaches(g, x, w) && Edge(g, w, u)
    ensures Reaches(g, x, u)
  {
    var p: seq<V> :| WalkBetween(g, p, x, w);
    var q := p + [u];
    forall i | 0 < i < |q| ensures StepInto(g, q, i) {
      if i < |p| { assert StepInto(g, p, i); }
    }
    assert WalkBetween(g, q, x, u);
  }

  // -- Cycles within reach ---------------------------------------------------------------------

  /** A cycle can be reached from `u`. */
  ghost predicate LeadsToCycle<V(!new)>(g: Graph<V>, u: V) {
    exists c: seq<V> :: IsCycle(g, c) && Reaches(g, u, c[0])
  }

  lemma MissingLeadsNowhere<V(!new)>(g: Graph<V>, u: V)
    requires u !in g
    ensures ReachSet(g, u) == {} && !LeadsToCycle(g, u)
  {}

  /** Nothing in a topological listing leads to a cycle. */
  lemma ListedLeadsToNone<V(!new)>(g: Graph<V>, order: seq<V>, v: V)
    requires Topological(g, order) && v in order
    ensures !LeadsToCycle(g, v)
  {
    forall c: seq<V> | IsCycle(g, c) ensures !Reaches(g, v, c[0]) {
      if p: seq<V> :| WalkBetween(g, p, v, c[0]) {
        var at :| 0 <= at < |order| && order[at] == v;
        var end := WalkDescends(g, order, p, at);
        NoCycleInListing(g, order, c);
      }
    }
  }

  /** The cycle is also reached through one of the successors. */
  lemma CycleThroughSuccessor<V(!new)>(g: Graph<V>, u: V) returns (x: V)
    requires u in g && LeadsToCycle(g, u)
    ensures Edge(g, u, x) && LeadsToCycle(g, x)
  {
    var c: seq<V> :| IsCycle(g, c) && Reaches(g, u, c[0]);
    var last := c[|c| - 1];
    assert WalkBetween(g, c, c[0], last);
    if c[0] != u {
      ReachUnfold(g, u, c[0]);
      x :| Edge(g, u, x) && Reaches(g, x, c[0]);
    } else if last == u {
      x := u;
      ReachesSelf(g, u);
    } else {
      ReachUnfold(g, u, last);
      x :| Edge(g, u, x) && Reaches(g, x, last);
      ReachThenEdge(g, x, last, u);
    }
  }

  lemma CycleFromSuccessor<V(!new)>(g: Graph<V>, u: V, v: V)
    requires Edge(g, u, v)
    ensures LeadsToCycle(g, v) ==> LeadsToCycle(g, u)
    ensures Reaches(g, v, u) ==> LeadsToCycle(g, u)
  {
    ReachesSelf(g, v);
    EdgeThenReach(g, u, v, v);
    if c: seq<V> :| IsCycle(g, c) && Reaches(g, v, c[0]) {
      EdgeThenReach(g, u, v, c[0]);
    }
    if p: seq<V> :| WalkBetween(g, p, v, u) {
      assert IsCycle(g, p) && Reaches(g, u, p[0]);
    }
  }

  /** Where no cycle is within reach, the set of reachable vertices shrinks along every edge, which makes it a rank
      for recursion over the graph. */
  lemma ReachShrinks<V(!new)>(g: Graph<V>, u: V, v: V)
    requires !LeadsToCycle(g, u) && u in g && v in g[u]
    ensures ReachSet(g, v) < ReachSet(g, u) && !LeadsToCycle(g, v)
  {
    ReachesSelf(g, u);
    assert u in ReachSet(g, u);
    if v !in g {
      MissingLeadsNowhere(g, v);
    } else {
      forall w | w in g && Reaches(g, v, w) ensures Reaches(g, u, w) {
        EdgeThenReach(g, u, v, w);
      }
      CycleFromSuccessor(g, u, v);
      assert u !in ReachSet(g, v);
    }
  }
}
