/** Which cycle a depth-first search reports that stops at the first one it finds. */
module CycleReport {
  import opened Digraph

  ghost predicate NoneLeads<V(!new)>(g: Graph<V>, some: seq<V>) {
    forall w | w in some :: !LeadsToCycle(g, w)
  }

  /** `v` is the first successor of `u` that leads to a cycle. */
  ghost predicate FirstWay<V(!new)>(g: Graph<V>, u: V, v: V) {
    u in g && LeadsToCycle(g, v) && exists k :: 0 <= k < |g[u]| && g[u][k] == v && NoneLeads(g, g[u][..k])
  }

  /** From `root` on, always the first way to a cycle is taken, until it comes back to position `at`. */
  ghost predicate RunsInto<V(!new)>(g: Graph<V>, root: V, path: seq<V>, at: nat) {
    && at < |path| && path[0] == root && Distinct(path)
    && (forall i | 0 < i < |path| :: FirstWay(g, path[i - 1], path[i]))
    && FirstWay(g, path[|path| - 1], path[at])
  }

  lemma FirstWayUnique<V(!new)>(g: Graph<V>, u: V, v: V, w: V)
    requires FirstWay(g, u, v) && FirstWay(g, u, w)
    ensures v == w
  {
    var k :| 0 <= k < |g[u]| && g[u][k] == v && NoneLeads(g, g[u][..k]);
    var l :| 0 <= l < |g[u]| && g[u][l] == w && NoneLeads(g, g[u][..l]);
    assert k == l;
  }

  lemma {:induction false} SamePrefix<V(!new)>(g: Graph<V>, root: V, p: seq<V>, i: nat, q: seq<V>, j: nat, n: nat)
    requires RunsInto(g, root, p, i) && RunsInto(g, root, q, j) && n <= |p| && n <= |q|
    ensures p[..n] == q[..n]
  {
    if n > 1 {
      SamePrefix(g, root, p, i, q, j, n - 1);
      assert p[n - 2] == p[..n - 1][n - 2] == q[n - 2];
      FirstWayUnique(g, p[n - 2], p[n - 1], q[n - 1]);
    }
  }

  lemma NoLongerRun<V(!new)>(g: Graph<V>, root: V, p: seq<V>, i: nat, q: seq<V>, j: nat)
    requires RunsInto(g, root, p, i) && RunsInto(g, root, q, j)
    ensures |q| <= |p|
  {
    if |p| < |q| {
      SamePrefix(g, root, p, i, q, j, |p|);
      assert p == q[..|p|];
      FirstWayUnique(g, q[|p| - 1], q[i], q[|p|]);
    }
  }

  /** There is just one such run. */
  lemma OneRun<V(!new)>(g: Graph<V>, root: V, p: seq<V>, i: nat, q: seq<V>, j: nat)
    requires RunsInto(g, root, p, i) && RunsInto(g, root, q, j)
    ensures p == q && i == j
  {
    NoLongerRun(g, root, p, i, q, j);
    NoLongerRun(g, root, q, j, p, i);
    SamePrefix(g, root, p, i, q, j, |p|);
    assert p == p[..|p|] && q == q[..|q|];
    FirstWayUnique(g, p[|p| - 1], p[i], p[j]);
  }
}
