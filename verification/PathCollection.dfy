/** What the recursive path collectors compute, as a function of the graph they recurse over, which may have cycles:
    the calls are followed to a bounded depth, and a call that never returns has no result at any depth. */
module PathCollection {
  import opened Wrappers
  import opened Digraph

  /** What a call returns if no more than `depth` calls are nested, and nothing if more are.  A vertex contributes its
      own paths and then those of its successors, in order; the first dangling successor met on the way is the error. */
  ghost function Within<V(!new), P>(g: Graph<V>, own: map<V, seq<P>>, u: V, depth: nat): Option<Result<seq<P>, V>>
    requires own.Keys == g.Keys
    decreases depth, 0
  {
    if depth == 0 then None
    else if u !in g then Some(Failure(u))
    else WithinNext(g, own, u, |g[u]|, depth)
  }

  /** The part of `Within` up to the first `k` successors. */
  ghost function WithinNext<V(!new), P>(g: Graph<V>, own: map<V, seq<P>>, u: V, k: nat, depth: nat)
    : Option<Result<seq<P>, V>>
    requires own.Keys == g.Keys && u in g && k <= |g[u]| && depth > 0
    decreases depth - 1, 1, k
  {
    if k == 0 then Some(Success(own[u]))
    else
      var before := WithinNext(g, own, u, k - 1, depth);
      if before.None? || before.value.Failure? then before
      else
        var next := Within(g, own, g[u][k - 1], depth - 1);
        if next.None? || next.value.Failure? then next
        else Some(Success(before.value.value + next.value.value))
  }

  /** The call returns. */
  ghost predicate Returns<V(!new), P>(g: Graph<V>, own: map<V, seq<P>>, u: V)
    requires own.Keys == g.Keys
  {
    exists depth :: Within(g, own, u, depth).Some?
  }

  /** The call returns `r`. */
  ghost predicate ReturnsAs<V(!new), P>(g: Graph<V>, own: map<V, seq<P>>, u: V, r: Result<seq<P>, V>)
    requires own.Keys == g.Keys
  {
    exists depth :: Within(g, own, u, depth) == Some(r)
  }

  /** What the next successor adds, or that its failure is the result. */
  lemma WithinStep<V(!new), P>(g: Graph<V>, own: map<V, seq<P>>, u: V, k: nat, v: V, depth: nat)
    requires own.Keys == g.Keys && u in g && k < |g[u]| && g[u][k] == v
    requires depth > 0 && Within(g, own, u, depth).Some?
    requires WithinNext(g, own, u, k, depth).Some? && WithinNext(g, own, u, k, depth).value.Success?
    ensures Within(g, own, v, depth - 1).Some?
    ensures
      var before, next := WithinNext(g, own, u, k, depth).value, Within(g, own, v, depth - 1).value;
      if next.Failure? then Within(g, own, u, depth) == Some(next)
      else WithinNext(g, own, u, k + 1, depth) == Some(Success(before.value + next.value))
  {
    var next := Within(g, own, v, depth - 1);
    if next.None? || next.value.Failure? {
      WithinStops(g, own, u, k + 1, depth);
    }
  }

  /** Once a successor does not return, or fails, that is the result. */
  lemma {:induction false} WithinStops<V(!new), P>(g: Graph<V>, own: map<V, seq<P>>, u: V, k: nat, depth: nat)
    requires own.Keys == g.Keys && u in g && k <= |g[u]| && depth > 0
    requires var r := WithinNext(g, own, u, k, depth); r.None? || r.value.Failure?
    ensures Within(g, own, u, depth) == WithinNext(g, own, u, k, depth)
    decreases |g[u]| - k
  {
    if k < |g[u]| {
      WithinStops(g, own, u, k + 1, depth);
    }
  }

  /** A result does not depend on how deep the calls may go. */
  lemma {:induction false} MoreDepth<V(!new), P>(g: Graph<V>, own: map<V, seq<P>>, u: V, depth: nat, more: nat)
    requires own.Keys == g.Keys && depth <= more && Within(g, own, u, depth).Some?
    ensures Within(g, own, u, more) == Within(g, own, u, depth)
    decreases depth, 0
  {
    if u in g {
      MoreDepthNext(g, own, u, |g[u]|, depth, more);
    }
  }

  lemma {:induction false} MoreDepthNext<V(!new), P>(g: Graph<V>, own: map<V, seq<P>>, u: V, k: nat, depth: nat,
                                                     more: nat)
    requires own.Keys == g.Keys && u in g && k <= |g[u]| && 0 < depth <= more
    requires WithinNext(g, own, u, k, depth).Some?
    ensures WithinNext(g, own, u, k, more) == WithinNext(g, own, u, k, depth)
    decreases depth - 1, 1, k
  {
    if k > 0 {
      MoreDepthNext(g, own, u, k - 1, depth, more);
      if WithinNext(g, own, u, k - 1, depth).value.Success? {
        MoreDepth(g, own, g[u][k - 1], depth - 1, more - 1);
      }
    }
  }

  lemma OneResult<V(!new), P>(g: Graph<V>, own: map<V, seq<P>>, u: V, r: Result<seq<P>, V>, s: Result<seq<P>, V>)
    requires own.Keys == g.Keys && ReturnsAs(g, own, u, r) && ReturnsAs(g, own, u, s)
    ensures r == s
  {
    var a: nat :| Within(g, own, u, a) == Some(r);
    var b: nat :| Within(g, own, u, b) == Some(s);
    MoreDepth(g, own, u, a, if a < b then b else a);
    MoreDepth(g, own, u, b, if a < b then b else a);
  }

  // -- In which order --------------------------------------------------------------------------

  ghost function Joined<P>(parts: seq<seq<P>>): seq<P> {
    if parts == [] then [] else Joined(parts[..|parts| - 1]) + parts[|parts| - 1]
  }

  /** The successors before position `k` return these parts. */
  ghost predicate PartsReturned<V(!new), P>(g: Graph<V>, own: map<V, seq<P>>, u: V, parts: seq<seq<P>>, depth: nat)
    requires own.Keys == g.Keys && u in g && |parts| <= |g[u]|
  {
    forall j | 0 <= j < |parts| :: Within(g, own, g[u][j], depth) == Some(Success(parts[j]))
  }

  lemma {:induction false} NextInOrder<V(!new), P>(g: Graph<V>, own: map<V, seq<P>>, u: V, k: nat, depth: nat)
    returns (parts: seq<seq<P>>)
    requires own.Keys == g.Keys && u in g && k <= |g[u]| && depth > 0
    requires WithinNext(g, own, u, k, depth).Some? && WithinNext(g, own, u, k, depth).value.Success?
    ensures |parts| == k && PartsReturned(g, own, u, parts, depth - 1)
    ensures WithinNext(g, own, u, k, depth).value.value == own[u] + Joined(parts)
  {
    if k == 0 {
      parts := [];
      assert own[u] + [] == own[u];
    } else {
      var before := NextInOrder(g, own, u, k - 1, depth);
      var next := Within(g, own, g[u][k - 1], depth - 1).value.value;
      parts := before + [next];
      assert parts[..k - 1] == before;
      assert own[u] + (Joined(before) + next) == own[u] + Joined(before) + next;
    }
  }

  /** A collection that returns paths lists the vertex's own paths and then those that each of its successors returns,
      in the order of the successors, repetitions included. */
  lemma ReturnedInOrder<V(!new), P>(g: Graph<V>, own: map<V, seq<P>>, u: V, paths: seq<P>)
    returns (parts: seq<seq<P>>)
    requires own.Keys == g.Keys && ReturnsAs(g, own, u, Success(paths))
    ensures u in g && |parts| == |g[u]| && paths == own[u] + Joined(parts)
    ensures forall j | 0 <= j < |parts| :: ReturnsAs(g, own, g[u][j], Success(parts[j]))
  {
    var depth: nat :| Within(g, own, u, depth) == Some(Success(paths));
    parts := NextInOrder(g, own, u, |g[u]|, depth);
    forall j | 0 <= j < |parts| ensures ReturnsAs(g, own, g[u][j], Success(parts[j])) {
      assert Within(g, own, g[u][j], depth - 1) == Some(Success(parts[j]));
    }
  }

  // -- What is returned ------------------------------------------------------------------------

  /** Nothing reachable from `u`, `u` included, is missing. */
  ghost predicate Complete<V(!new)>(g: Graph<V>, u: V) {
    u in g && forall v, w | v in ReachSet(g, u) && w in g[v] :: w in g
  }

  /** `missing` is `u` itself or is used by something reachable from it. */
  ghost predicate Dangling<V(!new)>(g: Graph<V>, u: V, missing: V) {
    missing !in g && (missing == u || exists v :: v in ReachSet(g, u) && missing in g[v])
  }

  /** The union of what the vertices reachable from `u` own. */
  ghost function Offers<V(!new), P>(g: Graph<V>, own: map<V, seq<P>>, u: V): set<P>
    requires own.Keys == g.Keys
  {
    set v, p | v in ReachSet(g, u) && p in own[v] :: p
  }

  ghost predicate Collected<V(!new), P>(g: Graph<V>, own: map<V, seq<P>>, u: V, r: Result<seq<P>, V>)
    requires own.Keys == g.Keys
  {
    match r
    case Success(paths) => Complete(g, u) && (set p | p in paths) == Offers(g, own, u)
    case Failure(missing) => Dangling(g, u, missing)
  }

  /** The successors before position `k` hold nothing dangling and offer `some`. */
  ghost predicate PartlyCollected<V(!new), P(!new)>(g: Graph<V>, own: map<V, seq<P>>, u: V, k: nat, paths: seq<P>)
    requires own.Keys == g.Keys && u in g && k <= |g[u]|
  {
    && (forall j | 0 <= j < k :: Complete(g, g[u][j]))
    && (forall p :: p in paths <==> p in own[u] || exists j :: 0 <= j < k && p in Offers(g, own, g[u][j]))
  }

  /** On any graph at all, a collector that returns paths returns those of exactly the reachable libraries, none of
      which is missing; otherwise it names a missing one that is really needed. */
  lemma {:induction false} WithinIsUnion<V(!new), P(!new)>(g: Graph<V>, own: map<V, seq<P>>, u: V, depth: nat)
    requires own.Keys == g.Keys && Within(g, own, u, depth).Some?
    ensures Collected(g, own, u, Within(g, own, u, depth).value)
    decreases depth, 0
  {
    if u in g {
      WithinNextIsUnion(g, own, u, |g[u]|, depth);
      var r := WithinNext(g, own, u, |g[u]|, depth).value;
      if r.Success? {
        CompleteUnfold(g, u);
        OffersUnfold(g, own, u);
        assert (set p | p in r.value) == Offers(g, own, u);
      }
    }
  }

  lemma {:induction false} WithinNextIsUnion<V(!new), P(!new)>(g: Graph<V>, own: map<V, seq<P>>, u: V, k: nat,
                                                               depth: nat)
    requires own.Keys == g.Keys && u in g && k <= |g[u]| && depth > 0
    requires WithinNext(g, own, u, k, depth).Some?
    ensures
      match WithinNext(g, own, u, k, depth).value
      case Success(paths) => PartlyCollected(g, own, u, k, paths)
      case Failure(missing) => Dangling(g, u, missing)
    decreases depth - 1, 1, k
  {
    if k > 0 {
      WithinNextIsUnion(g, own, u, k - 1, depth);
      var before := WithinNext(g, own, u, k - 1, depth).value;
      if before.Success? {
        var v := g[u][k - 1];
        WithinIsUnion(g, own, v, depth - 1);
        var next := Within(g, own, v, depth - 1).value;
        if next.Success? {
          PartlyNext(g, own, u, k - 1, before.value, next.value);
        } else {
          DanglingThrough(g, u, v, next.error);
        }
      }
    }
  }

  lemma PartlyNext<V(!new), P(!new)>(g: Graph<V>, own: map<V, seq<P>>, u: V, k: nat, paths: seq<P>, more: seq<P>)
    requires own.Keys == g.Keys && u in g && k < |g[u]|
    requires PartlyCollected(g, own, u, k, paths) && Collected(g, own, g[u][k], Success(more))
    ensures PartlyCollected(g, own, u, k + 1, paths + more)
  {
    forall p
      ensures p in paths + more <==> p in own[u] || exists j :: 0 <= j < k + 1 && p in Offers(g, own, g[u][j])
    {
      assert p in more <==> p in Offers(g, own, g[u][k]);
    }
  }

  lemma DanglingThrough<V(!new)>(g: Graph<V>, u: V, v: V, missing: V)
    requires u in g && v in g[u] && Dangling(g, v, missing)
    ensures Dangling(g, u, missing)
  {
    ReachesSelf(g, u);
    if missing == v {
      assert u in ReachSet(g, u) && missing in g[u];
    } else {
      var w :| w in ReachSet(g, v) && missing in g[w];
      assert v in g;
      EdgeThenReach(g, u, v, w);
      assert w in ReachSet(g, u) && missing in g[w];
    }
  }

  lemma CompleteUnfold<V(!new)>(g: Graph<V>, u: V)
    requires u in g && forall j | 0 <= j < |g[u]| :: Complete(g, g[u][j])
    ensures Complete(g, u)
  {
    forall v, w | v in ReachSet(g, u) && w in g[v] ensures w in g {
      ReachUnfold(g, u, v);
      if v == u {
        var j :| 0 <= j < |g[u]| && g[u][j] == w;
        assert Complete(g, g[u][j]);
      } else {
        var x :| Edge(g, u, x) && Reaches(g, x, v);
        var j :| 0 <= j < |g[u]| && g[u][j] == x;
        assert Complete(g, g[u][j]) && v in ReachSet(g, x);
      }
    }
  }

  lemma OffersUnfold<V(!new), P(!new)>(g: Graph<V>, own: map<V, seq<P>>, u: V)
    requires own.Keys == g.Keys && u in g
    requires forall j | 0 <= j < |g[u]| :: g[u][j] in g
    ensures forall p :: p in Offers(g, own, u) <==>
      p in own[u] || exists j :: 0 <= j < |g[u]| && p in Offers(g, own, g[u][j])
  {
    forall p
      ensures p in Offers(g, own, u) <==>
        p in own[u] || exists j :: 0 <= j < |g[u]| && p in Offers(g, own, g[u][j])
    {
      ReachesSelf(g, u);
      if p in Offers(g, own, u) {
        var v :| v in ReachSet(g, u) && p in own[v];
        ReachUnfold(g, u, v);
        if v != u {
          var x :| Edge(g, u, x) && Reaches(g, x, v);
          var j :| 0 <= j < |g[u]| && g[u][j] == x;
          assert v in ReachSet(g, x);
          assert p in Offers(g, own, g[u][j]);
        }
      }
      if p in own[u] {
        assert u in ReachSet(g, u);
      } else if exists j :: 0 <= j < |g[u]| && p in Offers(g, own, g[u][j]) {
        var j :| 0 <= j < |g[u]| && p in Offers(g, own, g[u][j]);
        var v :| v in ReachSet(g, g[u][j]) && p in own[v];
        EdgeThenReach(g, u, g[u][j], v);
        assert v in ReachSet(g, u);
      }
    }
  }
}
