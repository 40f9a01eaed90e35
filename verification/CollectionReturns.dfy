/** When the path collectors return at all. */
module CollectionReturns {
  import opened Digraph
  import opened PathCollection
  import opened Wrappers

  /** The call returns paths. */
  ghost predicate Collects<V(!new), P>(g: Graph<V>, own: map<V, seq<P>>, u: V, depth: nat)
    requires own.Keys == g.Keys
  {
    var r := Within(g, own, u, depth);
    r.Some? && r.value.Success?
  }

  lemma {:induction false} CollectsNext<V(!new), P>(g: Graph<V>, own: map<V, seq<P>>, u: V, k: nat, depth: nat)
    requires own.Keys == g.Keys && u in g && k <= |g[u]| && depth > 0
    requires WithinNext(g, own, u, k, depth).Some? && WithinNext(g, own, u, k, depth).value.Success?
    ensures forall j | 0 <= j < k :: Collects(g, own, g[u][j], depth - 1)
  {
    if k > 0 {
      CollectsNext(g, own, u, k - 1, depth);
    }
  }

  lemma {:induction false} NextReturns<V(!new), P>(g: Graph<V>, own: map<V, seq<P>>, u: V, k: nat, depth: nat)
    requires own.Keys == g.Keys && u in g && k <= |g[u]| && depth > 0
    requires forall j | 0 <= j < k :: Within(g, own, g[u][j], depth - 1).Some?
    ensures WithinNext(g, own, u, k, depth).Some?
  {
    if k > 0 {
      NextReturns(g, own, u, k - 1, depth);
    }
  }

  lemma {:induction false} CollectedHasNoCycle<V(!new), P>(g: Graph<V>, own: map<V, seq<P>>, u: V, depth: nat)
    requires own.Keys == g.Keys && Collects(g, own, u, depth)
    ensures !LeadsToCycle(g, u)
  {
    CollectsNext(g, own, u, |g[u]|, depth);
    forall j | 0 <= j < |g[u]| ensures !LeadsToCycle(g, g[u][j]) {
      CollectedHasNoCycle(g, own, g[u][j], depth - 1);
    }
    if LeadsToCycle(g, u) {
      var x := CycleThroughSuccessor(g, u);
    }
  }

  /** Where no cycle is within reach, the call returns: the depth that is needed is bounded by what can be reached. */
  lemma {:induction false} NoCycleReturns<V(!new), P>(g: Graph<V>, own: map<V, seq<P>>, u: V)
    requires own.Keys == g.Keys && !LeadsToCycle(g, u)
    ensures Within(g, own, u, |ReachSet(g, u)| + 1).Some?
    decreases ReachSet(g, u)
  {
    if u in g {
      var depth := |ReachSet(g, u)| + 1;
      forall j | 0 <= j < |g[u]| ensures Within(g, own, g[u][j], depth - 1).Some? {
        var v := g[u][j];
        ReachShrinks(g, u, v);
        SmallerSet(ReachSet(g, v), ReachSet(g, u));
        NoCycleReturns(g, own, v);
        MoreDepth(g, own, v, |ReachSet(g, v)| + 1, depth - 1);
      }
      NextReturns(g, own, u, |g[u]|, depth);
    }
  }

  lemma SmallerSet<V>(a: set<V>, b: set<V>)
    requires a < b
    ensures |a| < |b|
  {
    var x :| x in b && x !in a;
    assert a <= b - {x};
    NoLargerSet(a, b - {x});
  }

  lemma {:induction false} NoLargerSet<V>(a: set<V>, b: set<V>)
    requires a <= b
    ensures |a| <= |b|
  {
    if a != {} {
      var x :| x in a;
      NoLargerSet(a - {x}, b - {x});
    }
  }

  /** On any graph at all, a collector returns paths if and only if nothing that it needs is missing and no cycle is
      within its reach.  It returns whenever no cycle is within its reach, and from a cycle only to name a missing
      library. */
  lemma ReturnsExactly<V(!new), P(!new)>(g: Graph<V>, own: map<V, seq<P>>, u: V)
    requires own.Keys == g.Keys
    ensures (exists paths :: ReturnsAs(g, own, u, Success(paths))) <==> Complete(g, u) && !LeadsToCycle(g, u)
    ensures !LeadsToCycle(g, u) ==> Returns(g, own, u)
    ensures Complete(g, u) ==> (Returns(g, own, u) <==> !LeadsToCycle(g, u))
  {
    if paths :| ReturnsAs(g, own, u, Success(paths)) {
      var depth :| Within(g, own, u, depth) == Some(Success(paths));
      WithinIsUnion(g, own, u, depth);
      CollectedHasNoCycle(g, own, u, depth);
    }
    if Complete(g, u) && Returns(g, own, u) {
      var depth :| Within(g, own, u, depth).Some?;
      WithinIsUnion(g, own, u, depth);
      assert Within(g, own, u, depth).value.Success?;
      CollectedHasNoCycle(g, own, u, depth);
      assert ReturnsAs(g, own, u, Success(Within(g, own, u, depth).value.value));
    }
    if !LeadsToCycle(g, u) {
      NoCycleReturns(g, own, u);
    }
  }

  // -- Missing libraries before cycles ---------------------------------------------------------

  /** No paths can be returned. */
  ghost predicate Troubled<V(!new)>(g: Graph<V>, u: V) {
    !Complete(g, u) || LeadsToCycle(g, u)
  }

  ghost predicate TroubledAt<V(!new)>(g: Graph<V>, u: V, k: nat) {
    && u in g && k < |g[u]| && Troubled(g, g[u][k])
    && forall j | 0 <= j < k :: !Troubled(g, g[u][j])
  }

  /** Always going to the first troubled successor, `n` steps lead to a missing vertex. */
  ghost predicate MeetsMissing<V(!new)>(g: Graph<V>, u: V, n: nat) {
    if n == 0 then u !in g else exists k: nat :: TroubledAt(g, u, k) && MeetsMissing(g, g[u][k], n - 1)
  }

  ghost predicate MissingFirst<V(!new)>(g: Graph<V>, u: V) {
    exists n: nat :: MeetsMissing(g, u, n)
  }

  lemma FirstTrouble<V(!new)>(g: Graph<V>, u: V) returns (k: nat)
    requires u in g && Troubled(g, u)
    ensures TroubledAt(g, u, k)
  {
    k := 0;
    while k < |g[u]| && !Troubled(g, g[u][k])
      invariant k <= |g[u]| && forall j | 0 <= j < k :: !Troubled(g, g[u][j])
    {
      k := k + 1;
    }
    if k == |g[u]| {
      CompleteUnfold(g, u);
      var x := CycleThroughSuccessor(g, u);
    }
  }

  lemma TroubledFails<V(!new), P(!new)>(g: Graph<V>, own: map<V, seq<P>>, u: V, depth: nat)
    requires own.Keys == g.Keys && Within(g, own, u, depth).Some?
    ensures Within(g, own, u, depth).value.Failure? <==> Troubled(g, u)
  {
    WithinIsUnion(g, own, u, depth);
    if Within(g, own, u, depth).value.Success? {
      CollectedHasNoCycle(g, own, u, depth);
    }
  }

  /** The successors before the first troubled one have been collected when it is called. */
  lemma {:induction false} CollectedBefore<V(!new), P(!new)>(g: Graph<V>, own: map<V, seq<P>>, u: V, k: nat,
                                                             depth: nat)
    requires own.Keys == g.Keys && u in g && k <= |g[u]| && depth > 0 && Within(g, own, u, depth).Some?
    requires forall j | 0 <= j < k :: !Troubled(g, g[u][j])
    ensures WithinNext(g, own, u, k, depth).Some? && WithinNext(g, own, u, k, depth).value.Success?
  {
    if k > 0 {
      CollectedBefore(g, own, u, k - 1, depth);
      WithinStep(g, own, u, k - 1, g[u][k - 1], depth);
      TroubledFails(g, own, g[u][k - 1], depth - 1);
    }
  }

  lemma {:induction false} ReturnMeetsMissing<V(!new), P(!new)>(g: Graph<V>, own: map<V, seq<P>>, u: V, depth: nat)
    returns (n: nat)
    requires own.Keys == g.Keys && Within(g, own, u, depth).Some? && Troubled(g, u)
    ensures MeetsMissing(g, u, n)
    decreases depth
  {
    if u !in g {
      n := 0;
    } else {
      var k := FirstTrouble(g, u);
      CollectedBefore(g, own, u, k, depth);
      WithinStep(g, own, u, k, g[u][k], depth);
      var rest := ReturnMeetsMissing(g, own, g[u][k], depth - 1);
      n := rest + 1;
    }
  }

  lemma {:induction false} MissingReturns<V(!new), P(!new)>(g: Graph<V>, own: map<V, seq<P>>, u: V, n: nat)
    returns (depth: nat)
    requires own.Keys == g.Keys && MeetsMissing(g, u, n)
    ensures Within(g, own, u, depth).Some?
  {
    if n == 0 {
      depth := 1;
    } else {
      var k: nat :| TroubledAt(g, u, k) && MeetsMissing(g, g[u][k], n - 1);
      var inner := MissingReturns(g, own, g[u][k], n - 1);
      depth := inner + |g.Keys| + 2;
      FailsAt(g, own, u, k, inner, depth);
    }
  }

  /** With room enough, the successors before the troubled one return, and it fails. */
  lemma FailsAt<V(!new), P(!new)>(g: Graph<V>, own: map<V, seq<P>>, u: V, k: nat, inner: nat, depth: nat)
    requires own.Keys == g.Keys && TroubledAt(g, u, k) && Within(g, own, g[u][k], inner).Some?
    requires depth > inner + |g.Keys| + 1
    ensures Within(g, own, u, depth).Some?
  {
    forall j | 0 <= j <= k ensures Within(g, own, g[u][j], depth - 1).Some? {
      var v := g[u][j];
      if j < k {
        NoLargerSet(ReachSet(g, v), g.Keys);
        NoCycleReturns(g, own, v);
        MoreDepth(g, own, v, |ReachSet(g, v)| + 1, depth - 1);
      } else {
        MoreDepth(g, own, v, inner, depth - 1);
      }
    }
    NextReturns(g, own, u, k + 1, depth);
    TroubledFails(g, own, g[u][k], depth - 1);
    WithinStops(g, own, u, k + 1, depth);
  }

  /** On every graph, a call returns if and only if no trouble is within its reach, or always going to the first trouble
      leads to a missing vertex rather than around a cycle. */
  lemma ReturnsIfMissingFirst<V(!new), P(!new)>(g: Graph<V>, own: map<V, seq<P>>, u: V)
    requires own.Keys == g.Keys
    ensures Returns(g, own, u) <==> !Troubled(g, u) || MissingFirst(g, u)
  {
    if !Troubled(g, u) {
      NoCycleReturns(g, own, u);
    } else if Returns(g, own, u) {
      var depth: nat :| Within(g, own, u, depth).Some?;
      var n := ReturnMeetsMissing(g, own, u, depth);
      assert MeetsMissing(g, u, n);
    } else if MissingFirst(g, u) {
      var n: nat :| MeetsMissing(g, u, n);
      var depth := MissingReturns(g, own, u, n);
    }
  }
}
