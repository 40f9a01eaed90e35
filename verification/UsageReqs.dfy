/** The usage graph: which libraries `use` and `link` which others, the depth-first search that finds
    a cycle of `uses`, and the collectors that walk the graph. */
module UsageReqs {
  import opened Wrappers
  import opened Digraph
  import opened CycleReport
  import opened PathCollection
  import opened CollectionReturns
  import opened Sequences
  import opened Text

  datatype Usage = Usage(namespace_: string, name: string)

  type Path = string

  datatype Library = Library(name: string, linkablePath: Option<Path>, includePaths: seq<Path>,
                             uses: seq<Usage>, links: seq<Usage>)

  /** The edges that the cycle search follows. */
  ghost function UsesGraph(reqs: map<Usage, Library>): Graph<Usage> {
    map u | u in reqs :: reqs[u].uses
  }

  /** The edges that `link_paths` follows. */
  ghost function LinkGraph(reqs: map<Usage, Library>): Graph<Usage> {
    map u | u in reqs :: reqs[u].uses + reqs[u].links
  }

  ghost function IncludesOf(reqs: map<Usage, Library>): map<Usage, seq<Path>> {
    map u | u in reqs :: reqs[u].includePaths
  }

  ghost function LinkablesOf(reqs: map<Usage, Library>): map<Usage, seq<Path>> {
    map u | u in reqs :: if reqs[u].linkablePath.Some? then [reqs[u].linkablePath.value] else []
  }

  // -- The depth-first search ------------------------------------------------------------------

  datatype VertexStatus = Unvisited | Visiting | Visited

  datatype VertexInfo = VertexInfo(status: VertexStatus, next: Usage)

  const DEFAULT_VERTEX := VertexInfo(Unvisited, Usage("", ""))

  /** Those of `some` that are present are all in `done`. */
  ghost predicate AllFinished(g: Graph<Usage>, some: seq<Usage>, done: seq<Usage>) {
    forall w | w in some && w in g :: w in done
  }

  /** `v` is a successor of `u`, before which there are only finished ones. */
  ghost predicate ReachedNext(g: Graph<Usage>, done: seq<Usage>, u: Usage, v: Usage) {
    Edge(g, u, v) && exists k :: 0 <= k < |g[u]| && g[u][k] == v && AllFinished(g, g[u][..k], done)
  }

  /** The `next` link of a vertex on the path is the edge to the vertex after it. */
  ghost predicate Linked(g: Graph<Usage>, info: map<Usage, VertexInfo>, done: seq<Usage>, u: Usage, v: Usage) {
    u in info && info[u].next == v && ReachedNext(g, done, u, v)
  }

  /** The vertex table that all the searches of one run share. */
  class VertexTable {
    var info: map<Usage, VertexInfo>
    ghost var path: seq<Usage>  // the vertices being visited, outermost first
    ghost var done: seq<Usage>  // the finished vertices, in the order in which they finished

    constructor ()
      ensures info == map[] && path == [] && done == []
    {
      info, path, done := map[], [], [];
    }

    /** The `Visiting` vertices form one chain of real edges linked by `next`, and every edge out of a
        finished vertex leads to a vertex that finished before it. */
    ghost predicate Valid(g: Graph<Usage>)
      reads this
    {
      && info.Keys == g.Keys
      && Distinct(path)
      && Topological(g, done)
      && (forall v | v in path :: v in info && v !in done)
      && (forall v | v in info :: info[v].status == Visiting <==> v in path)
      && (forall v | v in info :: info[v].status == Visited <==> v in done)
      && (forall i | 0 < i < |path| :: Linked(g, info, done, path[i - 1], path[i]))
    }

    /** The innermost vertex being visited currently points at `usage`. */
    ghost predicate PointsAt(g: Graph<Usage>, usage: Usage)
      reads this
    {
      |path| > 0 ==> Linked(g, info, done, path[|path| - 1], usage)
    }

    ghost function Unseen(g: Graph<Usage>): set<Usage>
      reads this
    {
      set v | v in g.Keys && v !in path && v !in done
    }

    /** Starts visiting a vertex that the innermost vertex points at. */
    method Enter(ghost g: Graph<Usage>, usage: Usage)
      requires Valid(g) && PointsAt(g, usage)
      requires usage in info && info[usage].status == Unvisited
      modifies this
      ensures Valid(g) && path == old(path) + [usage] && done == old(done)
      ensures Unseen(g) < old(Unseen(g))
    {
      info := info[usage := info[usage].(status := Visiting)];
      path := path + [usage];
      assert usage in old(Unseen(g)) && usage !in Unseen(g);
      forall i | 0 < i < |path| ensures Linked(g, info, done, path[i - 1], path[i]) {
        assert Linked(g, old(info), done, path[i - 1], path[i]);
      }
    }

    /** The innermost vertex now looks at `next`. */
    method Point(ghost g: Graph<Usage>, usage: Usage, next: Usage)
      requires Valid(g) && |path| > 0 && path[|path| - 1] == usage && usage in info
      modifies this`info
      ensures Valid(g) && info[usage].next == next
    {
      info := info[usage := info[usage].(next := next)];
      forall i | 0 < i < |path| ensures Linked(g, info, done, path[i - 1], path[i]) {
        assert Linked(g, old(info), done, path[i - 1], path[i]);
      }
    }

    /** Finishes the innermost vertex, all of whose successors are finished. */
    method Finish(ghost g: Graph<Usage>, usage: Usage)
      requires Valid(g) && |path| > 0 && path[|path| - 1] == usage && usage in info
      requires forall w | Edge(g, usage, w) :: w in done
      modifies this
      ensures Valid(g) && path == old(path)[..|old(path)| - 1] && done == old(done) + [usage]
    {
      TopologicalExtend(g, done, usage);
      info := info[usage := info[usage].(status := Visited)];
      path := path[..|path| - 1];
      done := done + [usage];
      forall i | 0 < i < |path| ensures Linked(g, info, done, path[i - 1], path[i]) {
        assert Linked(g, old(info), old(done), path[i - 1], path[i]);
        StillReachedNext(g, old(done), usage, path[i - 1], path[i]);
      }
    }
  }

  lemma AllFinishedStep(g: Graph<Usage>, uses: seq<Usage>, k: nat, before: seq<Usage>, after: seq<Usage>)
    requires k < |uses| && AllFinished(g, uses[..k], before) && before <= after
    requires uses[k] in g ==> uses[k] in after
    ensures AllFinished(g, uses[..k + 1], after)
  {
    assert uses[..k + 1] == uses[..k] + [uses[k]];
    forall w | w in before ensures w in after {
      var i :| 0 <= i < |before| && before[i] == w;
      assert after[i] == w;
    }
  }

  lemma StillReachedNext(g: Graph<Usage>, done: seq<Usage>, more: Usage, u: Usage, v: Usage)
    requires ReachedNext(g, done, u, v)
    ensures ReachedNext(g, done + [more], u, v)
  {
    var k :| 0 <= k < |g[u]| && g[u][k] == v && AllFinished(g, g[u][..k], done);
    assert AllFinished(g, g[u][..k], done + [more]);
  }

  /** Searches everything below `usage`.  Without a result, all of that is finished and the chain of
      visited vertices is as it was.  With a result, the chain has grown and now closes on it. */
  method FindCycle(reqs: map<Usage, Library>, vertices: VertexTable, usage: Usage, lib: Library,
                   ghost g: Graph<Usage>)
    returns (cyclic: Option<Usage>)
    requires g == UsesGraph(reqs) && usage in reqs && reqs[usage] == lib
    requires vertices.Valid(g) && vertices.PointsAt(g, usage)
    modifies vertices
    ensures vertices.Valid(g)
    ensures old(vertices.done) <= vertices.done && old(vertices.path) <= vertices.path
    ensures cyclic.None? ==> vertices.path == old(vertices.path) && usage in vertices.done
    ensures cyclic.Some? ==> cyclic.value in vertices.path && vertices.PointsAt(g, cyclic.value)
    ensures cyclic.Some? && old(vertices.path) == [] ==> vertices.path[0] == usage
    decreases vertices.Unseen(g), 0
  {
    var info := vertices.info[usage];
    if info.status == Visited {
      return None;
    } else if info.status == Visiting {
      return Some(usage);
    }

    vertices.Enter(g, usage);
    cyclic := SearchUses(reqs, vertices, usage, lib.uses, g);
    if cyclic.Some? {
      return;
    }
    vertices.Finish(g, usage);
    return None;
  }

  /** The loop of `FindCycle` over the `uses` of the vertex that it has just entered. */
  method SearchUses(reqs: map<Usage, Library>, vertices: VertexTable, usage: Usage, uses: seq<Usage>,
                    ghost g: Graph<Usage>)
    returns (cyclic: Option<Usage>)
    requires g == UsesGraph(reqs) && usage in reqs && reqs[usage].uses == uses
    requires vertices.Valid(g) && |vertices.path| > 0 && vertices.path[|vertices.path| - 1] == usage
    modifies vertices
    ensures vertices.Valid(g)
    ensures old(vertices.done) <= vertices.done && old(vertices.path) <= vertices.path
    ensures cyclic.None? ==> vertices.path == old(vertices.path) && AllFinished(g, uses, vertices.done)
    ensures cyclic.Some? ==> cyclic.value in vertices.path && vertices.PointsAt(g, cyclic.value)
    decreases vertices.Unseen(g), 1
  {
    for k := 0 to |uses|
      invariant vertices.Valid(g) && vertices.path == old(vertices.path)
      invariant old(vertices.done) <= vertices.done
      invariant AllFinished(g, uses[..k], vertices.done)
    {
      var next := uses[k];
      vertices.Point(g, usage, next);
      ghost var before := vertices.done;
      assert g[usage][k] == next && g[usage][..k] == uses[..k];
      if next in reqs {  // a missing library is reported later, not here
        cyclic := FindCycle(reqs, vertices, next, reqs[next], g);
        if cyclic.Some? {
          return;
        }
      }
      AllFinishedStep(g, uses, k, before, vertices.done);
    }
    assert uses[..|uses|] == uses;
    return None;
  }

  class UsageRequirementMap {
    var reqs: map<Usage, Library>

    constructor ()
      ensures reqs == map[]
    {
      reqs := map[];
    }

    /** Adds an empty library, or reports that the identity is taken and changes nothing. */
    method Add(ident: Usage) returns (dup: Option<Usage>)
      modifies this
      ensures dup == if ident in old(reqs) then Some(ident) else None
      ensures dup.Some? ==> reqs == old(reqs)
      ensures dup.None? ==> reqs == old(reqs)[ident := Library("", None, [], [], [])]
    {
      if ident in reqs {
        return Some(ident);
      }
      reqs := reqs[ident := Library("", None, [], [], [])];
      return None;
    }

    /** Adds a library through the reference that `Add` hands out. */
    method AddLibrary(ident: Usage, lib: Library) returns (dup: Option<Usage>)
      modifies this
      ensures dup == if ident in old(reqs) then Some(ident) else None
      ensures reqs == if ident in old(reqs) then old(reqs) else old(reqs)[ident := lib]
    {
      dup := Add(ident);
      if dup.None? {
        reqs := reqs[ident := lib];
      }
    }

    /** A cycle of `uses` edges between present libraries is returned exactly when there is one.  The roots are taken
        in the order of the map. */
    method FindUsageCycle() returns (r: Option<seq<Usage>>)
      ensures r.None? <==> Acyclic(UsesGraph(reqs))
      ensures r.Some? ==> IsCycle(UsesGraph(reqs), r.value) && Distinct(r.value)
      ensures r.Some? ==> Reported(UsesGraph(reqs), r.value)
    {
      ghost var g := UsesGraph(reqs);
      var vertices := new VertexTable();
      vertices.info := map u | u in reqs :: DEFAULT_VERTEX;
      var roots := reqs.Keys;
      while roots != {}
        invariant vertices.Valid(g) && vertices.path == []
        invariant roots <= reqs.Keys
        invariant forall v | v in reqs && v !in roots :: v in vertices.done
        decreases roots
      {
        ghost var least := LeastRoot(roots);
        var usage :| usage in roots && forall other | other in roots :: other == usage || Below(usage, other);
        ghost var before := vertices.done;
        var cyclic := FindCycle(reqs, vertices, usage, reqs[usage], g);
        if cyclic.Some? {
          var cycle, at := RecoverCycle(vertices, cyclic.value, g);
          ReportsRun(vertices, g, cyclic.value, at, before, roots);
          return Some(cycle);
        }
        roots := roots - {usage};
      }
      TopologicalMeansAcyclic(g, vertices.done);
      return None;
    }

    method IncludePaths(usage: Usage) returns (r: Result<seq<Path>, Usage>)
      requires Returns(UsesGraph(reqs), IncludesOf(reqs), usage)
      ensures ReturnsAs(UsesGraph(reqs), IncludesOf(reqs), usage, r)
      ensures Collected(UsesGraph(reqs), IncludesOf(reqs), usage, r)
      ensures r.Success? ==> IncludesReached(reqs, usage, r.value)
    {
      ghost var depth: nat :| Within(UsesGraph(reqs), IncludesOf(reqs), usage, depth).Some?;
      WithinIsUnion(UsesGraph(reqs), IncludesOf(reqs), usage, depth);
      r := CollectIncludePaths(reqs, usage, depth);
      if r.Success? {
        IncludesAreReached(reqs, usage, r.value);
      }
    }

    method LinkPaths(key: Usage) returns (r: Result<seq<Path>, Usage>)
      requires Returns(LinkGraph(reqs), LinkablesOf(reqs), key)
      ensures ReturnsAs(LinkGraph(reqs), LinkablesOf(reqs), key, r)
      ensures Collected(LinkGraph(reqs), LinkablesOf(reqs), key, r)
      ensures r.Success? ==> LinkablesReached(reqs, key, r.value)
    {
      ghost var depth: nat :| Within(LinkGraph(reqs), LinkablesOf(reqs), key, depth).Some?;
      WithinIsUnion(LinkGraph(reqs), LinkablesOf(reqs), key, depth);
      r := CollectLinkPaths(reqs, key, depth);
      if r.Success? {
        LinkablesAreReached(reqs, key, r.value);
      }
    }
  }

  // -- What the collectors return, by library --------------------------------------------------

  /** Exactly the include paths of the libraries that can be reached over `uses`. */
  ghost predicate IncludesReached(reqs: map<Usage, Library>, usage: Usage, paths: seq<Path>) {
    forall p :: p in paths <==>
      exists u :: u in reqs && Reaches(UsesGraph(reqs), usage, u) && p in reqs[u].includePaths
  }

  /** Exactly the linkable paths of the libraries that can be reached over `uses` and `links`. */
  ghost predicate LinkablesReached(reqs: map<Usage, Library>, key: Usage, paths: seq<Path>) {
    forall p :: p in paths <==>
      exists u :: u in reqs && Reaches(LinkGraph(reqs), key, u) && reqs[u].linkablePath == Some(p)
  }

  lemma IncludesAreReached(reqs: map<Usage, Library>, usage: Usage, paths: seq<Path>)
    requires Collected(UsesGraph(reqs), IncludesOf(reqs), usage, Success(paths))
    ensures IncludesReached(reqs, usage, paths)
  {
    var g, own := UsesGraph(reqs), IncludesOf(reqs);
    forall p ensures p in paths <==> exists u :: u in reqs && Reaches(g, usage, u) && p in reqs[u].includePaths {
      assert p in paths <==> p in Offers(g, own, usage);
      if u :| u in reqs && Reaches(g, usage, u) && p in reqs[u].includePaths {
        assert u in ReachSet(g, usage) && p in own[u];
      }
    }
  }

  lemma LinkablesAreReached(reqs: map<Usage, Library>, key: Usage, paths: seq<Path>)
    requires Collected(LinkGraph(reqs), LinkablesOf(reqs), key, Success(paths))
    ensures LinkablesReached(reqs, key, paths)
  {
    var g, own := LinkGraph(reqs), LinkablesOf(reqs);
    forall p ensures p in paths <==> exists u :: u in reqs && Reaches(g, key, u) && reqs[u].linkablePath == Some(p) {
      assert p in paths <==> p in Offers(g, own, key);
      if u :| u in reqs && Reaches(g, key, u) && reqs[u].linkablePath == Some(p) {
        assert u in ReachSet(g, key) && p in own[u];
      }
    }
  }

  // -- The path collectors ---------------------------------------------------------------------

  method CollectIncludePaths(reqs: map<Usage, Library>, usage: Usage, ghost depth: nat)
    returns (r: Result<seq<Path>, Usage>)
    requires Within(UsesGraph(reqs), IncludesOf(reqs), usage, depth).Some?
    ensures Within(UsesGraph(reqs), IncludesOf(reqs), usage, depth) == Some(r)
    decreases depth
  {
    ghost var g, own := UsesGraph(reqs), IncludesOf(reqs);
    if usage !in reqs {
      return Failure(usage);
    }
    var lib := reqs[usage];
    var ret := lib.includePaths;
    for k := 0 to |lib.uses|
      invariant WithinNext(g, own, usage, k, depth) == Some(Success(ret))
    {
      WithinStep(g, own, usage, k, lib.uses[k], depth);
      var more := CollectIncludePaths(reqs, lib.uses[k], depth - 1);
      if more.Failure? {
        return more;
      }
      ret := ret + more.value;
    }
    return Success(ret);
  }

  /** Follows `uses` and `links`; only `uses` is known to be acyclic for an accepted map, so that the call may never
      return. */
  method CollectLinkPaths(reqs: map<Usage, Library>, key: Usage, ghost depth: nat)
    returns (r: Result<seq<Path>, Usage>)
    requires Within(LinkGraph(reqs), LinkablesOf(reqs), key, depth).Some?
    ensures Within(LinkGraph(reqs), LinkablesOf(reqs), key, depth) == Some(r)
    decreases depth, 1
  {
    if key !in reqs {
      return Failure(key);
    }
    var req := reqs[key];
    var ret := [];
    if req.linkablePath.Some? {
      ret := [req.linkablePath.value];
    }
    LinkLoops(reqs, key, depth);
    r := ExtendLinkPaths(reqs, ret, req.uses, key, 0, depth);
    if r.Success? {
      r := ExtendLinkPaths(reqs, r.value, req.links, key, |req.uses|, depth);
    }
  }

  /** `deps` are the successors of `key` from position `at` on. */
  ghost predicate SuccessorsAt(g: Graph<Usage>, key: Usage, at: nat, deps: seq<Usage>) {
    key in g && at + |deps| <= |g[key]| && forall j | 0 <= j < |deps| :: g[key][at + j] == deps[j]
  }

  /** The two loops together go over all the successors. */
  lemma LinkLoops(reqs: map<Usage, Library>, key: Usage, depth: nat)
    requires key in reqs && depth > 0
    ensures var g, own, lib := LinkGraph(reqs), LinkablesOf(reqs), reqs[key];
      && SuccessorsAt(g, key, 0, lib.uses) && SuccessorsAt(g, key, |lib.uses|, lib.links)
      && WithinNext(g, own, key, 0, depth)
        == Some(Success(if lib.linkablePath.Some? then [lib.linkablePath.value] else []))
      && Within(g, own, key, depth) == WithinNext(g, own, key, |lib.uses| + |lib.links|, depth)
  {
    LoopSuccessors(reqs, key);
    assert |LinkGraph(reqs)[key]| == |reqs[key].uses| + |reqs[key].links|;
  }

  lemma LoopSuccessors(reqs: map<Usage, Library>, key: Usage)
    requires key in reqs
    ensures SuccessorsAt(LinkGraph(reqs), key, 0, reqs[key].uses)
    ensures SuccessorsAt(LinkGraph(reqs), key, |reqs[key].uses|, reqs[key].links)
  {
    assert LinkGraph(reqs)[key] == reqs[key].uses + reqs[key].links;
  }

  /** One of the two loops of `CollectLinkPaths`: the successors of `key` from position `at` on. */
  method ExtendLinkPaths(reqs: map<Usage, Library>, start: seq<Path>, deps: seq<Usage>, ghost key: Usage,
                         ghost at: nat, ghost depth: nat)
    returns (r: Result<seq<Path>, Usage>)
    requires SuccessorsAt(LinkGraph(reqs), key, at, deps)
    requires depth > 0 && Within(LinkGraph(reqs), LinkablesOf(reqs), key, depth).Some?
    requires WithinNext(LinkGraph(reqs), LinkablesOf(reqs), key, at, depth) == Some(Success(start))
    ensures r.Success? ==> WithinNext(LinkGraph(reqs), LinkablesOf(reqs), key, at + |deps|, depth) == Some(r)
    ensures r.Failure? ==> Within(LinkGraph(reqs), LinkablesOf(reqs), key, depth) == Some(r)
    decreases depth, 0
  {
    ghost var g, own := LinkGraph(reqs), LinkablesOf(reqs);
    var ret := start;
    for k := 0 to |deps|
      invariant WithinNext(g, own, key, at + k, depth) == Some(Success(ret))
    {
      WithinStep(g, own, key, at + k, deps[k], depth);
      var more := CollectLinkPaths(reqs, deps[k], depth - 1);
      if more.Failure? {
        return more;
      }
      ret := ret + more.value;
    }
    return Success(ret);
  }

  /** Chases the `next` links from a vertex of the chain until they come back to it. */
  method RecoverCycle(vertices: VertexTable, start: Usage, ghost g: Graph<Usage>)
    returns (cycle: seq<Usage>, ghost at: nat)
    requires vertices.Valid(g) && start in vertices.path && vertices.PointsAt(g, start)
    ensures IsCycle(g, cycle) && Distinct(cycle) && cycle[0] == start
    ensures at < |vertices.path| && vertices.path[at] == start && cycle == vertices.path[at..]
  {
    at :| 0 <= at < |vertices.path| && vertices.path[at] == start;
    PathCloses(vertices, g, start, at);
    NextOnPath(vertices, g, start, at);
    ghost var closed := vertices.path[at..];
    cycle := [start];
    var cur := vertices.info[start].next;
    while cur != start
      invariant 0 < |cycle| <= |closed| && cycle == closed[..|cycle|]
      invariant cur == if |cycle| < |closed| then closed[|cycle|] else start
      decreases |closed| - |cycle|
    {
      NextOnPath(vertices, g, start, at + |cycle|);
      TakeNext(closed, |cycle|);
      cycle := cycle + [cur];
      cur := vertices.info[cur].next;
    }
    OnlyStartIsStart(closed, |cycle|);
  }

  lemma OnlyStartIsStart(closed: seq<Usage>, n: nat)
    requires 0 < n <= |closed| && Distinct(closed) && (n < |closed| ==> closed[n] == closed[0])
    ensures closed[..n] == closed
  {}

  lemma NextOnPath(vertices: VertexTable, g: Graph<Usage>, start: Usage, i: nat)
    requires vertices.Valid(g) && vertices.PointsAt(g, start) && i < |vertices.path|
    ensures vertices.path[i] in vertices.info
    ensures vertices.info[vertices.path[i]].next ==
      if i + 1 < |vertices.path| then vertices.path[i + 1] else start
  {
    if i + 1 < |vertices.path| {
      assert Linked(g, vertices.info, vertices.done, vertices.path[i], vertices.path[i + 1]);
    }
  }

  /** The part of the path from the vertex that its end points at is a cycle, and no shorter part comes
      back to that vertex. */
  lemma PathCloses(vertices: VertexTable, g: Graph<Usage>, start: Usage, at: nat)
    requires vertices.Valid(g) && vertices.PointsAt(g, start)
    requires at < |vertices.path| && vertices.path[at] == start
    ensures IsCycle(g, vertices.path[at..]) && Distinct(vertices.path[at..])
    ensures forall i | at < i < |vertices.path| :: vertices.path[i] != start
  {
    var path := vertices.path;
    var cycle := path[at..];
    forall v | v in cycle ensures v in g {
      assert v in path;
    }
    forall i | 0 < i < |cycle| ensures StepInto(g, cycle, i) {
      assert Linked(g, vertices.info, vertices.done, path[at + i - 1], path[at + i]);
    }
  }

  // -- The order of the search -----------------------------------------------------------------

  /** The keys of the map are ordered by namespace and then by name. */
  predicate Below(a: Usage, b: Usage) {
    Less(a.namespace_, b.namespace_) || (a.namespace_ == b.namespace_ && Less(a.name, b.name))
  }

  /** The same with single characters. */
  lemma BelowByCharacters(a: Usage, b: Usage)
    ensures Below(a, b) <==>
      || ComesBefore(a.namespace_, b.namespace_)
      || (a.namespace_ == b.namespace_ && ComesBefore(a.name, b.name))
  {
    LessMeansBefore(a.namespace_, b.namespace_);
    LessMeansBefore(a.name, b.name);
  }

  lemma BelowIsStrict(a: Usage, b: Usage)
    ensures Below(a, b) ==> a != b && !Below(b, a)
    ensures a == b || Below(a, b) || Below(b, a)
  {
    LessIsStrict(a.namespace_, b.namespace_);
    LessIsStrict(a.name, b.name);
  }

  lemma BelowTransitive(a: Usage, b: Usage, c: Usage)
    requires Below(a, b) && Below(b, c)
    ensures Below(a, c)
  {
    LessIsStrict(a.namespace_, b.namespace_);
    LessIsStrict(b.namespace_, c.namespace_);
    if a.namespace_ == b.namespace_ == c.namespace_ {
      LessTransitive(a.name, b.name, c.name);
    } else if Less(a.namespace_, b.namespace_) && Less(b.namespace_, c.namespace_) {
      LessTransitive(a.namespace_, b.namespace_, c.namespace_);
    }
  }

  lemma {:induction false} LeastRoot(roots: set<Usage>) returns (least: Usage)
    requires roots != {}
    ensures least in roots && forall other | other in roots :: other == least || Below(least, other)
  {
    least :| least in roots;
    if roots != {least} {
      var rest := LeastRoot(roots - {least});
      var first := least;
      BelowIsStrict(first, rest);
      least := if Below(first, rest) then first else rest;
      forall other | other in roots ensures other == least || Below(least, other) {
        assert other == first || other in roots - {first};
        if other != rest && other != first && Below(first, rest) {
          BelowTransitive(first, rest, other);
        }
      }
    }
  }

  /** The first library of the map from which a cycle can be reached. */
  ghost predicate FirstRoot(g: Graph<Usage>, root: Usage) {
    root in g && LeadsToCycle(g, root) && forall v | v in g && LeadsToCycle(g, v) :: v == root || Below(root, v)
  }

  /** The cycle that the search runs into from there, always taking the first use that leads to a cycle. */
  ghost predicate Reported(g: Graph<Usage>, cycle: seq<Usage>) {
    exists root, path, at :: FirstRoot(g, root) && RunsInto(g, root, path, at) && cycle == path[at..]
  }

  /** There is just one cycle that can be reported. */
  lemma OneReport(g: Graph<Usage>, c: seq<Usage>, d: seq<Usage>)
    requires Reported(g, c) && Reported(g, d)
    ensures c == d
  {
    var root, path, at :| FirstRoot(g, root) && RunsInto(g, root, path, at) && c == path[at..];
    var other, run, to :| FirstRoot(g, other) && RunsInto(g, other, run, to) && d == run[to..];
    BelowIsStrict(root, other);
    OneRun(g, root, path, at, run, to);
  }

  lemma IsFirstRoot(g: Graph<Usage>, done: seq<Usage>, roots: set<Usage>, usage: Usage)
    requires Topological(g, done) && usage in g && LeadsToCycle(g, usage)
    requires forall v | v in g && v !in roots :: v in done
    requires forall other | other in roots :: other == usage || Below(usage, other)
    ensures FirstRoot(g, usage)
  {
    forall v | v in g && LeadsToCycle(g, v) ensures v == usage || Below(usage, v) {
      if v !in roots {
        ListedLeadsToNone(g, done, v);
      }
    }
  }

  /** Every vertex of a chain that closes leads to a cycle. */
  lemma {:induction false} ChainLeads(vertices: VertexTable, g: Graph<Usage>, start: Usage, at: nat, i: nat)
    requires vertices.Valid(g) && vertices.PointsAt(g, start)
    requires at < |vertices.path| && vertices.path[at] == start && i < |vertices.path|
    ensures LeadsToCycle(g, vertices.path[i]) && LeadsToCycle(g, start)
    decreases |vertices.path| - i
  {
    var path := vertices.path;
    PathCloses(vertices, g, start, at);
    assert path[at..][0] == start;
    ReachesSelf(g, start);
    var next := if i + 1 < |path| then path[i + 1] else start;
    if i + 1 < |path| {
      ChainLeads(vertices, g, start, at, i + 1);
      assert Linked(g, vertices.info, vertices.done, path[i], path[i + 1]);
    }
    CycleFromSuccessor(g, path[i], next);
  }

  /** What comes before in the uses of a library is finished, and so leads to none. */
  lemma ReachedNextIsFirstWay(g: Graph<Usage>, done: seq<Usage>, u: Usage, v: Usage)
    requires Topological(g, done) && ReachedNext(g, done, u, v) && LeadsToCycle(g, v)
    ensures FirstWay(g, u, v)
  {
    var k :| 0 <= k < |g[u]| && g[u][k] == v && AllFinished(g, g[u][..k], done);
    forall w | w in g[u][..k] ensures !LeadsToCycle(g, w) {
      if w in g {
        ListedLeadsToNone(g, done, w);
      } else {
        MissingLeadsNowhere(g, w);
      }
    }
    assert NoneLeads(g, g[u][..k]);
  }

  lemma PathRunsInto(vertices: VertexTable, g: Graph<Usage>, start: Usage, at: nat)
    requires vertices.Valid(g) && vertices.PointsAt(g, start)
    requires at < |vertices.path| && vertices.path[at] == start
    ensures RunsInto(g, vertices.path[0], vertices.path, at) && LeadsToCycle(g, vertices.path[0])
  {
    var path := vertices.path;
    forall i | 0 < i < |path| ensures FirstWay(g, path[i - 1], path[i]) {
      ChainLeads(vertices, g, start, at, i);
      assert Linked(g, vertices.info, vertices.done, path[i - 1], path[i]);
      ReachedNextIsFirstWay(g, vertices.done, path[i - 1], path[i]);
    }
    ChainLeads(vertices, g, start, at, 0);
    ReachedNextIsFirstWay(g, vertices.done, path[|path| - 1], start);
  }

  lemma ReportsRun(vertices: VertexTable, g: Graph<Usage>, start: Usage, at: nat, before: seq<Usage>,
                   roots: set<Usage>)
    requires vertices.Valid(g) && vertices.PointsAt(g, start) && Topological(g, before)
    requires at < |vertices.path| && vertices.path[at] == start
    requires forall v | v in g && v !in roots :: v in before
    requires forall other | other in roots :: other == vertices.path[0] || Below(vertices.path[0], other)
    ensures Reported(g, vertices.path[at..])
  {
    PathRunsInto(vertices, g, start, at);
    IsFirstRoot(g, before, roots, vertices.path[0]);
  }

  /** Reports a cycle with its first member repeated at the end, or nothing if there is none. */
  method VerifyAcyclic(m: UsageRequirementMap) returns (r: Option<seq<Usage>>)
    ensures r.None? <==> Acyclic(UsesGraph(m.reqs))
    ensures r.Some? ==>
      && |r.value| >= 2 && r.value[0] == r.value[|r.value| - 1]
      && IsWalk(UsesGraph(m.reqs), r.value) && Distinct(r.value[1..])
      && Reported(UsesGraph(m.reqs), r.value[..|r.value| - 1])
  {
    var cycle := m.FindUsageCycle();
    if cycle.None? {
      return None;
    }
    var c := cycle.value;
    r := Some(c + [c[0]]);
    assert r.value[..|r.value| - 1] == c;
    ghost var g := UsesGraph(m.reqs);
    forall i | 0 < i < |r.value| ensures StepInto(g, r.value, i) {
      if i < |c| { assert StepInto(g, c, i); }
    }
  }

  /** The libraries of a map that passed the cycle check: a copy of its own, which nothing changes any more. */
  class UsageRequirements {
    const reqs: map<Usage, Library>

    ghost predicate Valid() {
      Acyclic(UsesGraph(reqs))
    }

    constructor (reqs: map<Usage, Library>)
      ensures this.reqs == reqs
    {
      this.reqs := reqs;
    }

    method IncludePaths(usage: Usage) returns (r: Result<seq<Path>, Usage>)
      requires Valid()
      ensures ReturnsAs(UsesGraph(reqs), IncludesOf(reqs), usage, r)
      ensures Collected(UsesGraph(reqs), IncludesOf(reqs), usage, r)
      ensures r.Success? ==> IncludesReached(reqs, usage, r.value)
    {
      ghost var g, own := UsesGraph(reqs), IncludesOf(reqs);
      NoCycleReturns(g, own, usage);
      ghost var depth := |ReachSet(g, usage)| + 1;
      WithinIsUnion(g, own, usage, depth);
      r := CollectIncludePaths(reqs, usage, depth);
      if r.Success? {
        IncludesAreReached(reqs, usage, r.value);
      }
    }

    method LinkPaths(key: Usage) returns (r: Result<seq<Path>, Usage>)
      requires Returns(LinkGraph(reqs), LinkablesOf(reqs), key)
      ensures ReturnsAs(LinkGraph(reqs), LinkablesOf(reqs), key, r)
      ensures Collected(LinkGraph(reqs), LinkablesOf(reqs), key, r)
      ensures r.Success? ==> LinkablesReached(reqs, key, r.value)
    {
      ghost var depth: nat :| Within(LinkGraph(reqs), LinkablesOf(reqs), key, depth).Some?;
      WithinIsUnion(LinkGraph(reqs), LinkablesOf(reqs), key, depth);
      r := CollectLinkPaths(reqs, key, depth);
      if r.Success? {
        LinkablesAreReached(reqs, key, r.value);
      }
    }
  }

  /** The throwing constructor: an object is made exactly for a map without a cycle of `uses`. */
  method MakeUsageRequirements(m: UsageRequirementMap) returns (r: Result<UsageRequirements, seq<Usage>>)
    ensures r.Success? <==> Acyclic(UsesGraph(m.reqs))
    ensures r.Success? ==> r.value.Valid() && r.value.reqs == m.reqs
    ensures r.Failure? ==>
      && IsWalk(UsesGraph(m.reqs), r.error) && r.error[0] == r.error[|r.error| - 1]
      && Reported(UsesGraph(m.reqs), r.error[..|r.error| - 1])
  {
    var cycle := VerifyAcyclic(m);
    if cycle.Some? {
      return Failure(cycle.value);
    }
    var held := new UsageRequirements(m.reqs);
    return Success(held);
  }

  /** The check bounds `uses` only: an accepted map can still have a cycle of `links`. */
  lemma LinksMayStillCycle(a: Usage)
    ensures exists reqs :: Acyclic(UsesGraph(reqs)) && !Acyclic(LinkGraph(reqs))
  {
    var reqs := map[a := Library("", None, [], [], [a])];
    TopologicalMeansAcyclic(UsesGraph(reqs), [a]);
    assert IsCycle(LinkGraph(reqs), [a]);
  }
}
