/** The paths that a glob stands for: each ordinary item takes one path element, and `**` takes any number
    of them, but at least one if it is the last item. */
module GlobLanguage {
  import opened FnPattern

  datatype GlobElem = One(pattern: seq<Elem>) | AnyDepth

  ghost function Flatten(groups: seq<seq<string>>): seq<string> {
    if groups == [] then [] else groups[0] + Flatten(groups[1..])
  }

  ghost predicate Takes(e: GlobElem, last: bool, group: seq<string>) {
    match e
    case One(pattern) => |group| == 1 && Accepts(pattern, group[0])
    case AnyDepth => last ==> |group| >= 1
  }

  ghost predicate GroupsFit(glob: seq<GlobElem>, groups: seq<seq<string>>) {
    && |groups| == |glob|
    && forall i | 0 <= i < |glob| :: Takes(glob[i], i == |glob| - 1, groups[i])
  }

  ghost predicate GlobAccepts(glob: seq<GlobElem>, path: seq<string>) {
    exists groups :: GroupsFit(glob, groups) && Flatten(groups) == path
  }

  lemma GlobEmpty(path: seq<string>)
    ensures GlobAccepts([], path) <==> path == []
  {
    assert GroupsFit([], []) && Flatten([]) == [];
  }

  lemma GlobCons(glob: seq<GlobElem>, path: seq<string>, k: nat)
    requires glob != [] && k <= |path|
    requires Takes(glob[0], |glob| == 1, path[..k]) && GlobAccepts(glob[1..], path[k..])
    ensures GlobAccepts(glob, path)
  {
    var groups :| GroupsFit(glob[1..], groups) && Flatten(groups) == path[k..];
    var all := [path[..k]] + groups;
    assert all[1..] == groups;
    forall i | 0 <= i < |glob| ensures Takes(glob[i], i == |glob| - 1, all[i]) {
      if i > 0 {
        assert Takes(glob[1..][i - 1], i - 1 == |glob[1..]| - 1, groups[i - 1]);
      }
    }
    assert GroupsFit(glob, all) && Flatten(all) == path[..k] + path[k..] == path;
  }

  lemma GlobHead(glob: seq<GlobElem>, path: seq<string>) returns (k: nat)
    requires glob != [] && GlobAccepts(glob, path)
    ensures k <= |path| && Takes(glob[0], |glob| == 1, path[..k]) && GlobAccepts(glob[1..], path[k..])
  {
    var groups :| GroupsFit(glob, groups) && Flatten(groups) == path;
    k := |groups[0]|;
    assert Takes(glob[0], 0 == |glob| - 1, groups[0]);
    var rest := groups[1..];
    assert path[..k] == groups[0] && path[k..] == Flatten(rest);
    forall i | 0 <= i < |rest| ensures Takes(glob[1..][i], i == |glob[1..]| - 1, rest[i]) {
      assert Takes(glob[i + 1], i + 1 == |glob| - 1, groups[i + 1]);
    }
    assert GroupsFit(glob[1..], rest);
  }

  /** The last item always takes something. */
  lemma {:induction false} NothingIsRejected(glob: seq<GlobElem>)
    requires glob != []
    ensures !GlobAccepts(glob, [])
  {
    if GlobAccepts(glob, []) {
      var k := GlobHead(glob, []);
      if |glob| > 1 {
        NothingIsRejected(glob[1..]);
      }
    }
  }

  /** An ordinary item takes exactly the next element. */
  lemma OneTakesOne(glob: seq<GlobElem>, path: seq<string>)
    requires glob != [] && glob[0].One?
    ensures GlobAccepts(glob, path) <==>
      path != [] && Accepts(glob[0].pattern, path[0]) && GlobAccepts(glob[1..], path[1..])
  {
    if GlobAccepts(glob, path) {
      var k := GlobHead(glob, path);
    } else if path != [] && Accepts(glob[0].pattern, path[0]) && GlobAccepts(glob[1..], path[1..]) {
      GlobCons(glob, path, 1);
    }
  }

  /** A final `**` takes everything that is left, but not nothing. */
  lemma FinalDepth(path: seq<string>)
    ensures GlobAccepts([AnyDepth], path) <==> path != []
  {
    if path == [] {
      NothingIsRejected([AnyDepth]);
    } else {
      assert path[|path|..] == [] && path[..|path|] == path;
      GlobEmpty([]);
      GlobCons([AnyDepth], path, |path|);
    }
  }

  /** Any other `**` hands over at some element. */
  lemma InnerDepth(glob: seq<GlobElem>, path: seq<string>)
    requires |glob| > 1 && glob[0].AnyDepth?
    ensures GlobAccepts(glob, path) <==> exists k :: 0 <= k < |path| && GlobAccepts(glob[1..], path[k..])
  {
    if GlobAccepts(glob, path) {
      var k := GlobHead(glob, path);
      if k == |path| {
        assert path[k..] == [];
        NothingIsRejected(glob[1..]);
      }
    } else if k :| 0 <= k < |path| && GlobAccepts(glob[1..], path[k..]) {
      GlobCons(glob, path, k);
    }
  }

  ghost predicate SameLanguage(e: GlobElem, f: GlobElem) {
    match (e, f)
    case (One(p), One(q)) => forall s :: Accepts(p, s) <==> Accepts(q, s)
    case (AnyDepth, AnyDepth) => true
    case _ => false
  }

  lemma SameLanguages(glob: seq<GlobElem>, other: seq<GlobElem>, path: seq<string>)
    requires |glob| == |other| && forall i | 0 <= i < |glob| :: SameLanguage(glob[i], other[i])
    ensures GlobAccepts(glob, path) <==> GlobAccepts(other, path)
  {
    if GlobAccepts(glob, path) {
      var groups :| GroupsFit(glob, groups) && Flatten(groups) == path;
      SameGroups(glob, other, groups);
    }
    if GlobAccepts(other, path) {
      var groups :| GroupsFit(other, groups) && Flatten(groups) == path;
      SameGroups(other, glob, groups);
    }
  }

  lemma SameGroups(glob: seq<GlobElem>, other: seq<GlobElem>, groups: seq<seq<string>>)
    requires |glob| == |other| && GroupsFit(glob, groups)
    requires forall i | 0 <= i < |glob| :: SameLanguage(glob[i], other[i]) || SameLanguage(other[i], glob[i])
    ensures GroupsFit(other, groups)
  {
    forall i | 0 <= i < |other| ensures Takes(other[i], i == |other| - 1, groups[i]) {
      assert Takes(glob[i], i == |glob| - 1, groups[i]);
    }
  }
}
