/** What a package requires: the closure of the requested libraries under `using` between siblings, and the
    dependencies of the libraries in it.  Versions and dependencies are opaque. */
module RequirementClosure {
  import opened Wrappers

  datatype LibraryInfo<D> = LibraryInfo(name: string, intraUsing: seq<string>, intraTestUsing: seq<string>,
                                        dependencies: seq<D>)

  datatype PackageInfo<V, D> = PackageInfo(version: V, libraries: seq<LibraryInfo<D>>)

  datatype Uses = ExplicitUses(names: seq<string>) | ImplicitAll

  type Libs<D> = seq<LibraryInfo<D>>

  /** The position of the first library of that name. */
  function FindLibrary<D>(libs: Libs<D>, name: string): (at: nat)
    ensures at <= |libs| && (at < |libs| ==> libs[at].name == name)
    ensures forall i | 0 <= i < at :: libs[i].name != name
  {
    if libs == [] || libs[0].name == name then 0 else 1 + FindLibrary(libs[1..], name)
  }

  ghost predicate Exists<D>(libs: Libs<D>, name: string) {
    exists lib :: lib in libs && lib.name == name
  }

  lemma FindMeansExists<D>(libs: Libs<D>, name: string)
    ensures FindLibrary(libs, name) < |libs| <==> Exists(libs, name)
  {
    var at := FindLibrary(libs, name);
    if at < |libs| {
      assert libs[at] in libs;
    }
  }

  // -- The closure -----------------------------------------------------------------------------

  /** The library called `a` uses its sibling `b`. */
  ghost predicate UsesSibling<D>(libs: Libs<D>, a: string, b: string) {
    var at := FindLibrary(libs, a);
    at < |libs| && b in libs[at].intraUsing
  }

  ghost predicate LinkAt<D>(libs: Libs<D>, chain: seq<string>, i: nat)
    requires 0 < i < |chain|
  {
    UsesSibling(libs, chain[i - 1], chain[i])
  }

  ghost predicate IsChain<D>(libs: Libs<D>, seeds: set<string>, chain: seq<string>, name: string) {
    && |chain| > 0 && chain[0] in seeds && chain[|chain| - 1] == name
    && forall i | 0 < i < |chain| :: LinkAt(libs, chain, i)
  }

  /** `name` is requested, or used by a sibling that is reached. */
  ghost predicate Reached<D>(libs: Libs<D>, seeds: set<string>, name: string) {
    exists chain: seq<string> :: IsChain(libs, seeds, chain, name)
  }

  ghost predicate ClosedUnderUsing<D>(libs: Libs<D>, names: set<string>) {
    forall a, b | a in names && UsesSibling(libs, a, b) :: b in names
  }

  /** Exactly the names that are reached. */
  ghost predicate IsClosure<D>(libs: Libs<D>, seeds: set<string>, names: set<string>) {
    forall name :: name in names <==> Reached(libs, seeds, name)
  }

  lemma SeedReached<D>(libs: Libs<D>, seeds: set<string>, name: string)
    requires name in seeds
    ensures Reached(libs, seeds, name)
  {
    assert IsChain(libs, seeds, [name], name);
  }

  lemma SiblingReached<D>(libs: Libs<D>, seeds: set<string>, a: string, b: string)
    requires Reached(libs, seeds, a) && UsesSibling(libs, a, b)
    ensures Reached(libs, seeds, b)
  {
    var chain: seq<string> :| IsChain(libs, seeds, chain, a);
    var longer := chain + [b];
    forall i | 0 < i < |longer| ensures LinkAt(libs, longer, i) {
      if i < |chain| { assert LinkAt(libs, chain, i); }
    }
    assert IsChain(libs, seeds, longer, b);
  }

  /** A closed set that holds the start of a chain holds all of it. */
  lemma {:induction false} ChainInside<D>(libs: Libs<D>, seeds: set<string>, names: set<string>,
                                          chain: seq<string>, i: nat)
    requires i < |chain| && IsChain(libs, seeds, chain, chain[|chain| - 1])
    requires seeds <= names && ClosedUnderUsing(libs, names)
    ensures chain[i] in names
  {
    if i > 0 {
      ChainInside(libs, seeds, names, chain, i - 1);
      assert LinkAt(libs, chain, i);
    }
  }

  /** The reached names are the least closed set around the requested ones. */
  lemma ClosureIsLeast<D>(libs: Libs<D>, seeds: set<string>, names: set<string>)
    ensures IsClosure(libs, seeds, names) <==>
      && seeds <= names && ClosedUnderUsing(libs, names)
      && forall other | seeds <= other && ClosedUnderUsing(libs, other) :: names <= other
  {
    if IsClosure(libs, seeds, names) {
      ClosureContains(libs, seeds, names);
      forall other | seeds <= other && ClosedUnderUsing(libs, other) ensures names <= other {
        ReachedInside(libs, seeds, other);
      }
    } else if && seeds <= names && ClosedUnderUsing(libs, names)
              && forall other | seeds <= other && ClosedUnderUsing(libs, other) :: names <= other {
      ReachedInside(libs, seeds, names);
      var reached := set name | name in names && Reached(libs, seeds, name);
      assert IsClosure(libs, seeds, reached);
      ClosureContains(libs, seeds, reached);
    }
  }

  lemma ClosureContains<D>(libs: Libs<D>, seeds: set<string>, names: set<string>)
    requires IsClosure(libs, seeds, names)
    ensures seeds <= names && ClosedUnderUsing(libs, names)
  {
    forall name | name in seeds ensures name in names {
      SeedReached(libs, seeds, name);
    }
    forall a, b | a in names && UsesSibling(libs, a, b) ensures b in names {
      SiblingReached(libs, seeds, a, b);
    }
  }

  lemma ReachedInside<D>(libs: Libs<D>, seeds: set<string>, names: set<string>)
    requires seeds <= names && ClosedUnderUsing(libs, names)
    ensures forall name | Reached(libs, seeds, name) :: name in names
  {
    forall name | Reached(libs, seeds, name) ensures name in names {
      var chain: seq<string> :| IsChain(libs, seeds, chain, name);
      ChainInside(libs, seeds, names, chain, |chain| - 1);
    }
  }

  // -- Requirements ----------------------------------------------------------------------------

  /** The names that a requirement asks for. */
  function Seeds<D>(libs: Libs<D>, uses: Uses): set<string> {
    match uses
    case ExplicitUses(names) => set n | n in names
    case ImplicitAll => set i | 0 <= i < |libs| :: libs[i].name
  }

  /** The dependencies of the libraries in `names`, in the order of the libraries. */
  function DependenciesOf<D>(libs: Libs<D>, names: set<string>): seq<D> {
    if libs == [] then []
    else (if libs[0].name in names then libs[0].dependencies else []) + DependenciesOf(libs[1..], names)
  }

  lemma {:induction false} DependenciesAreThose<D>(libs: Libs<D>, names: set<string>, d: D)
    ensures d in DependenciesOf(libs, names) <==>
      exists lib :: lib in libs && lib.name in names && d in lib.dependencies
  {
    if libs != [] {
      DependenciesAreThose(libs[1..], names, d);
      assert forall lib :: lib in libs <==> lib == libs[0] || lib in libs[1..];
    }
  }

  /** Every name reached from the requested ones. */
  ghost function Closure<D>(libs: Libs<D>, seeds: set<string>): set<string> {
    set n | n in seeds + Mentioned(libs) && Reached(libs, seeds, n)
  }

  /** The dependencies of the libraries reached from what is asked for. */
  ghost function ClosureDependencies<D>(libs: Libs<D>, uses: Uses): seq<D> {
    DependenciesOf(libs, Closure(libs, Seeds(libs, uses)))
  }

  lemma ClosureHasAll<D>(libs: Libs<D>, seeds: set<string>)
    ensures IsClosure(libs, seeds, Closure(libs, seeds))
  {
    ReachedInside(libs, seeds, seeds + Mentioned(libs));
  }

  ghost function Mentioned<D>(libs: Libs<D>): set<string> {
    set i, n | 0 <= i < |libs| && n in libs[i].intraUsing :: n
  }

  // -- What is required, said outright ---------------------------------------------------------

  /** The lookup by name finds the library at `at`. */
  ghost predicate IsFound<D>(libs: Libs<D>, at: nat) {
    at < |libs| && forall i | 0 <= i < at :: libs[i].name != libs[at].name
  }

  ghost predicate UsesName<D>(libs: Libs<D>, a: string, b: string) {
    exists at: nat :: IsFound(libs, at) && libs[at].name == a && b in libs[at].intraUsing
  }

  /** Each name is used by the library with the one before it. */
  ghost predicate IsUsing<D>(libs: Libs<D>, chain: seq<string>) {
    forall i | 0 < i < |chain| :: UsesName(libs, chain[i - 1], chain[i])
  }

  /** A chain of uses between siblings leads from one of `names` to `name`. */
  ghost predicate LeadsTo<D>(libs: Libs<D>, names: seq<string>, name: string) {
    exists chain: seq<string> ::
      chain != [] && chain[0] in names && chain[|chain| - 1] == name && IsUsing(libs, chain)
  }

  /** The dependencies of all libraries, or of those that the names lead to. */
  ghost predicate IsRequired<D>(libs: Libs<D>, wanted: Uses, d: D) {
    match wanted
    case ImplicitAll => exists lib :: lib in libs && d in lib.dependencies
    case ExplicitUses(names) => exists lib :: lib in libs && d in lib.dependencies && LeadsTo(libs, names, lib.name)
  }

  ghost predicate AreRequired<D(!new)>(libs: Libs<D>, wanted: Uses, reqs: seq<D>) {
    forall d :: d in reqs <==> IsRequired(libs, wanted, d)
  }

  /** No use leads to a library that does not exist. */
  ghost predicate NothingMissing<D>(libs: Libs<D>, wanted: Uses) {
    match wanted
    case ImplicitAll => forall at: nat, n | IsFound(libs, at) && n in libs[at].intraUsing :: Exists(libs, n)
    case ExplicitUses(names) => forall n | LeadsTo(libs, names, n) :: Exists(libs, n)
  }

  lemma UsesIsFound<D>(libs: Libs<D>, a: string, b: string)
    ensures UsesName(libs, a, b) <==> UsesSibling(libs, a, b)
  {
    var at := FindLibrary(libs, a);
    if at < |libs| {
      assert IsFound(libs, at);
    }
  }

  /** A chain from one of `names` to `name`, with its links. */
  lemma UsingIsLinked<D>(libs: Libs<D>, chain: seq<string>)
    ensures IsUsing(libs, chain) <==> forall i | 0 < i < |chain| :: LinkAt(libs, chain, i)
  {
    forall i | 0 < i < |chain| ensures UsesName(libs, chain[i - 1], chain[i]) <==> LinkAt(libs, chain, i) {
      UsesIsFound(libs, chain[i - 1], chain[i]);
    }
  }

  lemma ExplicitReached<D>(libs: Libs<D>, names: seq<string>, name: string)
    ensures Reached(libs, Seeds(libs, ExplicitUses(names)), name) <==> LeadsTo(libs, names, name)
  {
    var seeds := Seeds(libs, ExplicitUses(names));
    if chain: seq<string> :| IsChain(libs, seeds, chain, name) {
      UsingIsLinked(libs, chain);
    }
    if chain: seq<string> :|
        chain != [] && chain[0] in names && chain[|chain| - 1] == name && IsUsing(libs, chain) {
      UsingIsLinked(libs, chain);
      assert IsChain(libs, seeds, chain, name);
    }
  }

  /** What is reached when everything is asked for: the libraries, and what those found by name use. */
  lemma AllReached<D>(libs: Libs<D>, name: string)
    ensures Exists(libs, name) ==> Reached(libs, Seeds(libs, ImplicitAll), name)
    ensures Reached(libs, Seeds(libs, ImplicitAll), name) ==>
      Exists(libs, name) || exists at: nat :: IsFound(libs, at) && name in libs[at].intraUsing
  {
    var seeds := Seeds(libs, ImplicitAll);
    if lib :| lib in libs && lib.name == name {
      SeedReached(libs, seeds, name);
    }
    if chain: seq<string> :| IsChain(libs, seeds, chain, name) {
      if |chain| == 1 {
        var i :| 0 <= i < |libs| && libs[i].name == name;
        assert libs[i] in libs;
      } else {
        assert LinkAt(libs, chain, |chain| - 1);
        UsesIsFound(libs, chain[|chain| - 2], name);
      }
    }
  }

  lemma FoundReaches<D>(libs: Libs<D>, at: nat, n: string)
    requires IsFound(libs, at) && n in libs[at].intraUsing
    ensures Reached(libs, Seeds(libs, ImplicitAll), n)
  {
    var seeds := Seeds(libs, ImplicitAll);
    SeedReached(libs, seeds, libs[at].name);
    UsesIsFound(libs, libs[at].name, n);
    SiblingReached(libs, seeds, libs[at].name, n);
  }

  lemma FailsExactly<D>(libs: Libs<D>, wanted: Uses)
    ensures (forall n | Reached(libs, Seeds(libs, wanted), n) :: Exists(libs, n)) <==> NothingMissing(libs, wanted)
  {
    match wanted
    case ImplicitAll =>
      if forall n | Reached(libs, Seeds(libs, wanted), n) :: Exists(libs, n) {
        forall at: nat, n | IsFound(libs, at) && n in libs[at].intraUsing ensures Exists(libs, n) {
          FoundReaches(libs, at, n);
        }
      }
      if NothingMissing(libs, wanted) {
        forall n | Reached(libs, Seeds(libs, wanted), n) ensures Exists(libs, n) {
          AllReached(libs, n);
        }
      }
    case ExplicitUses(names) =>
      forall n ensures Reached(libs, Seeds(libs, wanted), n) <==> LeadsTo(libs, names, n) {
        ExplicitReached(libs, names, n);
      }
  }

  lemma ClosureIsRequired<D(!new)>(libs: Libs<D>, wanted: Uses)
    ensures AreRequired(libs, wanted, ClosureDependencies(libs, wanted))
  {
    forall d ensures d in ClosureDependencies(libs, wanted) <==> IsRequired(libs, wanted, d) {
      RequiredExactly(libs, wanted, d);
    }
  }

  lemma RequiredExactly<D>(libs: Libs<D>, wanted: Uses, d: D)
    ensures d in ClosureDependencies(libs, wanted) <==> IsRequired(libs, wanted, d)
  {
    var seeds := Seeds(libs, wanted);
    ClosureHasAll(libs, seeds);
    DependenciesAreThose(libs, Closure(libs, seeds), d);
    forall lib | lib in libs ensures
      lib.name in Closure(libs, seeds) <==> wanted.ExplicitUses? ==> LeadsTo(libs, wanted.names, lib.name)
    {
      match wanted
      case ImplicitAll => AllReached(libs, lib.name);
      case ExplicitUses(names) => ExplicitReached(libs, names, lib.name);
    }
  }

  /** The loop of the lookup.  It fails only on a reached name that is not a library, and otherwise returns the
      dependencies of exactly the reached libraries. */
  method RequirementsOf<V, D(!new)>(pkg: PackageInfo<V, D>, wanted: Uses) returns (r: Result<seq<D>, string>)
    ensures r.Success? <==>
      forall n | Reached(pkg.libraries, Seeds(pkg.libraries, wanted), n) :: Exists(pkg.libraries, n)
    ensures r.Success? <==> NothingMissing(pkg.libraries, wanted)
    ensures r.Success? ==> r.value == ClosureDependencies(pkg.libraries, wanted)
    ensures r.Success? ==> AreRequired(pkg.libraries, wanted, r.value)
    ensures r.Failure? ==>
      Reached(pkg.libraries, Seeds(pkg.libraries, wanted), r.error) && !Exists(pkg.libraries, r.error)
  {
    var libs := pkg.libraries;
    FailsExactly(libs, wanted);
    ClosureIsRequired(libs, wanted);
    var uses := Seeds(libs, wanted);
    ghost var seeds := uses;
    ghost var universe := seeds + Mentioned(libs);
    forall n | n in seeds ensures Reached(libs, seeds, n) {
      SeedReached(libs, seeds, n);
    }
    while true
      invariant seeds <= uses <= universe
      invariant forall n | n in uses :: Reached(libs, seeds, n)
      decreases universe - uses
    {
      var moreUses, missing := OneRound(libs, uses, seeds);
      if missing.Some? {
        return Failure(missing.value);
      }
      if moreUses <= uses {
        break;
      }
      assert universe - moreUses < universe - uses;
      uses := moreUses;
    }
    ReachedInside(libs, seeds, uses);
    assert uses == Closure(libs, seeds);
    return Success(DependenciesOf(libs, uses));
  }

  /** One pass over the names found so far: each must be a library, and what it uses is added. */
  method OneRound<D>(libs: Libs<D>, uses: set<string>, ghost seeds: set<string>)
    returns (moreUses: set<string>, missing: Option<string>)
    requires forall n | n in uses :: Reached(libs, seeds, n)
    ensures missing.Some? ==> Reached(libs, seeds, missing.value) && !Exists(libs, missing.value)
    ensures uses <= moreUses <= uses + Mentioned(libs)
    ensures forall n | n in moreUses :: Reached(libs, seeds, n)
    ensures missing.None? ==>
      && (forall n | n in uses :: Exists(libs, n))
      && (moreUses <= uses ==> ClosedUnderUsing(libs, uses))
  {
    moreUses := uses;
    var left := uses;
    while left != {}
      invariant left <= uses <= moreUses <= uses + Mentioned(libs)
      invariant forall n | n in moreUses :: Reached(libs, seeds, n)
      invariant forall n | n in uses && n !in left :: Exists(libs, n)
      invariant forall a, b | a in uses && a !in left && UsesSibling(libs, a, b) :: b in moreUses
      decreases left
    {
      var used :| used in left;
      var at := FindLibrary(libs, used);
      FindMeansExists(libs, used);
      if at == |libs| {
        return moreUses, Some(used);
      }
      forall b | b in libs[at].intraUsing ensures Reached(libs, seeds, b) {
        SiblingReached(libs, seeds, used, b);
      }
      moreUses := moreUses + set n | n in libs[at].intraUsing;
      left := left - {used};
    }
    return moreUses, None;
  }

  // -- When the lookup cannot fail -------------------------------------------------------------

  ghost predicate ValidPackage<D>(libs: Libs<D>) {
    forall lib, n | lib in libs && (n in lib.intraUsing || n in lib.intraTestUsing) :: Exists(libs, n)
  }

  /** Reports a library that uses a sibling that does not exist, if there is one. */
  method ThrowIfInvalid<V, D>(pkg: PackageInfo<V, D>) returns (r: Option<(string, string)>)
    ensures r.None? <==> ValidPackage(pkg.libraries)
    ensures r.Some? ==>
      && !Exists(pkg.libraries, r.value.1)
      && exists lib :: lib in pkg.libraries && lib.name == r.value.0 && r.value.1 in lib.intraUsing + lib.intraTestUsing
  {
    var libs := pkg.libraries;
    for i := 0 to |libs|
      invariant forall j, n | 0 <= j < i && (n in libs[j].intraUsing || n in libs[j].intraTestUsing) :: Exists(libs, n)
    {
      var all := libs[i].intraUsing + libs[i].intraTestUsing;
      for k := 0 to |all|
        invariant forall l | 0 <= l < k :: Exists(libs, all[l])
      {
        FindMeansExists(libs, all[k]);
        if FindLibrary(libs, all[k]) == |libs| {
          assert libs[i] in libs && (all[k] in libs[i].intraUsing || all[k] in libs[i].intraTestUsing);
          return Some((libs[i].name, all[k]));
        }
      }
      assert forall n | n in libs[i].intraUsing || n in libs[i].intraTestUsing :: n in all;
    }
    return None;
  }

  /** In a valid package everything reached from existing libraries exists. */
  lemma ReachedExists<D>(libs: Libs<D>, seeds: set<string>)
    requires ValidPackage(libs) && forall n | n in seeds :: Exists(libs, n)
    ensures forall n | Reached(libs, seeds, n) :: Exists(libs, n)
  {
    forall n | Reached(libs, seeds, n) ensures Exists(libs, n) {
      var chain: seq<string> :| IsChain(libs, seeds, chain, n);
      if |chain| > 1 {
        assert LinkAt(libs, chain, |chain| - 1);
        var a := chain[|chain| - 2];
        assert libs[FindLibrary(libs, a)] in libs;
      }
    }
  }

  /** The first package, in the given order, whose version is acceptable and that has every library asked for
      by name. */
  method BestCandidate<V, D>(pkgs: seq<PackageInfo<V, D>>, acceptable: V -> bool, uses: Uses) returns (r: Option<nat>)
    ensures r.Some? ==> r.value < |pkgs| && IsCandidate(pkgs[r.value], acceptable, uses)
    ensures forall i | 0 <= i < (if r.Some? then r.value else |pkgs|) :: !IsCandidate(pkgs[i], acceptable, uses)
  {
    for i := 0 to |pkgs|
      invariant forall j | 0 <= j < i :: !IsCandidate(pkgs[j], acceptable, uses)
    {
      if acceptable(pkgs[i].version) {
        var missing := false;
        if uses.ExplicitUses? {
          for k := 0 to |uses.names|
            invariant missing <==> exists l :: 0 <= l < k && !Exists(pkgs[i].libraries, uses.names[l])
          {
            FindMeansExists(pkgs[i].libraries, uses.names[k]);
            if FindLibrary(pkgs[i].libraries, uses.names[k]) == |pkgs[i].libraries| {
              missing := true;
            }
          }
        }
        if !missing {
          return Some(i);
        }
      }
    }
    return None;
  }

  ghost predicate IsCandidate<V, D>(pkg: PackageInfo<V, D>, acceptable: V -> bool, uses: Uses) {
    && acceptable(pkg.version)
    && (uses.ExplicitUses? ==> forall l | 0 <= l < |uses.names| :: Exists(pkg.libraries, uses.names[l]))
  }

  ghost predicate IsFirstCandidate<V, D>(pkgs: seq<PackageInfo<V, D>>, acceptable: V -> bool, uses: Uses, i: int) {
    && 0 <= i < |pkgs| && IsCandidate(pkgs[i], acceptable, uses)
    && forall j | 0 <= j < i :: !IsCandidate(pkgs[j], acceptable, uses)
  }

  lemma CandidateSeedsExist<V, D>(pkg: PackageInfo<V, D>, acceptable: V -> bool, uses: Uses)
    requires IsCandidate(pkg, acceptable, uses)
    ensures forall n | n in Seeds(pkg.libraries, uses) :: Exists(pkg.libraries, n)
  {
  }

  /** Looking up the requirements of the best candidate among valid packages never meets a library that does
      not exist: it returns the dependencies of the libraries reached in the first candidate. */
  method RequirementsOfBest<V, D(!new)>(pkgs: seq<PackageInfo<V, D>>, acceptable: V -> bool, uses: Uses)
    returns (r: Option<Result<seq<D>, string>>)
    requires forall i | 0 <= i < |pkgs| :: ValidPackage(pkgs[i].libraries)
    ensures r.None? <==> forall i | 0 <= i < |pkgs| :: !IsCandidate(pkgs[i], acceptable, uses)
    ensures r.Some? ==> exists i :: IsFirstCandidate(pkgs, acceptable, uses, i)
                                 && r.value == Success(ClosureDependencies(pkgs[i].libraries, uses))
                                 && AreRequired(pkgs[i].libraries, uses, r.value.value)
  {
    var best := BestCandidate(pkgs, acceptable, uses);
    if best.None? {
      return None;
    }
    var pkg := pkgs[best.value];
    CandidateSeedsExist(pkg, acceptable, uses);
    ReachedExists(pkg.libraries, Seeds(pkg.libraries, uses));
    var reqs := RequirementsOf(pkg, uses);
    assert IsFirstCandidate(pkgs, acceptable, uses, best.value);
    return Some(reqs);
  }
}
