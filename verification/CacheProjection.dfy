/** How the triggers and cascades keep the library table the projection of the package rows. */
module CacheProjection {
  import opened CacheTables
  import opened CacheSync

  ghost predicate AllDistinct(packages: Packages) {
    forall p | p in packages :: DistinctNames(packages[p].json.libraries)
  }

  /** What every statement keeps, also within a transaction. */
  ghost predicate Sound(remotes: Remotes, packages: Packages, libraries: Libraries) {
    && UniqueNames(remotes)
    && UniqueKeys(packages)
    && RemotesExist(remotes, packages)
    && AllDistinct(packages)
    && Projected(packages, libraries)
  }

  // -- Inserting the libraries of one package --------------------------------------------------

  /** `cur` is `before` with rows for `done` added to package `p`, which had none. */
  ghost predicate Filled(before: Libraries, cur: Libraries, p: nat, done: seq<Lib>) {
    && UniqueLibraries(cur)
    && DistinctNames(done)
    && LibsOf(cur, p) == ToSet(done)
    && (forall q | q != p :: LibsOf(cur, q) == LibsOf(before, q))
    && (forall id | id in cur && cur[id].pkgId != p :: id in before && before[id] == cur[id])
  }

  ghost predicate Taken(libraries: Libraries, p: nat, name: string) {
    exists id :: id in libraries && libraries[id].pkgId == p && libraries[id].name == name
  }

  lemma TakenIfDone(before: Libraries, cur: Libraries, p: nat, done: seq<Lib>, name: string)
    requires Filled(before, cur, p, done)
    ensures Taken(cur, p, name) <==> exists i :: 0 <= i < |done| && done[i].name == name
  {
    NameTaken(cur, p, name);
    if i :| 0 <= i < |done| && done[i].name == name {
      assert done[i] in ToSet(done);
      assert done[i] in LibsOf(cur, p);
    }
  }

  lemma FillStep(before: Libraries, cur: Libraries, id: nat, p: nat, done: seq<Lib>, l: Lib)
    requires Filled(before, cur, p, done) && id !in cur && !Taken(cur, p, l.name)
    ensures Filled(before, cur[id := LibraryRow(p, l.name, l.path)], p, done + [l])
  {
    var row := LibraryRow(p, l.name, l.path);
    var after := cur[id := row];
    TakenIfDone(before, cur, p, done, l.name);
    LibsAfterInsert(cur, id, row, p);
    assert ToSet(done + [l]) == ToSet(done) + {l};
    forall q | q != p ensures LibsOf(after, q) == LibsOf(before, q) {
      LibsAfterInsert(cur, id, row, q);
    }
    forall a, b | a in after && b in after && a != b
      ensures after[a].pkgId != after[b].pkgId || after[a].name != after[b].name
    {
      if a != id && b != id {
        assert cur[a].pkgId != cur[b].pkgId || cur[a].name != cur[b].name;
      }
    }
  }

  /** Deleting the rows of a package leaves the table ready for its new ones. */
  lemma ClearedIsFilled(libraries: Libraries, p: nat)
    requires UniqueLibraries(libraries)
    ensures Filled(libraries, WithoutPackages(libraries, {p}), p, [])
  {
    forall q ensures LibsOf(WithoutPackages(libraries, {p}), q) == if q == p then {} else LibsOf(libraries, q) {
      LibsAfterDelete(libraries, {p}, q);
    }
  }

  lemma NewPackageIsFilled(packages: Packages, libraries: Libraries, p: nat)
    requires Projected(packages, libraries) && p !in packages
    ensures Filled(libraries, libraries, p, [])
  {
    assert LibsOf(libraries, p) == {};
  }

  lemma KeptIsFilled(packages: Packages, libraries: Libraries, p: nat)
    requires Projected(packages, libraries) && AllDistinct(packages) && p in packages
    ensures Filled(libraries, libraries, p, packages[p].json.libraries)
  {
  }

  /** Writing a package row and replacing its library rows keeps the tables sound. */
  lemma SoundAfterWrite(remotes: Remotes, packages: Packages, libraries: Libraries, row: nat, written: Package,
                        filled: Libraries)
    requires Sound(remotes, packages, libraries) && written.remoteId in remotes
    requires UpsertTarget(packages, row, written.remoteId, KeyOf(written.json))
    requires Filled(libraries, filled, row, written.json.libraries)
    ensures Sound(remotes, packages[row := written], filled)
  {
    var after := packages[row := written];
    forall a, b | a in after && b in after && a != b
      ensures after[a].remoteId != after[b].remoteId || KeyOf(after[a].json) != KeyOf(after[b].json)
    {
      if a == row && after[b].remoteId == written.remoteId && KeyOf(after[b].json) == KeyOf(written.json) {
        TargetIsOnly(packages, row, written.remoteId, KeyOf(written.json), b);
      }
      if b == row && after[a].remoteId == written.remoteId && KeyOf(after[a].json) == KeyOf(written.json) {
        TargetIsOnly(packages, row, written.remoteId, KeyOf(written.json), a);
      }
    }
    forall p | p in after ensures LibsOf(filled, p) == ToSet(after[p].json.libraries) {
      if p != row {
        assert LibsOf(filled, p) == LibsOf(libraries, p);
      }
    }
  }

  // -- Deleting packages -----------------------------------------------------------------------

  /** The cascade: the rows of deleted packages go, and only those. */
  lemma SoundAfterDelete(remotes: Remotes, packages: Packages, libraries: Libraries, left: Packages)
    requires Sound(remotes, packages, libraries)
    requires forall p | p in left :: p in packages && left[p] == packages[p]
    ensures Sound(remotes, left, WithoutPackages(libraries, packages.Keys - left.Keys))
  {
    var gone := packages.Keys - left.Keys;
    forall p | p in left
      ensures LibsOf(WithoutPackages(libraries, gone), p) == ToSet(left[p].json.libraries)
    {
      LibsAfterDelete(libraries, gone, p);
    }
  }
}
