/** The package cache database: its triggers, its statements, and the operations made of them. */
module CacheDb {
  import opened Sequences
  import opened CacheTables
  import opened CacheSync
  import opened CacheProjection
  import opened CacheHistory

  /** There is always a next row id. */
  lemma {:induction false} NextRowId(used: set<nat>) returns (id: nat)
    ensures IsNextRowId(used, id)
  {
    if used == {} {
      id := 1;
    } else {
      var x :| x in used;
      var rest := NextRowId(used - {x});
      id := if used - {x} != {} && x < rest then rest else x + 1;
      forall y | y in used ensures y < id {
        assert y == x || y in used - {x};
      }
    }
  }

  /** A committed sync of `rid`, in terms of the package rows before and after. */
  ghost predicate PackagesSynced(before: Packages, after: Packages, rid: nat, revno: nat, entries: seq<Entry>) {
    && Holds(after, rid, entries)
    && OthersKept(before, after, rid)
    && IdsKept(before, after, rid, entries)
    && (forall id | id in after && after[id].remoteId == rid :: after[id].remoteRevno == revno)
  }

  ghost predicate FullySynced(remotes: Remotes, packages: Packages, after: Remotes, rows: Packages, rid: nat,
                              url: string, listing: Listing) {
    && listing.Full? && listing.selfName.Some?
    && RemoteUpserted(remotes, after, rid, url, listing)
    && rid in after
    && PackagesSynced(packages, rows, rid, after[rid].revno, listing.entries)
  }

  /** The listing is committed only if no line of it is other than JSON, and no package that is taken up lists a
      library name twice. */
  ghost predicate CanCommit(listing: Listing) {
    && listing.Full? && listing.selfName.Some? && NotJson !in listing.entries
    && forall m, i, j | Good(m) in listing.entries && m.pkgVersion >= 1 && 0 <= i < j < |m.libraries| ::
         m.libraries[i].name != m.libraries[j].name
  }

  lemma CommitsExactly(listing: Listing)
    ensures Commits(listing) <==> CanCommit(listing)
  {
    if CanCommit(listing) {
      forall i | 0 <= i < |listing.entries| ensures Accepted(listing.entries[i]) {
        assert listing.entries[i] in listing.entries;
      }
    } else if Commits(listing) {
      forall e | e in listing.entries ensures Accepted(e) {
        var i :| 0 <= i < |listing.entries| && listing.entries[i] == e;
      }
    }
  }

  /** The row of a remote after a sync, and its packages, column by column. */
  ghost predicate SyncedColumns(before: Remotes, remotes: Remotes, packages: Packages, rid: nat, url: string,
                                listing: Listing)
    requires listing.Full? && rid in remotes
  {
    var row := remotes[rid];
    && row.revno == (if rid in before then before[rid].revno + 1 else 1)
    && remotes - {rid} == before - {rid}
    && row.url == url && listing.selfName.Some? && row.uniqueName == listing.selfName.value && row.etag == listing.etag
    && row.lastModified == listing.lastModified && row.resourceTime == listing.resourceTime
    && row.cacheControl == listing.cacheControl
    && CachedAsListed(packages, rid, listing.entries)
    && forall id | id in packages && packages[id].remoteId == rid :: packages[id].remoteRevno == row.revno
  }

  class Database {
    var remotes: Remotes
    var packages: Packages
    var libraries: Libraries
    /** The temporary table of enabled remotes: not tied to the remotes by a foreign key. */
    var enabled: set<nat>

    ghost predicate Consistent()
      reads this
    {
      Sound(remotes, packages, libraries)
    }

    /** What holds whenever no transaction is open. */
    ghost predicate Valid()
      reads this
    {
      Consistent() && AllCurrent(remotes, packages)
    }

    constructor ()
      ensures Valid()
      ensures remotes == map[] && packages == map[] && libraries == map[] && enabled == {}
    {
      remotes, packages, libraries, enabled := map[], map[], map[], {};
    }

    // -- Statements on packages, with their triggers -------------------------------------------

    /** The INSERT of both triggers: one row per element of the `libraries` array. It fails exactly when two of them
        have the same name. */
    method InsertLibraries(p: nat, libs: seq<Lib>, ghost before: Libraries) returns (ok: bool)
      requires Filled(before, libraries, p, [])
      modifies this`libraries
      ensures ok <==> DistinctNames(libs)
      ensures ok ==> Filled(before, libraries, p, libs)
    {
      var i := 0;
      while i < |libs|
        invariant 0 <= i <= |libs|
        invariant Filled(before, libraries, p, libs[..i])
      {
        var l := libs[i];
        TakenIfDone(before, libraries, p, libs[..i], l.name);
        if exists id | id in libraries :: libraries[id].pkgId == p && libraries[id].name == l.name {
          assert Taken(libraries, p, l.name);
          return false;
        }
        ghost var unused := NextRowId(libraries.Keys);
        assert unused !in libraries;
        var id: nat :| id !in libraries;
        FillStep(before, libraries, id, p, libs[..i], l);
        libraries := libraries[id := LibraryRow(p, l.name, l.path)];
        assert libs[..i] + [l] == libs[..i + 1];
        i := i + 1;
      }
      assert libs[..|libs|] == libs;
      return true;
    }

    /** Writes a package row that is new, or whose JSON differs from what the row has. */
    method WritePackage(row: nat, written: Package) returns (ok: bool)
      requires Consistent() && written.remoteId in remotes
      requires UpsertTarget(packages, row, written.remoteId, KeyOf(written.json))
      modifies this`packages, this`libraries
      ensures ok <==> DistinctNames(written.json.libraries)
      ensures ok ==> Consistent() && packages == old(packages)[row := written]
    {
      ghost var was := libraries;
      if row in packages {
        ClearedIsFilled(libraries, row);
        libraries := WithoutPackages(libraries, {row});
      } else {
        NewPackageIsFilled(packages, libraries, row);
      }
      ok := InsertLibraries(row, written.json.libraries, was);
      if ok {
        SoundAfterWrite(remotes, packages, was, row, written, libraries);
      }
      packages := packages[row := written];
    }

    /** INSERT with ON CONFLICT on the key: a row with that key is overwritten in place. */
    method UpsertPackage(meta: Meta, rid: nat, revno: nat) returns (ok: bool, row: nat)
      requires Consistent() && rid in remotes
      modifies this`packages, this`libraries
      ensures ok <==> DistinctNames(meta.libraries)
      ensures UpsertTarget(old(packages), row, rid, KeyOf(meta))
      ensures ok ==> Consistent() && packages == old(packages)[row := Package(meta, rid, revno)]
    {
      var written := Package(meta, rid, revno);
      if id :| id in packages && packages[id].remoteId == rid && KeyOf(packages[id].json) == KeyOf(meta) {
        row := id;
        if packages[row].json == meta {
          KeptIsFilled(packages, libraries, row);
          SoundAfterWrite(remotes, packages, libraries, row, written, libraries);
          packages := packages[row := written];
          return true, row;
        }
      } else {
        ghost var unused := NextRowId(packages.Keys);
        assert unused !in packages;
        row :| row !in packages;
      }
      ok := WritePackage(row, written);
    }

    /** DELETE of the package rows of one remote that are older than `revno`, with its cascade. */
    method DeleteOld(rid: nat, revno: nat)
      requires Consistent()
      modifies this`packages, this`libraries
      ensures Consistent()
      ensures packages == Swept(old(packages), rid, revno)
    {
      var left := Swept(packages, rid, revno);
      SoundAfterDelete(remotes, packages, libraries, left);
      libraries := WithoutPackages(libraries, packages.Keys - left.Keys);
      packages := left;
    }

    // -- Synchronising -------------------------------------------------------------------------

    method UpsertRemote(url: string, listing: Listing) returns (rid: nat)
      requires Consistent() && listing.Full? && listing.selfName.Some?
      modifies this`remotes
      ensures RemoteUpserted(old(remotes), remotes, rid, url, listing)
    {
      var name := listing.selfName.value;
      var revno := 1;
      if r :| r in remotes && remotes[r].uniqueName == name {
        rid, revno := r, remotes[r].revno + 1;
      } else {
        ghost var next := NextRowId(remotes.Keys);
        rid :| IsNextRowId(remotes.Keys, rid);
        NextIsUnused(remotes.Keys, rid);
      }
      remotes := remotes[rid := Remote(url, name, revno, listing.etag, listing.lastModified, listing.resourceTime,
                                       listing.cacheControl)];
    }

    method ImportPackages(rid: nat, revno: nat, entries: seq<Entry>) returns (ok: bool)
      requires Consistent() && rid in remotes
      modifies this`packages, this`libraries
      ensures ok <==> Importable(entries)
      ensures ok ==> Consistent() && Merged(old(packages), packages, rid, revno, entries)
    {
      NothingMerged(packages, rid, revno);
      var i := 0;
      while i < |entries|
        invariant 0 <= i <= |entries|
        invariant Consistent() && Importable(entries[..i])
        invariant Merged(old(packages), packages, rid, revno, entries[..i])
      {
        var e := entries[i];
        assert entries[..i] + [e] == entries[..i + 1];
        if e.NotJson? {
          assert !Accepted(entries[i]);
          return false;
        }
        ghost var mid := packages;
        if Imported(e) {
          var fits, row := UpsertPackage(e.meta, rid, revno);
          if !fits {
            assert !Accepted(entries[i]);
            return false;
          }
          MergeStep(old(packages), mid, row, rid, revno, entries[..i], e);
        } else {
          MergeSkips(old(packages), packages, rid, revno, entries[..i], e);
        }
        i := i + 1;
      }
      assert entries[..|entries|] == entries;
      return true;
    }

    /** The body of the transaction. When it fails, the tables are in whatever state it reached. */
    method ImportListing(url: string, listing: Listing) returns (ok: bool, ghost rid: nat)
      requires Valid() && listing.Full?
      modifies this`remotes, this`packages, this`libraries
      ensures ok <==> Commits(listing)
      ensures ok ==> Valid() && FullySynced(old(remotes), old(packages), remotes, packages, rid, url, listing)
    {
      if listing.selfName.None? {
        return false, 0;
      }
      var r := UpsertRemote(url, listing);
      rid := r;
      var revno := remotes[r].revno;
      ghost var before := packages;
      if Importable(listing.entries) {
        UniqueAfterUpsert(old(remotes), remotes, r, url, listing);
      }
      ok := ImportPackages(r, revno, listing.entries);
      if !ok {
        return;
      }
      ghost var merged := packages;
      DeleteOld(r, revno);
      SweepLeavesListing(before, merged, r, revno, listing.entries);
    }

    /** A failed import is rolled back as a whole; an up-to-date answer touches no package, but the freshness of every
        remote. */
    method SyncRemote(url: string, listing: Listing) returns (ok: bool)
      requires Valid()
      modifies this`remotes, this`packages, this`libraries
      ensures Valid()
      ensures ok <==> listing.UpToDate? || CanCommit(listing)
      ensures Commits(listing) <==> CanCommit(listing)
      ensures !ok ==> unchanged(this)
      ensures listing.UpToDate? ==> packages == old(packages) && libraries == old(libraries)
      ensures listing.UpToDate? ==> remotes == Refreshed(old(remotes), listing.newTime, listing.newControl)
      ensures listing.UpToDate? ==> remotes.Keys == old(remotes).Keys && forall r | r in remotes ::
        remotes[r] == old(remotes)[r].(resourceTime := listing.newTime, cacheControl := listing.newControl)
      ensures CanCommit(listing) ==>
        exists rid ::
          && FullySynced(old(remotes), old(packages), remotes, packages, rid, url, listing)
          && SyncedColumns(old(remotes), remotes, packages, rid, url, listing)
    {
      CommitsExactly(listing);
      match listing
      case Unreachable =>
        ok := false;
      case UpToDate(newTime, newControl) =>
        remotes := Refreshed(remotes, newTime, newControl);
        ok := true;
      case Full(_, _, _, _, _, _) =>
        var savedRemotes, savedPackages, savedLibraries := remotes, packages, libraries;
        ghost var rid;
        ok, rid := ImportListing(url, listing);
        if ok {
          HeldAsListed(packages, rid, listing.entries);
        } else {
          remotes, packages, libraries := savedRemotes, savedPackages, savedLibraries;
        }
    }

    // -- The other operations ------------------------------------------------------------------

    /** Deletes every remote; the cascades empty the package and library tables, but the enabled ids stay. */
    method ForgetAll()
      requires Valid()
      modifies this`remotes, this`packages, this`libraries
      ensures Valid()
      ensures remotes == map[] && packages == map[] && libraries == map[]
    {
      var gone := set p | p in packages && packages[p].remoteId in remotes;
      libraries := WithoutPackages(libraries, gone);
      packages := packages - gone;
      remotes := map[];
    }

    /** Reports an unknown remote exactly when no remote with that URL is newly enabled, which includes the remotes
        that were enabled before. */
    method EnableRemote(url: string) returns (known: bool)
      modifies this`enabled
      ensures enabled == old(enabled) + set r | r in remotes && remotes[r].url == url
      ensures known <==> exists r :: r in remotes && remotes[r].url == url && r !in old(enabled)
    {
      var added := set r | r in remotes && remotes[r].url == url && r !in enabled;
      known := exists r :: r in added;
      enabled := enabled + added;
    }

    /** Over every run of operations from an empty database, the tables are what the history says, the enabled ids
        included.  These are the ids of the remotes that have been asked for since all were last forgotten, and those
        that were enabled before that, whatever remotes have them now. */
    method Run(ops: seq<Op>)
      requires Valid()
      requires remotes == map[] && enabled == {}
      modifies this
      ensures Valid()
      ensures Reflects(remotes, packages, Latest(ops)) && Counted(remotes, |Latest(ops)|)
      ensures forall r | r in remotes ::
        CachedAsListed(packages, r, Latest(ops)[remotes[r].uniqueName].entries)
      ensures enabled == EnabledIds(ops)
      ensures forall r | r in remotes ::
        r in enabled <==> remotes[r].uniqueName in EnabledNames(ops) || r in StaleIds(ops)
    {
      var i := 0;
      ghost var known, ids := Latest([]), EnabledIds([]);
      while i < |ops|
        invariant 0 <= i <= |ops|
        invariant Valid()
        invariant known == Latest(ops[..i]) && ids == EnabledIds(ops[..i])
        invariant Reflects(remotes, packages, known) && Counted(remotes, |known|) && enabled == ids
      {
        HistoryGrows(ops, i);
        Perform(ops[i], known);
        known, ids := After(known, ops[i]), EnabledIdsAfter(ids, known, ops[i]);
        i := i + 1;
      }
      assert ops[..|ops|] == ops;
      forall r | r in remotes
        ensures r in enabled <==> remotes[r].uniqueName in EnabledNames(ops) || r in StaleIds(ops)
        ensures CachedAsListed(packages, r, Latest(ops)[remotes[r].uniqueName].entries)
      {
        assert RemoteReflects(remotes, packages, Latest(ops), r);
        HeldAsListed(packages, r, Latest(ops)[remotes[r].uniqueName].entries);
        EnabledExactly(ops, remotes[r].uniqueName);
      }
    }

    /** One operation of a run. */
    method Perform(op: Op, ghost known: map<string, Known>)
      requires Valid() && Reflects(remotes, packages, known) && Counted(remotes, |known|)
      modifies this
      ensures Valid() && Reflects(remotes, packages, After(known, op)) && Counted(remotes, |After(known, op)|)
      ensures enabled == EnabledIdsAfter(old(enabled), known, op)
    {
      match op {
        case Forget =>
          ForgetAll();
        case Enable(url) =>
          EnabledEnable(remotes, packages, known, url);
          var _ := EnableRemote(url);
        case Sync(url, listing) =>
          PerformSync(url, listing, known);
      }
    }

    method PerformSync(url: string, listing: Listing, ghost known: map<string, Known>)
      requires Valid() && Reflects(remotes, packages, known) && Counted(remotes, |known|)
      modifies this`remotes, this`packages, this`libraries
      ensures Valid()
      ensures Reflects(remotes, packages, After(known, Sync(url, listing)))
      ensures Counted(remotes, |After(known, Sync(url, listing))|)
    {
      ghost var before, rows := remotes, packages;
      var ok := SyncRemote(url, listing);
      if listing.UpToDate? {
        CountedRefresh(before, known, url, listing);
        ReflectsRefresh(before, rows, known, url, listing);
      } else if Commits(listing) {
        ghost var rid :| FullySynced(before, rows, remotes, packages, rid, url, listing);
        SyncedId(before, rows, known, remotes, rid, url, listing);
        CountedSync(before, known, remotes, rid, url, listing);
        ReflectsSync(before, rows, known, remotes, packages, rid, url, listing);
      }
    }
  }

  lemma HistoryGrows(ops: seq<Op>, i: nat)
    requires i < |ops|
    ensures Latest(ops[..i + 1]) == After(Latest(ops[..i]), ops[i])
    ensures EnabledIds(ops[..i + 1]) == EnabledIdsAfter(EnabledIds(ops[..i]), Latest(ops[..i]), ops[i])
  {
    TakeNext(ops, i);
    assert ops[..i + 1][..i] == ops[..i];
  }
}
