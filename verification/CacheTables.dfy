/** The tables of the package cache, and what their triggers and constraints keep true. */
module CacheTables {
  import opened Wrappers

  datatype Lib = Lib(name: string, path: string)

  /** The metadata of a package; a row stores it as JSON, which is identified with it here. */
  datatype Meta = Meta(name: string, version: string, pkgVersion: int, libraries: seq<Lib>, extra: string)

  datatype Remote = Remote(url: string, uniqueName: string, revno: nat, etag: Option<string>,
                           lastModified: Option<string>, resourceTime: Option<int>, cacheControl: Option<string>)

  datatype Package = Package(json: Meta, remoteId: nat, remoteRevno: nat)

  datatype LibraryRow = LibraryRow(pkgId: nat, name: string, path: string)

  type Remotes = map<nat, Remote>
  type Packages = map<nat, Package>
  type Libraries = map<nat, LibraryRow>

  /** The columns of the unique index, within one remote. */
  datatype Key = Key(name: string, version: string, pkgVersion: int)

  function KeyOf(m: Meta): Key {
    Key(m.name, m.version, m.pkgVersion)
  }

  // -- Constraints -----------------------------------------------------------------------------

  ghost predicate UniqueNames(remotes: Remotes) {
    forall a, b | a in remotes && b in remotes && a != b :: remotes[a].uniqueName != remotes[b].uniqueName
  }

  ghost predicate UniqueKeys(packages: Packages) {
    forall a, b | a in packages && b in packages && a != b ::
      packages[a].remoteId != packages[b].remoteId || KeyOf(packages[a].json) != KeyOf(packages[b].json)
  }

  ghost predicate RemotesExist(remotes: Remotes, packages: Packages) {
    forall p | p in packages :: packages[p].remoteId in remotes
  }

  /** Every row is marked with the current revision of its remote. */
  ghost predicate AllCurrent(remotes: Remotes, packages: Packages)
    requires RemotesExist(remotes, packages)
  {
    forall p | p in packages :: packages[p].remoteRevno == remotes[packages[p].remoteId].revno
  }

  ghost predicate UniqueLibraries(libraries: Libraries) {
    forall a, b | a in libraries && b in libraries && a != b ::
      libraries[a].pkgId != libraries[b].pkgId || libraries[a].name != libraries[b].name
  }

  /** The libraries that the table lists for one package. */
  ghost function LibsOf(libraries: Libraries, p: nat): set<Lib> {
    set id | id in libraries && libraries[id].pkgId == p :: Lib(libraries[id].name, libraries[id].path)
  }

  ghost function ToSet(libs: seq<Lib>): set<Lib> {
    set l | l in libs
  }

  /** The library table is the projection of the `libraries` arrays of the package rows: nothing is missing,
      stale or orphaned. */
  ghost predicate Projected(packages: Packages, libraries: Libraries) {
    && UniqueLibraries(libraries)
    && (forall id | id in libraries :: libraries[id].pkgId in packages)
    && (forall p | p in packages :: LibsOf(libraries, p) == ToSet(packages[p].json.libraries))
  }

  ghost predicate DistinctNames(libs: seq<Lib>) {
    forall i, j | 0 <= i < j < |libs| :: libs[i].name != libs[j].name
  }

  // -- Changes to the library table ------------------------------------------------------------

  lemma LibsAfterInsert(libraries: Libraries, id: nat, row: LibraryRow, p: nat)
    requires id !in libraries
    ensures LibsOf(libraries[id := row], p) ==
      LibsOf(libraries, p) + if p == row.pkgId then {Lib(row.name, row.path)} else {}
  {
    var after := libraries[id := row];
    forall l
      ensures l in LibsOf(after, p) <==>
        l in LibsOf(libraries, p) + if p == row.pkgId then {Lib(row.name, row.path)} else {}
    {
      if l in LibsOf(libraries, p) {
        var i :| i in libraries && libraries[i].pkgId == p && l == Lib(libraries[i].name, libraries[i].path);
        assert after[i] == libraries[i];
      } else if p == row.pkgId && l == Lib(row.name, row.path) {
        assert after[id] == row;
      }
    }
  }

  /** Deleting the rows of the packages in `gone`. */
  function WithoutPackages(libraries: Libraries, gone: set<nat>): Libraries {
    map id | id in libraries && libraries[id].pkgId !in gone :: libraries[id]
  }

  lemma LibsAfterDelete(libraries: Libraries, gone: set<nat>, p: nat)
    ensures LibsOf(WithoutPackages(libraries, gone), p) == if p in gone then {} else LibsOf(libraries, p)
  {
    var after := WithoutPackages(libraries, gone);
    if p !in gone {
      forall l | l in LibsOf(libraries, p) ensures l in LibsOf(after, p) {
        var i :| i in libraries && libraries[i].pkgId == p && l == Lib(libraries[i].name, libraries[i].path);
        assert i in after;
      }
    }
  }

  /** A row of the package and of that name is in the table exactly if the package lists the name. */
  lemma NameTaken(libraries: Libraries, p: nat, name: string)
    ensures (exists id :: id in libraries && libraries[id].pkgId == p && libraries[id].name == name)
       <==> (exists l :: l in LibsOf(libraries, p) && l.name == name)
  {
    if id :| id in libraries && libraries[id].pkgId == p && libraries[id].name == name {
      assert Lib(libraries[id].name, libraries[id].path) in LibsOf(libraries, p);
    }
  }

  // -- Listings --------------------------------------------------------------------------------

  /** One line of a remote's listing: metadata, metadata that is rejected and skipped, or text that is not
      JSON at all, which aborts the import. */
  datatype Entry = Good(meta: Meta) | Rejected | NotJson

  /** Entries with a package version below one are skipped like rejected ones. */
  predicate Imported(e: Entry) {
    e.Good? && e.meta.pkgVersion >= 1
  }

  /** The last importable entry with that key. */
  ghost function LastWith(entries: seq<Entry>, key: Key): (r: Option<Meta>)
    ensures r.Some? ==> KeyOf(r.value) == key && r.value.pkgVersion >= 1
  {
    if entries == [] then None
    else
      var e := entries[|entries| - 1];
      if Imported(e) && KeyOf(e.meta) == key then Some(e.meta) else LastWith(entries[..|entries| - 1], key)
  }

  lemma LastWithAppend(entries: seq<Entry>, e: Entry, key: Key)
    ensures LastWith(entries + [e], key) ==
      if Imported(e) && KeyOf(e.meta) == key then Some(e.meta) else LastWith(entries, key)
  {
    assert (entries + [e])[..|entries|] == entries;
  }

  /** What `LastWith` is about: it is some importable entry with the key, and no later one has it. */
  lemma {:induction false} LastWithIsLast(entries: seq<Entry>, key: Key)
    ensures LastWith(entries, key).None? ==>
      forall i | 0 <= i < |entries| && Imported(entries[i]) :: KeyOf(entries[i].meta) != key
    ensures LastWith(entries, key).Some? ==>
      exists i :: 0 <= i < |entries| && Imported(entries[i]) && entries[i].meta == LastWith(entries, key).value
        && KeyOf(entries[i].meta) == key
        && forall j | i < j < |entries| && Imported(entries[j]) :: KeyOf(entries[j].meta) != key
  {
    if entries != [] {
      var front, e := entries[..|entries| - 1], entries[|entries| - 1];
      LastWithIsLast(front, key);
      if !(Imported(e) && KeyOf(e.meta) == key) && LastWith(front, key).Some? {
        var i :| 0 <= i < |front| && Imported(front[i]) && front[i].meta == LastWith(front, key).value
          && KeyOf(front[i].meta) == key
          && forall j | i < j < |front| && Imported(front[j]) :: KeyOf(front[j].meta) != key;
        assert entries[i] == front[i];
      }
    }
  }
}
