/** What one full sync does to the package rows: merge the listing in, then sweep the rows it left behind. */
module CacheSync {
  import opened Wrappers
  import opened CacheTables

  ghost predicate HasKey(packages: Packages, rid: nat, key: Key) {
    exists id :: id in packages && packages[id].remoteId == rid && KeyOf(packages[id].json) == key
  }

  /** Every key that the listing offers has a row. */
  ghost predicate AllListed(packages: Packages, rid: nat, entries: seq<Entry>) {
    forall key | LastWith(entries, key).Some? :: HasKey(packages, rid, key)
  }

  /** The rows of one remote are what the listing says: the last entry for each key, and nothing else. */
  ghost predicate Holds(packages: Packages, rid: nat, entries: seq<Entry>) {
    && (forall id | id in packages && packages[id].remoteId == rid ::
          LastWith(entries, KeyOf(packages[id].json)) == Some(packages[id].json))
    && AllListed(packages, rid, entries)
  }

  ghost predicate SameRow(before: Packages, after: Packages, id: nat) {
    id in before && id in after && before[id] == after[id]
  }

  ghost predicate OthersKept(before: Packages, after: Packages, rid: nat) {
    && (forall id | id in before && before[id].remoteId != rid :: SameRow(before, after, id))
    && (forall id | id in after && after[id].remoteId != rid :: SameRow(before, after, id))
  }

  /** A row that the listing still offers keeps its id, hence whatever refers to it. */
  ghost predicate IdsKept(before: Packages, after: Packages, rid: nat, entries: seq<Entry>) {
    forall id | id in before && before[id].remoteId == rid && LastWith(entries, KeyOf(before[id].json)).Some? ::
      id in after && after[id].remoteId == rid && KeyOf(after[id].json) == KeyOf(before[id].json)
  }

  // -- Merging ---------------------------------------------------------------------------------

  ghost function MergedRow(row: Package, rid: nat, revno: nat, entries: seq<Entry>): Package {
    var last := LastWith(entries, KeyOf(row.json));
    if row.remoteId == rid && last.Some? then Package(last.value, rid, revno) else row
  }

  ghost predicate FromListing(row: Package, rid: nat, revno: nat, entries: seq<Entry>) {
    row.remoteId == rid && row.remoteRevno == revno && LastWith(entries, KeyOf(row.json)) == Some(row.json)
  }

  ghost predicate Merged(before: Packages, after: Packages, rid: nat, revno: nat, entries: seq<Entry>) {
    && (forall id | id in before :: id in after && after[id] == MergedRow(before[id], rid, revno, entries))
    && (forall id | id in after && id !in before :: FromListing(after[id], rid, revno, entries))
    && AllListed(after, rid, entries)
  }

  lemma NothingMerged(before: Packages, rid: nat, revno: nat)
    ensures Merged(before, before, rid, revno, [])
  {
  }

  lemma MergeSkips(before: Packages, after: Packages, rid: nat, revno: nat, entries: seq<Entry>, e: Entry)
    requires Merged(before, after, rid, revno, entries) && !Imported(e)
    ensures Merged(before, after, rid, revno, entries + [e])
  {
    forall key ensures LastWith(entries + [e], key) == LastWith(entries, key) {
      LastWithAppend(entries, e, key);
    }
  }

  /** `row` is the row that an upsert with this key writes. */
  ghost predicate UpsertTarget(packages: Packages, row: nat, rid: nat, key: Key) {
    if row in packages then packages[row].remoteId == rid && KeyOf(packages[row].json) == key
    else !HasKey(packages, rid, key)
  }

  lemma TargetIsOnly(packages: Packages, row: nat, rid: nat, key: Key, id: nat)
    requires UniqueKeys(packages) && UpsertTarget(packages, row, rid, key)
    requires id in packages && packages[id].remoteId == rid && KeyOf(packages[id].json) == key
    ensures id == row
  {
  }

  lemma MergeStep(before: Packages, mid: Packages, row: nat, rid: nat, revno: nat, entries: seq<Entry>, e: Entry)
    requires Merged(before, mid, rid, revno, entries) && Imported(e)
    requires UniqueKeys(mid) && UpsertTarget(mid, row, rid, KeyOf(e.meta))
    ensures Merged(before, mid[row := Package(e.meta, rid, revno)], rid, revno, entries + [e])
  {
    var key, longer := KeyOf(e.meta), entries + [e];
    var after := mid[row := Package(e.meta, rid, revno)];
    forall k ensures LastWith(longer, k) == if k == key then Some(e.meta) else LastWith(entries, k) {
      LastWithAppend(entries, e, k);
    }
    forall id | id in before
      ensures id in after && after[id] == MergedRow(before[id], rid, revno, longer)
    {
      assert mid[id] == MergedRow(before[id], rid, revno, entries);
      if before[id].remoteId == rid && KeyOf(before[id].json) == key {
        TargetIsOnly(mid, row, rid, key, id);
      }
    }
    forall id | id in after && id !in before
      ensures FromListing(after[id], rid, revno, longer)
    {
      if id != row {
        assert FromListing(mid[id], rid, revno, entries);
        if KeyOf(mid[id].json) == key {
          TargetIsOnly(mid, row, rid, key, id);
        }
      }
    }
    StillListed(mid, row, rid, revno, entries, e);
  }

  lemma StillListed(mid: Packages, row: nat, rid: nat, revno: nat, entries: seq<Entry>, e: Entry)
    requires AllListed(mid, rid, entries) && Imported(e) && UpsertTarget(mid, row, rid, KeyOf(e.meta))
    ensures AllListed(mid[row := Package(e.meta, rid, revno)], rid, entries + [e])
  {
    var after := mid[row := Package(e.meta, rid, revno)];
    forall k | LastWith(entries + [e], k).Some? ensures HasKey(after, rid, k) {
      LastWithAppend(entries, e, k);
      if k == KeyOf(e.meta) {
        assert after[row].remoteId == rid && KeyOf(after[row].json) == k;
      } else {
        assert HasKey(mid, rid, k);
        var id :| id in mid && mid[id].remoteId == rid && KeyOf(mid[id].json) == k;
        assert after[id] == mid[id];
      }
    }
  }

  // -- Sweeping --------------------------------------------------------------------------------

  predicate IsOld(row: Package, rid: nat, revno: nat) {
    row.remoteId == rid && row.remoteRevno < revno
  }

  function Swept(packages: Packages, rid: nat, revno: nat): Packages {
    map id | id in packages && !IsOld(packages[id], rid, revno) :: packages[id]
  }

  /** A row survives the sweep exactly if the listing offers it, provided that every row of the remote carried an
      older revision to begin with. */
  lemma SweepLeavesListing(before: Packages, merged: Packages, rid: nat, revno: nat, entries: seq<Entry>)
    requires Merged(before, merged, rid, revno, entries)
    requires forall id | id in before && before[id].remoteId == rid :: before[id].remoteRevno < revno
    ensures var after := Swept(merged, rid, revno);
      && Holds(after, rid, entries)
      && OthersKept(before, after, rid)
      && IdsKept(before, after, rid, entries)
      && forall id | id in after && after[id].remoteId == rid :: after[id].remoteRevno == revno
  {
    var after := Swept(merged, rid, revno);
    forall id | id in merged && merged[id].remoteId == rid
      ensures id in after <==> FromListing(merged[id], rid, revno, entries)
      ensures id in after <==> LastWith(entries, KeyOf(merged[id].json)).Some?
    {
      if id in before {
        assert merged[id] == MergedRow(before[id], rid, revno, entries);
      } else {
        assert FromListing(merged[id], rid, revno, entries);
      }
    }
    forall key | LastWith(entries, key).Some? ensures HasKey(after, rid, key) {
      assert HasKey(merged, rid, key);
      var id :| id in merged && merged[id].remoteId == rid && KeyOf(merged[id].json) == key;
      assert id in after;
    }
    forall id | id in after && after[id].remoteId != rid ensures SameRow(before, after, id) {
      assert !FromListing(merged[id], rid, revno, entries);
    }
  }

  // -- What holding a listing means ------------------------------------------------------------

  /** A listing fixes the rows of its remote: a package is cached exactly if it is the last importable entry with
      its key, and then in exactly one row. */
  lemma CachedExactlyIfLast(packages: Packages, rid: nat, entries: seq<Entry>, m: Meta)
    requires UniqueKeys(packages) && Holds(packages, rid, entries)
    ensures (exists id :: id in packages && packages[id].remoteId == rid && packages[id].json == m)
       <==> LastWith(entries, KeyOf(m)) == Some(m)
    ensures forall a, b | a in packages && b in packages && packages[a].remoteId == packages[b].remoteId == rid
      && packages[a].json == packages[b].json == m :: a == b
  {
    if LastWith(entries, KeyOf(m)) == Some(m) {
      assert HasKey(packages, rid, KeyOf(m));
      var id :| id in packages && packages[id].remoteId == rid && KeyOf(packages[id].json) == KeyOf(m);
      assert packages[id].json == m;
    }
  }

  /** Rows of other remotes do not matter to what a remote holds. */
  lemma HoldsElsewhere(before: Packages, after: Packages, changed: nat, rid: nat, entries: seq<Entry>)
    requires OthersKept(before, after, changed) && rid != changed && Holds(before, rid, entries)
    ensures Holds(after, rid, entries)
  {
    forall id | id in after && after[id].remoteId == rid
      ensures LastWith(entries, KeyOf(after[id].json)) == Some(after[id].json)
    {
      assert SameRow(before, after, id);
    }
    forall key | LastWith(entries, key).Some? ensures HasKey(after, rid, key) {
      assert HasKey(before, rid, key);
      var id :| id in before && before[id].remoteId == rid && KeyOf(before[id].json) == key;
      assert SameRow(before, after, id);
    }
  }

  // -- The same in columns ---------------------------------------------------------------------

  ghost predicate SameColumns(a: Meta, b: Meta) {
    a.name == b.name && a.version == b.version && a.pkgVersion == b.pkgVersion
  }

  /** A good entry with a package version of at least one, after which no good one has the same name, version and
      package version. */
  ghost predicate LastOffer(entries: seq<Entry>, i: nat)
    requires i < |entries|
  {
    && entries[i].Good? && entries[i].meta.pkgVersion >= 1
    && forall j | i < j < |entries| && entries[j].Good? :: !SameColumns(entries[j].meta, entries[i].meta)
  }

  /** One row of the remote has the columns of `m`, and it holds `m`. */
  ghost predicate OnlyRow(packages: Packages, rid: nat, m: Meta) {
    exists id ::
      && id in packages && packages[id].remoteId == rid && packages[id].json == m
      && forall other | other in packages && packages[other].remoteId == rid && SameColumns(packages[other].json, m) ::
           other == id
  }

  ghost predicate IsOffered(entries: seq<Entry>, m: Meta) {
    exists i :: 0 <= i < |entries| && LastOffer(entries, i) && entries[i].meta == m
  }

  ghost predicate CachedAsListed(packages: Packages, rid: nat, entries: seq<Entry>) {
    && (forall i | 0 <= i < |entries| && LastOffer(entries, i) :: OnlyRow(packages, rid, entries[i].meta))
    && (forall id | id in packages && packages[id].remoteId == rid :: IsOffered(entries, packages[id].json))
  }

  lemma OfferIsLast(entries: seq<Entry>, i: nat)
    requires i < |entries| && LastOffer(entries, i)
    ensures LastWith(entries, KeyOf(entries[i].meta)) == Some(entries[i].meta)
  {
    var key := KeyOf(entries[i].meta);
    LastWithIsLast(entries, key);
    assert Imported(entries[i]);
    var k :| 0 <= k < |entries| && Imported(entries[k]) && entries[k].meta == LastWith(entries, key).value
      && KeyOf(entries[k].meta) == key
      && forall j | k < j < |entries| && Imported(entries[j]) :: KeyOf(entries[j].meta) != key;
    assert SameColumns(entries[k].meta, entries[i].meta);
  }

  lemma LastIsOffered(entries: seq<Entry>, m: Meta)
    requires LastWith(entries, KeyOf(m)) == Some(m)
    ensures IsOffered(entries, m)
  {
    LastWithIsLast(entries, KeyOf(m));
    var k :| 0 <= k < |entries| && Imported(entries[k]) && entries[k].meta == m
      && forall j | k < j < |entries| && Imported(entries[j]) :: KeyOf(entries[j].meta) != KeyOf(m);
    assert LastOffer(entries, k);
  }

  /** What a remote holds, said without keys: exactly one row for each last offer, and no other rows. */
  lemma HeldAsListed(packages: Packages, rid: nat, entries: seq<Entry>)
    requires UniqueKeys(packages) && Holds(packages, rid, entries)
    ensures CachedAsListed(packages, rid, entries)
  {
    forall i | 0 <= i < |entries| && LastOffer(entries, i) ensures OnlyRow(packages, rid, entries[i].meta) {
      OfferIsLast(entries, i);
      CachedExactlyIfLast(packages, rid, entries, entries[i].meta);
    }
    forall id | id in packages && packages[id].remoteId == rid ensures IsOffered(entries, packages[id].json) {
      LastIsOffered(entries, packages[id].json);
    }
  }
}
