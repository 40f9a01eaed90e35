/** What the package cache should contain after a history of operations, without any tables. */
module CacheHistory {
  import opened Wrappers
  import opened CacheTables
  import opened CacheSync
  import opened Sequences

  /** What a remote answers: nothing, that the cached copy is still good, or its whole repository database. */
  datatype Listing =
    | Unreachable
    | UpToDate(newTime: Option<int>, newControl: Option<string>)
    | Full(selfName: Option<string>, etag: Option<string>, lastModified: Option<string>,
           resourceTime: Option<int>, cacheControl: Option<string>, entries: seq<Entry>)

  datatype Op = Sync(url: string, listing: Listing) | Forget | Enable(wanted: string)

  /** The entries that do not abort the import: text that is not JSON does, and so does a package that breaks the
      uniqueness of its library names. */
  ghost predicate Importable(entries: seq<Entry>) {
    forall i | 0 <= i < |entries| :: Accepted(entries[i])
  }

  ghost predicate Accepted(e: Entry) {
    !e.NotJson? && (Imported(e) ==> DistinctNames(e.meta.libraries))
  }

  ghost predicate Commits(listing: Listing) {
    listing.Full? && listing.selfName.Some? && Importable(listing.entries)
  }

  /** What is remembered of a remote: its id, its row, which counts the syncs, and its last listing. */
  datatype Known = Known(id: nat, remote: Remote, entries: seq<Entry>)

  /** New remotes are numbered from one on, and from one again once all are forgotten. */
  ghost function IdOf(known: map<string, Known>, name: string): nat {
    if name in known then known[name].id else |known| + 1
  }

  ghost function After(known: map<string, Known>, op: Op): map<string, Known> {
    match op
    case Forget => map[]
    case Enable(_) => known
    case Sync(url, listing) =>
      if Commits(listing) then
        var name := listing.selfName.value;
        var revno := if name in known then known[name].remote.revno + 1 else 1;
        known[name := Known(IdOf(known, name),
                            Remote(url, name, revno, listing.etag, listing.lastModified, listing.resourceTime,
                                   listing.cacheControl),
                            listing.entries)]
      else if listing.UpToDate? then
        map name | name in known ::
          known[name].(remote := Fresh(known[name].remote, listing.newTime, listing.newControl))
      else known
  }

  ghost function Latest(ops: seq<Op>): map<string, Known> {
    if ops == [] then map[] else After(Latest(ops[..|ops| - 1]), ops[|ops| - 1])
  }

  // -- The tables against the history ----------------------------------------------------------

  ghost predicate HasName(remotes: Remotes, name: string) {
    exists r :: r in remotes && remotes[r].uniqueName == name
  }

  ghost predicate RemoteReflects(remotes: Remotes, packages: Packages, known: map<string, Known>, r: nat)
    requires r in remotes
  {
    var row := remotes[r];
    && row.uniqueName in known
    && row == known[row.uniqueName].remote && r == known[row.uniqueName].id
    && Holds(packages, r, known[row.uniqueName].entries)
  }

  /** The tables say of every remote what its last committed sync said, and know no other remote. */
  ghost predicate Reflects(remotes: Remotes, packages: Packages, known: map<string, Known>) {
    && (forall r | r in remotes :: RemoteReflects(remotes, packages, known, r))
    && (forall name | name in known :: HasName(remotes, name))
  }

  /** The ids in use are those up to the number of remotes. */
  ghost predicate Counted(remotes: Remotes, count: nat) {
    forall r :: r in remotes <==> 1 <= r <= count
  }

  // -- Changes to the tables -------------------------------------------------------------------

  function Fresh(remote: Remote, newTime: Option<int>, newControl: Option<string>): Remote {
    remote.(resourceTime := newTime, cacheControl := newControl)
  }

  /** The UPDATE that has no WHERE clause: every remote gets the new time and cache control. */
  function Refreshed(remotes: Remotes, newTime: Option<int>, newControl: Option<string>): Remotes {
    map r | r in remotes :: Fresh(remotes[r], newTime, newControl)
  }

  /** The id that the database gives to a new row: one above the largest, or one in an empty table. */
  predicate IsNextRowId(used: set<nat>, id: nat) {
    (if used == {} then id == 1 else id > 0 && id - 1 in used) && forall x | x in used :: x < id
  }

  lemma NextIsUnused(used: set<nat>, id: nat)
    requires IsNextRowId(used, id)
    ensures id !in used
  {}

  /** The remote row is inserted with revision one, or the row of that name is overwritten and its revision goes up
      by one. */
  ghost predicate RemoteUpserted(before: Remotes, after: Remotes, rid: nat, url: string, listing: Listing)
    requires listing.Full? && listing.selfName.Some?
  {
    var name := listing.selfName.value;
    && (rid in before ==> before[rid].uniqueName == name)
    && (rid !in before ==> !HasName(before, name) && IsNextRowId(before.Keys, rid))
    && after == before[rid := Remote(url, name, if rid in before then before[rid].revno + 1 else 1, listing.etag,
                                     listing.lastModified, listing.resourceTime, listing.cacheControl)]
  }

  lemma UniqueAfterUpsert(before: Remotes, after: Remotes, rid: nat, url: string, listing: Listing)
    requires Commits(listing) && UniqueNames(before) && RemoteUpserted(before, after, rid, url, listing)
    ensures UniqueNames(after)
  {
    forall a, b | a in after && b in after && a != b ensures after[a].uniqueName != after[b].uniqueName {
      if rid !in before {
        assert !HasName(before, listing.selfName.value);
      }
    }
  }

  /** Since the ids in use are those up to their number, the next id is one above that. */
  lemma NextIsCounted(remotes: Remotes, count: nat, rid: nat)
    requires Counted(remotes, count) && IsNextRowId(remotes.Keys, rid)
    ensures rid == count + 1
  {
    assert count > 0 ==> count in remotes;
    assert rid > 1 ==> rid - 1 in remotes;
  }

  lemma KnownAfterSync(known: map<string, Known>, url: string, listing: Listing)
    requires Commits(listing)
    ensures var name, now := listing.selfName.value, After(known, Sync(url, listing));
      && now.Keys == known.Keys + {name}
      && |now| == if name in known then |known| else |known| + 1
  {
    var name, now := listing.selfName.value, After(known, Sync(url, listing));
    assert |now| == |now.Keys| && |known| == |known.Keys|;
    if name in known {
      assert now.Keys == known.Keys;
    }
  }

  /** The row that a sync writes has the id that the history gives it. */
  lemma SyncedId(remotes: Remotes, packages: Packages, known: map<string, Known>, after: Remotes, rid: nat,
                 url: string, listing: Listing)
    requires Reflects(remotes, packages, known) && Counted(remotes, |known|) && Commits(listing)
    requires RemoteUpserted(remotes, after, rid, url, listing)
    ensures rid == IdOf(known, listing.selfName.value)
    ensures rid in remotes <==> listing.selfName.value in known
  {
    if rid in remotes {
      assert RemoteReflects(remotes, packages, known, rid);
    } else {
      NextIsCounted(remotes, |known|, rid);
      assert !HasName(remotes, listing.selfName.value);
    }
  }

  lemma CountedSync(remotes: Remotes, known: map<string, Known>, after: Remotes, rid: nat, url: string,
                    listing: Listing)
    requires Counted(remotes, |known|) && Commits(listing) && RemoteUpserted(remotes, after, rid, url, listing)
    requires rid == IdOf(known, listing.selfName.value) && (rid in remotes <==> listing.selfName.value in known)
    ensures Counted(after, |After(known, Sync(url, listing))|)
  {
    KnownAfterSync(known, url, listing);
    CountedNext(remotes, |known|, rid, after, |After(known, Sync(url, listing))|);
  }

  lemma CountedNext(before: Remotes, count: nat, rid: nat, after: Remotes, newCount: nat)
    requires Counted(before, count) && after.Keys == before.Keys + {rid}
    requires newCount == if rid in before then count else count + 1
    requires rid in before || rid == count + 1
    ensures Counted(after, newCount)
  {
    assert forall r :: r in after <==> r in before || r == rid;
  }

  lemma CountedRefresh(remotes: Remotes, known: map<string, Known>, url: string, listing: Listing)
    requires Counted(remotes, |known|) && listing.UpToDate?
    ensures Counted(Refreshed(remotes, listing.newTime, listing.newControl), |After(known, Sync(url, listing))|)
  {
    var now := After(known, Sync(url, listing));
    assert now.Keys == known.Keys && |now| == |now.Keys| && |known| == |known.Keys|;
  }

  lemma ReflectsSync(remotes: Remotes, packages: Packages, known: map<string, Known>,
                     after: Remotes, rows: Packages, rid: nat, url: string, listing: Listing)
    requires Reflects(remotes, packages, known) && UniqueNames(remotes) && Commits(listing)
    requires RemoteUpserted(remotes, after, rid, url, listing)
    requires rid == IdOf(known, listing.selfName.value) && (rid in remotes <==> listing.selfName.value in known)
    requires Holds(rows, rid, listing.entries) && OthersKept(packages, rows, rid)
    ensures Reflects(after, rows, After(known, Sync(url, listing)))
  {
    var name, now := listing.selfName.value, After(known, Sync(url, listing));
    forall r | r in after ensures RemoteReflects(after, rows, now, r) {
      if r == rid {
        assert rid in remotes ==> RemoteReflects(remotes, packages, known, rid);
      } else {
        assert RemoteReflects(remotes, packages, known, r);
        assert remotes[r].uniqueName != name;
        HoldsElsewhere(packages, rows, rid, r, known[remotes[r].uniqueName].entries);
      }
    }
    forall n | n in now ensures HasName(after, n) {
      assert n == name || HasName(remotes, n);
      NameAfterUpsert(remotes, after, rid, url, listing, n);
    }
  }

  lemma NameAfterUpsert(before: Remotes, after: Remotes, rid: nat, url: string, listing: Listing, name: string)
    requires Commits(listing) && RemoteUpserted(before, after, rid, url, listing)
    requires name == listing.selfName.value || HasName(before, name)
    ensures HasName(after, name)
  {
    if name == listing.selfName.value {
      assert after[rid].uniqueName == name;
    } else {
      var r :| r in before && before[r].uniqueName == name;
      assert r in after && after[r].uniqueName == name;
    }
  }

  lemma ReflectsRefresh(remotes: Remotes, packages: Packages, known: map<string, Known>, url: string, listing: Listing)
    requires Reflects(remotes, packages, known) && listing.UpToDate?
    ensures Reflects(Refreshed(remotes, listing.newTime, listing.newControl), packages,
                     After(known, Sync(url, listing)))
  {
    var after, now := Refreshed(remotes, listing.newTime, listing.newControl), After(known, Sync(url, listing));
    forall r | r in after ensures RemoteReflects(after, packages, now, r) {
      assert RemoteReflects(remotes, packages, known, r);
    }
    forall n | n in now ensures HasName(after, n) {
      assert HasName(remotes, n);
      var r :| r in remotes && remotes[r].uniqueName == n;
      assert after[r].uniqueName == n;
    }
  }

  // -- Enabled remotes -------------------------------------------------------------------------

  ghost function WithUrl(known: map<string, Known>, url: string): set<string> {
    set name | name in known && known[name].remote.url == url
  }

  ghost function IdsOf(known: map<string, Known>, names: set<string>): set<nat> {
    set name | name in names && name in known :: known[name].id
  }

  ghost function EnabledAfter(names: set<string>, known: map<string, Known>, op: Op): set<string> {
    match op
    case Forget => {}
    case Enable(url) => names + WithUrl(known, url)
    case Sync(_, _) => names
  }

  /** The names of the remotes that have been enabled since all were last forgotten. */
  ghost function EnabledNames(ops: seq<Op>): set<string> {
    if ops == [] then {}
    else
      var before := ops[..|ops| - 1];
      EnabledAfter(EnabledNames(before), Latest(before), ops[|ops| - 1])
  }

  ghost function EnabledIdsAfter(ids: set<nat>, known: map<string, Known>, op: Op): set<nat> {
    if op.Enable? then ids + IdsOf(known, WithUrl(known, op.wanted)) else ids
  }

  /** The ids that have ever been enabled: forgetting does not touch them. */
  ghost function EnabledIds(ops: seq<Op>): set<nat> {
    if ops == [] then {}
    else
      var before := ops[..|ops| - 1];
      EnabledIdsAfter(EnabledIds(before), Latest(before), ops[|ops| - 1])
  }

  /** The ids that were enabled when all remotes were last forgotten. */
  ghost function StaleIds(ops: seq<Op>): set<nat> {
    if ops == [] then {}
    else
      var before := ops[..|ops| - 1];
      if ops[|ops| - 1].Forget? then EnabledIds(before) else StaleIds(before)
  }

  /** Enabling by URL enables the remotes that the history knows under that URL. */
  lemma EnabledEnable(remotes: Remotes, packages: Packages, known: map<string, Known>, url: string)
    requires Reflects(remotes, packages, known)
    ensures (set r | r in remotes && remotes[r].url == url) == IdsOf(known, WithUrl(known, url))
  {
    forall r | r in remotes
      ensures remotes[r].uniqueName in known && known[remotes[r].uniqueName].id == r
      ensures remotes[r].uniqueName in WithUrl(known, url) <==> remotes[r].url == url
    {
      assert RemoteReflects(remotes, packages, known, r);
    }
    forall id | id in IdsOf(known, WithUrl(known, url)) ensures id in remotes && remotes[id].url == url {
      var name :| name in WithUrl(known, url) && known[name].id == id;
      assert HasName(remotes, name);
      var r :| r in remotes && remotes[r].uniqueName == name;
    }
  }

  /** A sync never changes the id of a remote that is known already. */
  lemma SyncKeepsIds(known: map<string, Known>, url: string, listing: Listing, names: set<string>)
    requires names <= known.Keys
    ensures names <= After(known, Sync(url, listing)).Keys
    ensures IdsOf(After(known, Sync(url, listing)), names) == IdsOf(known, names)
  {
    var now := After(known, Sync(url, listing));
    forall name | name in names ensures name in now && now[name].id == known[name].id {}
    assert forall id :: id in IdsOf(now, names) <==> id in IdsOf(known, names);
  }

  /** Different remotes have different ids. */
  ghost predicate Numbered(known: map<string, Known>) {
    && (forall name | name in known :: 1 <= known[name].id <= |known|)
    && (forall m, n | m in known && n in known && m != n :: known[m].id != known[n].id)
  }

  lemma AfterNumbered(known: map<string, Known>, op: Op)
    requires Numbered(known)
    ensures Numbered(After(known, op))
  {
    if op.Sync? {
      if Commits(op.listing) {
        KnownAfterSync(known, op.url, op.listing);
        NumberedNext(known, op.listing.selfName.value, After(known, op));
      } else if op.listing.UpToDate? {
        SameIdsNumbered(known, After(known, op));
      }
    }
  }

  lemma NumberedNext(known: map<string, Known>, name: string, now: map<string, Known>)
    requires Numbered(known)
    requires now.Keys == known.Keys + {name} && now[name].id == IdOf(known, name)
    requires |now| == if name in known then |known| else |known| + 1
    requires forall n | n in known && n != name :: now[n].id == known[n].id
    ensures Numbered(now)
  {
    if name in known {
      SameIdsNumbered(known, now);
    }
  }

  lemma SameIdsNumbered(known: map<string, Known>, now: map<string, Known>)
    requires Numbered(known)
    requires now.Keys == known.Keys && forall n | n in known :: now[n].id == known[n].id
    ensures Numbered(now)
  {
    assert |now| == |now.Keys| && |known| == |known.Keys|;
  }

  /** What is enabled after any history: what was left over when all remotes were last forgotten, and what has been
      enabled since. */
  lemma {:induction false} EnabledIsLeftOverAndWanted(ops: seq<Op>)
    ensures Numbered(Latest(ops)) && EnabledNames(ops) <= Latest(ops).Keys
    ensures EnabledIds(ops) == StaleIds(ops) + IdsOf(Latest(ops), EnabledNames(ops))
    ensures Forget !in ops ==> StaleIds(ops) == {}
  {
    if ops != [] {
      var before, op := ops[..|ops| - 1], ops[|ops| - 1];
      EnabledIsLeftOverAndWanted(before);
      AfterNumbered(Latest(before), op);
      EnabledStep(StaleIds(before), Latest(before), EnabledNames(before), op);
    }
  }

  lemma EnabledStep(stale: set<nat>, known: map<string, Known>, names: set<string>, op: Op)
    requires names <= known.Keys
    ensures EnabledAfter(names, known, op) <= After(known, op).Keys
    ensures var ids := stale + IdsOf(known, names);
      EnabledIdsAfter(ids, known, op) ==
        (if op.Forget? then ids else stale) + IdsOf(After(known, op), EnabledAfter(names, known, op))
  {
    match op {
      case Forget =>
        assert IdsOf(map[], {}) == {};
      case Enable(url) =>
        assert IdsOf(known, names + WithUrl(known, url)) == IdsOf(known, names) + IdsOf(known, WithUrl(known, url));
      case Sync(url, listing) =>
        SyncKeepsIds(known, url, listing, names);
    }
  }

  /** A remote is enabled exactly if it has been asked for since all remotes were last forgotten, or if it has got the
      id of a remote that was enabled before that. */
  lemma EnabledExactly(ops: seq<Op>, name: string)
    requires name in Latest(ops)
    ensures var id := Latest(ops)[name].id;
      id in EnabledIds(ops) <==> name in EnabledNames(ops) || id in StaleIds(ops)
  {
    EnabledIsLeftOverAndWanted(ops);
    var known := Latest(ops);
    if known[name].id in IdsOf(known, EnabledNames(ops)) {
      var other :| other in EnabledNames(ops) && other in known && known[other].id == known[name].id;
      assert other == name;
    }
  }

  /** Hence just the wanted remotes are enabled if and only if no other one has an id that was left over. */
  lemma OnlyWantedAreEnabled(ops: seq<Op>)
    ensures var known := Latest(ops);
      (forall name | name in known :: known[name].id in EnabledIds(ops) <==> name in EnabledNames(ops)) <==>
      (forall name | name in known && name !in EnabledNames(ops) :: known[name].id !in StaleIds(ops))
  {
    forall name | name in Latest(ops)
      ensures Latest(ops)[name].id in EnabledIds(ops) <==>
        name in EnabledNames(ops) || Latest(ops)[name].id in StaleIds(ops)
    {
      EnabledExactly(ops, name);
    }
  }

  /** Before a sync it can be told whether the remote that it adds will be enabled although nobody asked for it. */
  lemma NewRemoteIsEnabled(ops: seq<Op>, url: string, listing: Listing)
    requires Commits(listing) && listing.selfName.value !in Latest(ops)
    ensures var then_, name := ops + [Sync(url, listing)], listing.selfName.value;
      && name in Latest(then_) && name !in EnabledNames(then_)
      && (Latest(then_)[name].id in EnabledIds(then_) <==> |Latest(ops)| + 1 in StaleIds(ops))
  {
    var then_, name := ops + [Sync(url, listing)], listing.selfName.value;
    LatestNext(ops, Sync(url, listing));
    EnabledIsLeftOverAndWanted(ops);
    EnabledExactly(then_, name);
  }

  lemma LatestNext(ops: seq<Op>, op: Op)
    ensures Latest(ops + [op]) == After(Latest(ops), op)
    ensures EnabledNames(ops + [op]) == EnabledAfter(EnabledNames(ops), Latest(ops), op)
    ensures EnabledIds(ops + [op]) == EnabledIdsAfter(EnabledIds(ops), Latest(ops), op)
    ensures StaleIds(ops + [op]) == if op.Forget? then EnabledIds(ops) else StaleIds(ops)
  {
    assert (ops + [op])[..|ops|] == ops;
  }

  /** It happens: a remote that is enabled and forgotten passes its id, and with it the enabling, on to the next one. */
  lemma ForgottenIdIsPassedOn(urlA: string, a: Listing, urlB: string, b: Listing)
    requires Commits(a) && Commits(b)
    ensures var ops := [Sync(urlA, a)] + [Enable(urlA)] + [Forget] + [Sync(urlB, b)];
      var name := b.selfName.value;
      && Latest(ops).Keys == {name} && EnabledNames(ops) == {}
      && Latest(ops)[name].id == 1 && EnabledIds(ops) == {1} == StaleIds(ops)
  {
    OnlyIdIsLeftOver(urlA, a);
    LatestNext([Sync(urlA, a)] + [Enable(urlA)] + [Forget], Sync(urlB, b));
    FirstRemote(urlB, b);
  }

  lemma OnlyIdIsLeftOver(url: string, listing: Listing)
    requires Commits(listing)
    ensures var ops := [Sync(url, listing)] + [Enable(url)] + [Forget];
      Latest(ops) == map[] && EnabledNames(ops) == {} && EnabledIds(ops) == {1} == StaleIds(ops)
  {
    OnlyIdIsEnabled(url, listing);
    LatestNext([Sync(url, listing)] + [Enable(url)], Forget);
  }

  lemma OnlyIdIsEnabled(url: string, listing: Listing)
    requires Commits(listing)
    ensures EnabledIds([Sync(url, listing)] + [Enable(url)]) == {1}
  {
    var one := [Sync(url, listing)];
    NothingBefore(one);
    LatestNext([], one[0]);
    FirstRemote(url, listing);
    LatestNext(one, Enable(url));
  }

  lemma FirstRemote(url: string, listing: Listing)
    requires Commits(listing)
    ensures var known, name := After(map[], Sync(url, listing)), listing.selfName.value;
      && known.Keys == {name} && known[name].id == 1
      && IdsOf(known, WithUrl(known, url)) == {1}
  {
    var known, name := After(map[], Sync(url, listing)), listing.selfName.value;
    assert WithUrl(known, url) == {name};
    assert name in {name} && name in known && known[name].id == 1;
  }
}
