# Verification of bpt's algorithmic core

`bpt` is a build and package tool for C++. Most of it is orchestration, but a number of its parts are algorithms whose
correctness is not visible from any single function. This project models those parts in Dafny and proves what they are
for. Code that changes state step by step is modelled by classes and loops, each proved against a specification;
parsers, printers and patterns are related to independent definitions of their languages.

| Part | Files | What is proved |
|---|---|---|
| Usage graph | `Digraph`, `CycleReport`, `PathCollection`, `CollectionReturns`, `UsageReqs` | The depth-first search reports a cycle exactly when there is one, and which one; on every map, path collection returns exactly what is reachable, and exactly when no cycle is |
| Parallel runner | `ParallelRun`, `ParallelOutcome` | Safety, result and termination of every interleaving of the workers; what becomes of every call that returns or throws |
| Package cache | `CacheTables`, `CacheSync`, `CacheProjection`, `CacheHistory`, `CacheDb` | Over every run of operations the tables say what the history says, down to which remotes are enabled; triggers and cascades keep the library table a projection |
| Edit distance | `EditDistance` | The matrix computes the length of a shortest edit script, which is a metric |
| Patterns | `FnPattern`, `FnmatchRuntime`, `FnmatchCompileTime`, `FnmatchAgreement`, `PatternTexts` | Each matcher accepts exactly the language of the pattern as it reads it; on which patterns they agree; what each form of a pattern or glob text accepts |
| Path globs | `GlobLanguage`, `Glob` | The matcher accepts the paths that split among the items |
| Requirement closure | `RequirementClosure` | The fixpoint is the least closed set, and cannot fail for valid packages |
| Terminal styling | `Terminal`, `TextWriter`, `StyleMarkup`, `StyledScreen`, `Styled`, `StyleClasses`, `StyleSpans` | What a terminal shows of rendered markup, cell by cell, and exactly when it is what the markup means; every class by its name |
| Text formats | `Sequences`, `Text`, `Shlex`, `ShlexGrammar`, `ShlexLists`, `LibmanParse`, `LibmanGrammar`, `Spdx`, `SpdxRoundTrip`, `SpdxTexts` | Parsers follow independent grammars, and printers and parsers invert each other, with the exact conditions |

Where the code and the expectations one might bring to it differ, the code is followed:

- `find_usage_cycle` looks at `uses` only, so an accepted map may still have a cycle of `links`
  (`LinksMayStillCycle`), and from a library that leads to it `link_paths` does not return, unless it meets a missing
  library first (`ReturnsExactly`, `ReturnsIfMissingFirst`).
- A pattern group that starts with `!` is a negation for the compile-time matcher and an ordinary set for the run-time
  one. They accept the same strings exactly for patterns without such groups, and for those with an empty group `[]`,
  which accept nothing (`AgreeExactly`).
- Code 22 ends both bold and faint (section 8.3.117 of ECMA-48). When faint is dropped while bold stays on and the
  toggles are not longer than starting over, bold is lost until it is set anew or the style starts over
  (`SpecifiedLooks`, `BoldIsLostInMarkup`). The terminal is
  that of ECMA-48 with the common bright colours 90-107; its code 21 is double underline, which the writer never emits.
- `unspecified` is an accepted class, and its code 29 ends strike (`StrikeAfter`): `.strike.unspecified[x]` shows `x`
  without it (`StrikeIsLostInMarkup`).
- With styling off, closing a span still puts the style below. Markup comes out as its characters alone exactly if every
  span that closes inside another returns to a style with the codes of the default (`UnstyledExactly`).
- Quoting does not escape backslashes and leaves the empty word unquoted, so just these words do not survive
  (`ListSurvivesExactly`). In splitting, an opening quote discards what its word had so far, and a backslash before a zero
  character outside quotes is kept (`SplitsAsSpelled`).
- Keys of libman files may contain colons as long as the scan for the separator passes over them
  (`RoundTripExactly`).
- The comment on the trailing `**` of a glob says that it matches everything; the code rejects a path that ends before
  it, so it takes one element or more (`FinalDepth`).
- No SPDX expression with `WITH` is accepted: the prefix removed for the exception's name still starts with white
  space, so some of the name is left over (`AcceptedHasNoWith`); no printed tree with an exception in it is read back
  (`AcceptedExactlyWithout`). A plus after a space is recognized, but the space is dropped in its place, so `id +` is an
  error (`SpacedPlusFails`).
- An "up to date" answer of one remote overwrites the freshness columns of all remotes, because the UPDATE has no
  condition (`SyncRemote`); `enable_remote` also reports an unknown remote when the remote is already enabled
  (`EnableRemote`).
- `forget_all` leaves the enabled ids in place, and an emptied table numbers its rows from one again. So syncing and
  enabling one remote, forgetting all and syncing another leaves that one enabled although nobody asked for it
  (`ForgottenIdIsPassedOn`). A remote is enabled exactly if it was asked for since the last `forget_all` or its id was
  enabled before that (`Run`, `EnabledExactly`); just the remotes asked for are enabled exactly if no other one has
  such an id (`OnlyWantedAreEnabled`).

`dafny verify dfyconfig.toml` checks the whole project.

## Model

| member | source | states |
|---|---|---|
| UsageReqs.FindCycle | src/bpt/usage_reqs.cpp:97-138 | Without a result, everything below the vertex is finished and the chain of vertices under visit is as before; with one, the chain has grown and closes on the reported vertex. Terminates because the unvisited vertices shrink |
| UsageReqs.SearchUses | src/bpt/usage_reqs.cpp:118-132 | The same for the loop over the successors; missing libraries are passed over |
| UsageReqs.VertexTable.Enter | src/bpt/usage_reqs.cpp:117-117 | Keeps the invariant of the table: visiting vertices are one chain of real edges linked by `next`, finished ones lead only to vertices finished before |
| UsageReqs.VertexTable.Point | src/bpt/usage_reqs.cpp:119-119 | Overwriting `next` of the innermost vertex keeps that invariant |
| UsageReqs.VertexTable.Finish | src/bpt/usage_reqs.cpp:133-133 | Finishing a vertex all of whose successors are finished keeps it |
| UsageReqs.RecoverCycle | src/bpt/usage_reqs.cpp:156-162 | Chasing `next` terminates and returns the end of the chain from the reported vertex on, a simple cycle of real edges |
| UsageReqs.PathCloses | src/bpt/usage_reqs.cpp:154-164 | The part of the chain from the vertex that its end points at is a simple cycle, and no earlier return to that vertex is possible |
| UsageReqs.NextOnPath | src/bpt/usage_reqs.cpp:88-90 | On a closed chain every `next` is the following vertex, and the last one is where the chain closes |
| UsageReqs.UsageRequirementMap.FindUsageCycle | src/bpt/usage_reqs.cpp:142-169 | Returns nothing if and only if the graph of `uses` between present libraries is acyclic, and otherwise a simple cycle of it: the one that is run into from the first library, by namespace and name, that leads to a cycle, always taking the first use that leads to one |
| UsageReqs.OneReport | src/bpt/usage_reqs.cpp:142-169 | These words leave no choice: there is just one cycle that can be reported |
| UsageReqs.BelowByCharacters | src/libman/usage.hpp:14-18 | That order is by namespace and then by name, each by the first character in which they differ |
| CycleReport.OneRun | src/bpt/usage_reqs.cpp:117-132 | Always taking the first use that leads to a cycle gives one path and one place where it closes |
| UsageReqs.PathRunsInto | src/bpt/usage_reqs.cpp:108-132 | On a chain that closes, each vertex is the first use of the one before that leads to a cycle, because the uses before it are finished |
| UsageReqs.VerifyAcyclic | src/bpt/usage_reqs.cpp:171-198 | Reports exactly the cyclic maps, with the cycle that the search reports and its first member once more |
| UsageReqs.MakeUsageRequirements | src/bpt/usage_reqs.hpp:64-67 | An object is made exactly for acyclic maps; it holds its own copy of the libraries, whose acyclicity nothing can end |
| UsageReqs.UsageRequirements.IncludePaths | src/bpt/usage_reqs.hpp:78-80 | On an accepted object, without any further premise: the paths of exactly the reachable libraries, or a missing one |
| UsageReqs.LinksMayStillCycle | src/bpt/usage_reqs.cpp:118-118 | Some accepted map has a cycle once `links` edges are added |
| UsageReqs.UsageRequirementMap.Add | src/bpt/usage_reqs.cpp:28-35 | A new identity gets an empty library; a taken one is reported and nothing changes |
| UsageReqs.UsageRequirementMap.AddLibrary | src/bpt/usage_reqs.hpp:42-43 | Assigning through the reference that the first form hands out: the new identity gets that library |
| UsageReqs.UsageRequirementMap.IncludePaths | src/bpt/usage_reqs.cpp:65-76 | On every map on which the recursion ends at all: returns what it returns, namely the include paths of exactly the libraries that can be reached over `uses`, of which none is missing, or a missing one that is needed |
| UsageReqs.UsageRequirementMap.LinkPaths | src/bpt/usage_reqs.cpp:47-63 | The same for the linkable paths of what can be reached over `uses` and `links` |
| UsageReqs.UsageRequirements.LinkPaths | src/bpt/usage_reqs.hpp:77-77 | The same on an accepted object, whose links may form cycles |
| CollectionReturns.ReturnsExactly | src/bpt/usage_reqs.cpp:47-76 | On every map, cyclic or not: a collector returns paths if and only if nothing reachable is missing and no cycle is within reach; it returns whenever no cycle is within reach, and with nothing missing only then |
| CollectionReturns.ReturnsIfMissingFirst | src/bpt/usage_reqs.cpp:47-76 | On every map: a collector returns if and only if paths can be returned, or always going to the first dependency for which they cannot leads to a missing library rather than around a cycle |
| CollectionReturns.TroubledFails | src/bpt/usage_reqs.cpp:47-76 | A call that returns fails if and only if something reachable is missing or a cycle is within reach |
| CollectionReturns.NoCycleReturns | src/bpt/usage_reqs.cpp:47-76 | Without a cycle within reach the calls are nested no deeper than there are reachable libraries, and one more |
| Digraph.CycleThroughSuccessor | src/bpt/usage_reqs.cpp:56-61 | A cycle within reach is within reach of one of the calls that are made next |
| PathCollection.WithinIsUnion | src/bpt/usage_reqs.cpp:47-76 | On every map, whatever cycles it has elsewhere: a collection that returns has, as a set, the union over all reachable vertices, none of which is missing, or reports a missing one that is needed |
| PathCollection.OneResult | src/bpt/usage_reqs.cpp:47-76 | What is returned does not depend on how deep the calls are followed |
| PathCollection.WithinStep | src/bpt/usage_reqs.cpp:72-74 | One more successor appends its collection or makes its failure the result |
| PathCollection.ReturnedInOrder | src/bpt/usage_reqs.cpp:65-76 | A library's own paths come first, then what each of its dependencies returns, in their order |
| Digraph.TopologicalMeansAcyclic | src/bpt/usage_reqs.cpp:133-138 | A listing in which every edge leads to an earlier vertex rules out every cycle: why finishing all vertices proves acyclicity |
| Digraph.WalkDescends | src/bpt/usage_reqs.cpp:108-110 | A walk drops in the order of finishing by at least one with each step |
| Digraph.ListedLeadsToNone | src/bpt/usage_reqs.cpp:108-110 | From a finished vertex no cycle can be reached |
| Digraph.ReachShrinks | src/bpt/usage_reqs.cpp:72-74 | Where no cycle is within reach, the reachable set shrinks strictly along every edge |
| ParallelRun.RunInv | src/bpt/util/parallel.hpp:18-67 | Every state of every interleaved run keeps mutual exclusion, claims that are a prefix of the range, and each item accounted for once among held, finished and thrown |
| ParallelRun.AccountedKept | src/bpt/util/parallel.hpp:40-49 | Each worker step keeps: an item below the iterator is exactly once in some hand, returned or recorded; others nowhere |
| ParallelRun.StepExtendsClaims | src/bpt/util/parallel.hpp:33-47 | A step only appends claims and exceptions, and appends no claim once an exception is recorded |
| ParallelRun.ResultMeansAllRan | src/bpt/util/parallel.hpp:53-66 | On return all workers have ended, every claimed item was called exactly once, by the worker that claimed it, and returned or is recorded as thrown; true if and only if every item of the range returned exactly once and nothing threw |
| ParallelOutcome.EndIsRecorded | src/bpt/util/parallel.hpp:43-66 | In every run: a call that threw is recorded when `parallel_run` returns and not among those that returned, a call that returned the other way round, and after a throw the result is false |
| ParallelOutcome.OkExactly | src/bpt/util/parallel.hpp:53-66 | The result is true if and only if every item was claimed and no call threw |
| ParallelOutcome.ThrownHasEnded | src/bpt/util/parallel.hpp:43-49 | Only a call that throws makes an exception |
| ParallelOutcome.EitherEnd | src/bpt/util/parallel.hpp:41-46 | Whenever a call is under way in a run, the run can go on with its throwing and with its returning |
| ParallelOutcome.CallsOverlap | src/bpt/util/parallel.hpp:33-42 | Whatever calls are under way, a waiting worker can start the one on the next item beside them |
| ParallelRun.ClaimantsKept | src/bpt/util/parallel.hpp:40-48 | Each step keeps: a call that has ended was made by the worker that claimed its item |
| ParallelRun.NoClaimAfterException | src/bpt/util/parallel.hpp:34-36 | In every run, once an exception is recorded the claims and the iterator stay as they are |
| ParallelRun.OneExceptionPerWorker | src/bpt/util/parallel.hpp:45-49 | No worker records two exceptions |
| ParallelRun.NoDeadlock | src/bpt/util/parallel.hpp:29-62 | Until the call has returned some step is possible |
| ParallelRun.StepDecreases | src/bpt/util/parallel.hpp:29-62 | Every step of a worker or of the caller lowers one measure |
| ParallelRun.MeasureFalls | src/bpt/util/parallel.hpp:29-62 | Along a run the measure stays non-negative and falls with each step |
| ParallelRun.EveryRunEndsInReturn | src/bpt/util/parallel.hpp:18-67 | Every run is no longer than a bound linear in workers and items, and can be extended exactly if it has not returned |
| ParallelRun.WorkerCount | src/bpt/util/parallel.hpp:55-57 | There is always at least one worker: as many as asked for, or two more than the hardware has threads |
| CacheDb.Database.InsertLibraries | src/bpt/crs/cache_db.cpp:105-113 | The trigger's insert succeeds exactly if the library names are distinct, and then the package lists exactly these libraries and no other package's rows changed |
| CacheDb.Database.WritePackage | src/bpt/crs/cache_db.cpp:101-131 | Insert trigger and changed-JSON trigger both leave the library table the projection of the package rows |
| CacheDb.Database.UpsertPackage | src/bpt/crs/cache_db.cpp:526-532 | Overwrites the row of that key in place or adds a fresh one; keys stay unique; fails exactly on repeated library names |
| CacheDb.Database.DeleteOld | src/bpt/crs/cache_db.cpp:544-549 | Removes exactly the rows of the remote with an older revision, and their libraries |
| CacheDb.Database.UpsertRemote | src/bpt/crs/cache_db.cpp:468-495 | Adds the remote with revision one under the next row id, or overwrites the one of that name and raises its revision by one |
| CacheDb.Database.ImportPackages | src/bpt/crs/cache_db.cpp:533-539 | Succeeds exactly for importable listings and then leaves old rows updated or untouched, and new rows for exactly the new keys |
| CacheDb.Database.ImportListing | src/bpt/crs/cache_db.cpp:466-550 | The transaction commits exactly if the repository has a name and its listing is importable; afterwards the remote holds that listing at its new revision |
| CacheDb.Database.SyncRemote | src/bpt/crs/cache_db.cpp:442-560 | From every consistent state: it commits exactly if the listing has a name, only JSON, and no package of version one or more that repeats a library name; failure changes nothing. After a commit the columns of the remote are those of the listing, its revision is one more, and for each good entry of package version one or more without a later one of the same name, version and package version exactly one row has these columns, and there are no other rows; ids of surviving rows and rows of other remotes are kept, and all constraints hold again. An up-to-date answer sets both freshness columns of every remote |
| CacheDb.Database.ForgetAll | src/bpt/crs/cache_db.cpp:156-156 | Cascades empty the remote, package and library tables; the enabled ids stay |
| CacheDb.Database.EnableRemote | src/bpt/crs/cache_db.cpp:245-260 | Enables exactly the remotes with that URL; reports an unknown remote exactly when none of them was newly enabled |
| CacheDb.Database.Run | src/bpt/crs/cache_db.cpp:156-560 | After any sequence of operations on an empty database, the remotes are exactly those synced since the last `forget_all`, each row with its id, URL, revision count and freshness columns as the history has them and its contents those of its last committed sync, entry by entry; a remote is enabled if and only if it was asked for since the last `forget_all` or has an id that was enabled before that |
| CacheSync.MergeStep | src/bpt/crs/cache_db.cpp:526-539 | One upsert extends the merge of a listing prefix to the next entry: later entries with a key replace earlier ones |
| CacheSync.SweepLeavesListing | src/bpt/crs/cache_db.cpp:533-549 | Mark and sweep: after merging, deleting the older revisions leaves exactly the listing, provided all rows of the remote were older |
| CacheSync.CachedExactlyIfLast | src/bpt/crs/cache_db.cpp:526-549 | A package is cached under a remote exactly if it is the last importable entry with its key, and then in one row only |
| CacheSync.HeldAsListed | src/bpt/crs/cache_db.cpp:88-90 | The same in columns: exactly one row for each good entry of package version one or more that no later good one with its name, version and package version replaces, and no other rows |
| CacheDb.CommitsExactly | src/bpt/crs/cache_db.cpp:497-539 | A listing is importable exactly if it is all JSON and no package taken up repeats a library name |
| CacheSync.HoldsElsewhere | src/bpt/crs/cache_db.cpp:545-546 | A sync of one remote does not disturb what another one holds |
| CacheHistory.ReflectsSync | src/bpt/crs/cache_db.cpp:468-550 | A committed sync takes tables that reflect a history to tables that reflect the longer one |
| CacheHistory.ReflectsRefresh | src/bpt/crs/cache_db.cpp:450-458 | An up-to-date answer for one remote changes the freshness of all of them, in the tables as in the history, and nothing else |
| CacheHistory.EnabledEnable | src/bpt/crs/cache_db.cpp:245-260 | Enabling by URL enables exactly the remotes that the history knows under that URL |
| CacheHistory.SyncKeepsIds | src/bpt/crs/cache_db.cpp:468-495 | A sync gives no known remote another id, so it neither enables nor disables one |
| CacheHistory.SyncedId | src/bpt/crs/cache_db.cpp:55-55 | The row that a sync writes is the known one of that name, or has the number of remotes and one as its id |
| CacheHistory.CountedSync | src/bpt/crs/cache_db.cpp:55-55 | Keeps that the ids in use are those from one to the number of remotes |
| CacheHistory.EnabledIsLeftOverAndWanted | src/bpt/crs/cache_db.cpp:135-156 | After every history the enabled ids are those left over by the last `forget_all` and those of the remotes asked for since; nothing is left over before the first one |
| CacheHistory.EnabledExactly | src/bpt/crs/cache_db.cpp:135-260 | A known remote is enabled if and only if it was asked for since the last `forget_all` or its id was left over |
| CacheHistory.OnlyWantedAreEnabled | src/bpt/crs/cache_db.cpp:135-260 | Just the remotes asked for are enabled if and only if no other one has an id that was left over |
| CacheHistory.NewRemoteIsEnabled | src/bpt/crs/cache_db.cpp:468-495 | Before a sync adds a remote it can be told whether that will be enabled unasked: exactly if the number of remotes and one is an id left over |
| CacheHistory.ForgottenIdIsPassedOn | src/bpt/crs/cache_db.cpp:135-156 | Sync, enable, forget all, sync another: that one is enabled, and nobody asked for it |
| CacheProjection.FillStep | src/bpt/crs/cache_db.cpp:105-113 | Inserting one library that is not yet listed keeps names unique and extends just that package's libraries |
| CacheProjection.SoundAfterWrite | src/bpt/crs/cache_db.cpp:101-131 | Writing a row and replacing its library rows keeps keys unique and the projection exact |
| CacheProjection.SoundAfterDelete | src/bpt/crs/cache_db.cpp:91-99 | The cascade keeps the projection exact for the rows that are left |
| CacheTables.LastWithIsLast | src/bpt/crs/cache_db.cpp:529-538 | The entry that wins for a key is importable, has the key, and no later importable entry has it; there is none only if no entry has the key |
| CacheTables.LibsAfterInsert | src/bpt/crs/cache_db.cpp:105-113 | Inserting a row adds one library to one package |
| CacheTables.LibsAfterDelete | src/bpt/crs/cache_db.cpp:120-121 | Deleting by package empties those packages' libraries and no others |
| EditDistance.LevEditDistance | src/bpt/dym.cpp:14-46 | Filling the matrix in place computes the distance of the two whole strings |
| EditDistance.LevIsDistance | src/bpt/dym.cpp:14-46 | That number is the minimum length over all scripts of insertions, deletions and substitutions from one string to the other |
| EditDistance.NoScriptIsShorter | src/bpt/dym.cpp:34-43 | Every script that turns the one string into the other has at least that length |
| EditDistance.ShortestScript | src/bpt/dym.cpp:34-43 | Some script has exactly that length |
| EditDistance.ScriptAligns | src/bpt/dym.cpp:34-43 | Any script, whatever the order of its edits, gives a column alignment that is no heavier |
| EditDistance.EditFirst | src/bpt/dym.cpp:34-43 | An edit before an alignment costs at most one more column |
| EditDistance.AlignmentAtLeast | src/bpt/dym.cpp:34-43 | No alignment of the prefixes weighs less than the matrix cell |
| EditDistance.BestAlignment | src/bpt/dym.cpp:34-43 | Some alignment weighs just what the cell says |
| EditDistance.LevZero | src/bpt/dym.cpp:35-35 | The distance is zero exactly for equal strings |
| EditDistance.LevSymmetric | src/bpt/dym.cpp:14-46 | The distance is symmetric |
| EditDistance.LevTriangle | src/bpt/dym.cpp:14-46 | The triangle inequality |
| EditDistance.DidYouMean | src/bpt/dym.hpp:14-24 | Returns the first of the nearest candidates by fewest edits, nothing only without candidates, and the given string itself if it is one |
| FnPattern.AcceptsUnfold | src/bpt/util/fnmatch.cpp:22-84 | Acceptance, defined by splitting the string into one piece per element, agrees with matching element by element from the front |
| FnPattern.ExpandKeepsLanguage | src/bpt/util/fnmatch.cpp:121-144 | Grouping literal characters or not does not change the language |
| FnPattern.AcceptsEnd | src/bpt/util/fnmatch.cpp:170-171 | The closing end element changes nothing in the language |
| FnPattern.NegationIrrelevant | src/bpt/util/fnmatch.hpp:84-91 | Without groups that start with `!`, both dialects read the same elements |
| FnPattern.TokensOfSpelling | src/bpt/util/fnmatch.hpp:94-118 | Every list of elements can be written as a pattern and is read back from it |
| FnmatchRuntime.PatternImpl.CompileOneof | src/bpt/util/fnmatch.cpp:98-119 | Compiles a group exactly if it is terminated, taking its characters and stopping behind it |
| FnmatchRuntime.PatternImpl.CompileLit | src/bpt/util/fnmatch.cpp:121-144 | Adds one literal that stands for a run of single-character tokens, or fails where the pattern has no meaning |
| FnmatchRuntime.PatternImpl.CompileNext | src/bpt/util/fnmatch.cpp:146-165 | Fails exactly on ill-formed patterns; otherwise the list grows by elements that expand to the tokens |
| FnmatchRuntime.Compile | src/bpt/util/fnmatch.cpp:168-172 | The finished list has the tokens and then a single end |
| FnmatchRuntime.PatternImpl.MatchStar | src/bpt/util/fnmatch.cpp:22-34 | The loop of the star decides acceptance by the rest of the list |
| FnmatchRuntime.PatternImpl.MatchAnyChar | src/bpt/util/fnmatch.cpp:36-43 | Decides acceptance for an arbitrary character and the rest |
| FnmatchRuntime.PatternImpl.MatchOneof | src/bpt/util/fnmatch.cpp:45-56 | Decides acceptance for a character of a set and the rest |
| FnmatchRuntime.PatternImpl.MatchLit | src/bpt/util/fnmatch.cpp:63-75 | Decides acceptance for a literal and the rest |
| FnmatchRuntime.PatternImpl.Match | src/bpt/util/fnmatch.cpp:174-177 | The list accepts exactly the strings that split among its elements |
| FnmatchRuntime.CompileAndMatch | src/bpt/util/fnmatch.cpp:146-177 | A well-formed pattern accepts exactly the strings that split into one piece per token; others are errors |
| FnmatchCompileTime.CompileIsTokens | src/bpt/util/fnmatch.hpp:65-118 | The index-passing compilation reads the same tokens as the reference reading, and fails on the same patterns |
| FnmatchCompileTime.Match1 | src/bpt/util/fnmatch.hpp:137-248 | Whichever overload is selected, the result is acceptance |
| FnmatchCompileTime.MatchStarJusts | src/bpt/util/fnmatch.hpp:144-160 | Skipping ahead for a star before literals loses no match |
| FnmatchCompileTime.MatchJusts | src/bpt/util/fnmatch.hpp:165-175 | Comparing lengths and characters decides acceptance by literals |
| FnmatchCompileTime.Equal | src/bpt/util/fnmatch.hpp:120-130 | True exactly if the characters stand at that place |
| FnmatchCompileTime.MatchStar | src/bpt/util/fnmatch.hpp:178-189 | The general star decides acceptance |
| FnmatchCompileTime.MatchOne | src/bpt/util/fnmatch.hpp:191-243 | The one-character overloads decide acceptance |
| FnmatchCompileTime.JustsAccept | src/bpt/util/fnmatch.hpp:165-175 | A row of literals accepts just the text it spells |
| FnmatchCompileTime.CompileAndMatch | src/bpt/util/fnmatch.hpp:94-248 | The compile-time matcher accepts exactly the strings that split among the tokens |
| FnmatchAgreement.AgreeExactly | src/bpt/util/fnmatch.hpp:81-118 | For every pattern that compiles, the two matchers accept the same strings if and only if no group of it starts with `!` or some group is `[]`, which makes both reject everything |
| FnmatchAgreement.ReadingsDiffer | src/bpt/util/fnmatch.hpp:81-92 | With a negated group and no empty one, some string is accepted by one matcher only |
| FnmatchAgreement.TokensDiffer | src/bpt/util/fnmatch.hpp:94-118 | Every pattern compiles for both matchers or for neither, and their elements differ in the negated groups only |
| FnmatchAgreement.TokensShow | src/bpt/util/fnmatch.hpp:84-91 | The conditions on the pattern text are those on its elements |
| FnmatchAgreement.ShortestFit | src/bpt/util/fnmatch.hpp:178-243 | A string with one character for each element but the stars is accepted exactly if each fits its element |
| FnmatchAgreement.MatchBoth | src/bpt/util/fnmatch.hpp:137-260 | Both matchers run on one pattern and text: they fail on the same patterns, whatever these are, and give the same answer under that condition |
| FnmatchAgreement.NegatedGroupsDisagree | src/bpt/util/fnmatch.hpp:84-91 | In any pattern, between characters that fit what is around it, a negated group turns the answer around for every character other than `!` |
| Glob.CompileGlobExpr | src/bpt/util/glob.cpp:143-170 | Compiles exactly the non-empty expressions all of whose parts are well formed, one item per part with its meaning |
| Glob.PartsJoin | src/bpt/util/glob.cpp:149-156 | Splitting at slashes loses nothing but one slash at the end |
| Glob.CheckMatches | src/bpt/util/glob.cpp:205-235 | True exactly if the remaining elements split among the remaining items |
| Glob.PeelElements | src/bpt/util/glob.cpp:222-233 | The loop of an inner `**` finds a point to hand over exactly if there is one |
| Glob.MatchGlob | src/bpt/util/glob.cpp:239-244 | From expression text to verdict: a path is accepted exactly if its elements split among the parts |
| PatternTexts.StarText | src/bpt/util/fnmatch.hpp:100-101 | `*` before a pattern accepts what has an accepted rest |
| PatternTexts.AnyText | src/bpt/util/fnmatch.hpp:102-103 | `?` before a pattern takes any one character |
| PatternTexts.CharText | src/bpt/util/fnmatch.hpp:115-117 | Any character that is not special takes itself |
| PatternTexts.EscapedText | src/bpt/util/fnmatch.cpp:129-136 | After a backslash any character takes itself |
| PatternTexts.GroupText | src/bpt/util/fnmatch.hpp:65-79 | A group takes one of its characters |
| PatternTexts.NegatedText | src/bpt/util/fnmatch.hpp:81-92 | With `!` in front it takes any other, for the compile-time matcher |
| PatternTexts.UnclosedText | src/bpt/util/fnmatch.hpp:65-79 | A group that is not closed is no pattern |
| PatternTexts.LiteralText | src/bpt/util/fnmatch.hpp:94-118 | A text without special characters accepts just itself |
| PatternTexts.FirstPartText | src/bpt/util/glob.cpp:143-235 | Read from the left: a part before a slash takes the next element, but `**` any number of them as long as something is left |
| PatternTexts.LastPartText | src/bpt/util/glob.cpp:143-235 | The last part takes one element, `**` one or more, with or without a slash at the end |
| GlobLanguage.OneTakesOne | src/bpt/util/glob.cpp:215-220 | An ordinary item takes exactly the next element |
| GlobLanguage.InnerDepth | src/bpt/util/glob.cpp:228-233 | An inner `**` takes any number of elements but must hand over at one |
| GlobLanguage.FinalDepth | src/bpt/util/glob.cpp:224-227 | A final `**` takes one element or more |
| GlobLanguage.NothingIsRejected | src/bpt/util/glob.cpp:212-214 | The empty path is accepted by no non-empty glob |
| GlobLanguage.SameLanguages | src/bpt/util/glob.cpp:205-235 | Only the languages of the items matter, not how they were compiled |
| Shlex.SplitShellString | src/bpt/util/shlex.cpp:12-66 | The loop runs the lexer of which the lemmas on splitting speak |
| ShlexGrammar.SplitWords | src/bpt/util/shlex.cpp:12-66 | On any string, the words are the texts of the words that spell it in the grammar of plain, escaped and quoted pieces between white space, whichever way it is spelled |
| ShlexGrammar.SplitsAsSpelled | src/bpt/util/shlex.cpp:20-65 | Splitting a spelled string gives the texts of its words: an escaped character stands for itself, an escaped newline for nothing, an opening quote discards what its word had so far, and an unfinished end counts |
| ShlexGrammar.EveryStringIsSpelled | src/bpt/util/shlex.cpp:20-65 | The grammar spells every string |
| Shlex.QuoteCommand | src/bpt/util/proc.hpp:16-26 | The appended text without its last character is the quoted words separated by single spaces |
| Shlex.QuotedForm | src/bpt/util/proc.common.cpp:9-25 | Words of letters, digits and ten other characters stay as they are; any other comes between double quotes, with a backslash before each of those inside |
| Shlex.QuoteAllAppend | src/bpt/util/proc.hpp:16-26 | One more word is quoted behind a single space |
| ShlexLists.QuotedCommandSplits | src/bpt/util/shlex.cpp:12-66 | Every list of non-empty words without backslashes comes back from its command, whatever spaces, newlines and quotes they contain |
| ShlexLists.ListSurvivesExactly | src/bpt/util/proc.hpp:16-26 | Any list of words comes back from its command if and only if no word is empty or has a backslash, although misread quotes can make words run into each other |
| ShlexLists.SurvivesExactly | src/bpt/util/proc.common.cpp:18-25 | In particular a single word survives if and only if it is not empty and has no backslash |
| ShlexLists.NoBackslashComesBack | src/bpt/util/shlex.cpp:20-46 | If a command splits into the words it was made of, counting quotes and backslashes over the whole command shows that no word has a backslash |
| ShlexLists.BalancedRun | src/bpt/util/shlex.cpp:20-59 | While no single quote has been misread, each double quote kept has cost a backslash and each backslash two, but for those kept before a zero character |
| ShlexLists.ZerosAreFew | src/bpt/util/shlex.cpp:28-35 | In a command of words of which some has a backslash, fewer backslashes are kept before zero characters than the words have |
| ShlexLists.EmptyWordsAreLost | src/bpt/util/proc.common.cpp:10-16 | Without backslashes, splitting gives the words back but for the empty ones |
| ShlexLists.RoundTrip | src/bpt/util/proc.hpp:16-26 | The exact round trip for the two loops one after the other |
| Text.TrimAround | src/bpt/util/string.hpp:20-33 | White space around a trimmed text goes, and nothing of the text |
| Text.TrimView | src/bpt/util/string.hpp:20-33 | The two scans from both ends compute the trimming used by the parsers |
| Text.TrimTakes | src/bpt/util/string.hpp:20-33 | The white space that goes is space, tab, newline, carriage return, vertical tab and form feed |
| LibmanParse.ParseLine | src/libman/parse.cpp:19-53 | The scan appends the pair that the line means, nothing for comments and blanks, or reports the line |
| LibmanParse.ParseString | src/libman/parse.cpp:57-76 | The loop over characters parses exactly the lines, also an unterminated last one |
| LibmanParse.WritePairs | src/libman/parse.cpp:80-85 | Writes the text that the round-trip lemmas speak of |
| LibmanParse.RoundTripExactly | src/libman/parse.cpp:19-85 | Reading back what was written gives the same pairs if and only if each pair is trimmed, without newline, not a comment, and has a key that the scan passes over |
| LibmanParse.ColonFreeRoundTrip | src/libman/parse.cpp:19-85 | In particular for keys without colons, with empty values and values containing `: ` or `#` |
| LibmanParse.ParsedIsClean | src/libman/parse.cpp:47-52 | Parsing only ever produces trimmed pairs whose key is no comment |
| LibmanParse.WriteThenParse | src/libman/parse.cpp:57-85 | The exact round trip for the two loops one after the other |
| LibmanGrammar.FileMeans | src/libman/parse.cpp:19-76 | A file as written by hand is parsed to its entries, whatever blank lines and comments stand between them, whatever white space is about keys and values, and with or without a final newline |
| LibmanGrammar.FaultyLineFails | src/libman/parse.cpp:30-33 | The first line without a colon that is neither blank nor a comment is reported as it stands |
| LibmanGrammar.KeyTexts | src/libman/parse.cpp:34-46 | A colon is part of a key together with the character after it, which is not a space |
| Spdx.FindWithId | src/bpt/project/spdx.cpp:62-69 | On a sorted table the binary search finds an identifier exactly if the table has it |
| Spdx.NextTokenOf | src/bpt/project/spdx.cpp:47-60 | The scan yields the token that the grammar speaks of |
| Spdx.Cursor.ReadSimple | src/bpt/project/spdx.cpp:86-102 | Consuming in place reads the same licence, rest and error as the recursive grammar |
| Spdx.Cursor.ReadExpr | src/bpt/project/spdx.cpp:133-169 | The same for compound expressions |
| Spdx.ParseExpression | src/bpt/project/spdx.cpp:200-210 | The same for whole texts, including left-over text |
| SpdxRoundTrip.ComesBack | src/bpt/project/spdx.cpp:133-192 | The printed form of a tree, followed by anything that closes it, parses to that tree and leaves what followed |
| SpdxRoundTrip.PrintThenParse | src/bpt/project/spdx.cpp:133-210 | For every tree that can be built without `WITH`, parsing its printed form gives it back |
| SpdxRoundTrip.PrintsBackExactly | src/bpt/project/spdx.cpp:133-210 | Any tree at all comes back from its printed form if and only if the parser can build it and no exception is in it |
| SpdxRoundTrip.AcceptedExactlyWithout | src/bpt/project/spdx.cpp:133-210 | The printed form of a tree of the grammar is accepted, as whatever, if and only if no exception is in it |
| SpdxRoundTrip.ExceptionFails | src/bpt/project/spdx.cpp:157-166 | Printed text with an exception at any depth is not read back, whatever closes it |
| SpdxRoundTrip.AcceptedHasNoWith | src/bpt/project/spdx.cpp:157-166 | Every accepted expression is free of `WITH` and is a tree that can be built |
| SpdxRoundTrip.AcceptedIsPrinted | src/bpt/project/spdx.cpp:200-214 | Parse, print, parse equals parse on every accepted text, and the text differs from the print in white space only |
| SpdxRoundTrip.AcceptedTexts | src/bpt/project/spdx.cpp:133-214 | Up to white space, the accepted texts are exactly the printed forms of the trees that can be built |
| SpdxTexts.LicenceText | src/bpt/project/spdx.cpp:38-169 | Every identifier of letters, digits, `-` and `.` in the table is an expression, also with a plus and in parentheses |
| SpdxTexts.JoinedText | src/bpt/project/spdx.cpp:144-156 | Two licences with `AND` or `OR` between them |
| SpdxTexts.ChainText | src/bpt/project/spdx.cpp:144-156 | Neither operator binds tighter: the right side is taken as a whole |
| SpdxTexts.SpacedOperator | src/bpt/project/spdx.cpp:133-156 | Any white space may stand about an operator, whatever follows it |
| SpdxTexts.SpacedText | src/bpt/project/spdx.cpp:200-210 | Any white space may stand around an expression |
| SpdxTexts.SpacedPlusFails | src/bpt/project/spdx.cpp:95-98 | A plus after a space is left over |
| SpdxTexts.ExceptionText | src/bpt/project/spdx.cpp:157-166 | No exception is accepted, whatever its name |
| SpdxTexts.UnknownText | src/bpt/project/spdx.cpp:86-93 | An identifier that is not in the table is reported |
| SpdxTexts.UnclosedText | src/bpt/project/spdx.cpp:135-141 | A parenthesis that is not closed is reported |
| SpdxTexts.LeftOverText | src/bpt/project/spdx.cpp:200-210 | Text after an expression is reported |
| RequirementClosure.RequirementsOf | src/bpt/solve/solve.cpp:244-294 | The loop terminates. For an implicit use of all libraries it succeeds exactly if every sibling used by a library that the lookup finds exists, and returns exactly the dependencies of all libraries; for an explicit list exactly if every name that a chain of uses leads to exists, and returns exactly the dependencies of the libraries so reached |
| RequirementClosure.FailsExactly | src/bpt/solve/solve.cpp:253-280 | The condition for failing, in terms of the libraries alone |
| RequirementClosure.RequiredExactly | src/bpt/solve/solve.cpp:253-287 | The dependencies that are returned, in terms of the libraries alone |
| RequirementClosure.OneRound | src/bpt/solve/solve.cpp:264-280 | One round adds only reached names, and adds none only if the set is closed |
| RequirementClosure.ClosureIsLeast | src/bpt/solve/solve.cpp:264-280 | A set consists of the reached names if and only if it is the least set with the requested names that is closed under sibling use |
| RequirementClosure.ClosureHasAll | src/bpt/solve/solve.cpp:264-280 | The set whose dependencies are returned consists of just the reached names |
| RequirementClosure.DependenciesAreThose | src/bpt/solve/solve.cpp:282-287 | A dependency is returned exactly if some library with a reached name has it |
| RequirementClosure.ReachedExists | src/bpt/solve/solve.cpp:268-275 | In a valid package everything reached from existing libraries exists: the assertion cannot fire |
| RequirementClosure.BestCandidate | src/bpt/solve/solve.cpp:199-234 | Picks the first acceptable package that has every library asked for, or none if there is none |
| RequirementClosure.RequirementsOfBest | src/bpt/solve/solve.cpp:199-294 | For valid packages the requirements of the candidate never fail, and are exactly what is required of the first candidate |
| RequirementClosure.ThrowIfInvalid | src/bpt/crs/info/package.cpp:132-144 | Reports a use of a sibling that does not exist exactly if there is one |
| Terminal.FeedSequence | src/fansi/writer.cpp:27-34 | A spelled control sequence does to a terminal what its codes do, and shows nothing |
| TextWriter.TextWriter.PutStyle | src/fansi/writer.cpp:19-101 | Appends the specified sequence of the style change, and remembers the style |
| TextWriter.Pending.AppendToggle | src/fansi/writer.cpp:36-54 | Extends both encodings at once and notes the dropping of bold |
| TextWriter.TogglesShow | src/fansi/writer.cpp:56-90 | What the toggles do to any look, for any two styles: each attribute that differs is set, dropping faint takes bold along, and the code of an unspecified colour does what it does |
| TextWriter.RestartShows | src/fansi/writer.cpp:68-90 | Starting over shows the same whatever was shown, and with specified colours just the new style |
| TextWriter.EmissionLooks | src/fansi/writer.cpp:92-98 | The exact look after any change between any styles on a terminal that shows anything, whichever encoding is chosen |
| TextWriter.SpecifiedLooks | src/fansi/writer.cpp:56-98 | Between styles with specified colours that is the new style, but for bold: it is lost when faint is dropped under it, and until it is set anew or the style starts over |
| TextWriter.StrikeAfter | src/fansi/writer.cpp:13-15 | When strike shows after a change of style: an unspecified foreground that is not bright takes it away whenever its code is put out |
| TextWriter.EmissionShows | src/fansi/writer.cpp:92-98 | A terminal showing the previous style shows the new one if and only if faint is not dropped under bold without starting over |
| TextWriter.ShorterIsChosen | src/fansi/writer.cpp:92-98 | Unless bold is dropped, the shorter encoding is put out, and the changes if both are as long |
| TextWriter.FaintUnderBoldIsLost | src/fansi/writer.cpp:56-57 | A concrete style change for which bold is lost |
| TextWriter.ColorCode | src/fansi/writer.cpp:13-15 | The colour codes select the colour and brightness, for foreground and background, but for the unspecified colour: 29 ends strike, 39 resets the foreground, and the bright ones do nothing |
| StyleMarkup.PrintedMeans | src/fansi/styled.cpp:77-137 | Printed nested markup, whatever follows it, means its characters in the styles that they are nested in, and leaves the stack as it was |
| StyleMarkup.PrintThenDisplay | src/fansi/styled.cpp:77-110 | The whole text of printed markup means just that markup |
| StyleMarkup.ReadPrinted | src/fansi/styled.cpp:123-137 | A list of classes separated by dots is read as these classes, although the character after a dot is not looked at |
| StyledScreen.OutputShows | src/fansi/styled.cpp:77-121 | A terminal that shows anything and is fed the rendering, forced or not, of any styles, shows exactly the computed cells in addition, and ends in the computed look |
| StyledScreen.MeantExactly | src/fansi/styled.cpp:163-169 | With specified colours, the cells are as the markup means them if and only if no character becomes visible while its bold is lost |
| StyledScreen.FaintFreeKeepsBold | src/fansi/styled.cpp:163-169 | Without faint no bold is ever lost |
| StyledScreen.BoldIsLostInMarkup | src/fansi/styled.cpp:163-169 | In `.bold[.faint[x]y]` the bold of `y` is lost |
| StyledScreen.StrikeIsLostInMarkup | src/fansi/styled.cpp:139-161 | `.strike.unspecified[x]` shows `x` without its strike |
| StyledScreen.PlainExactly | src/fansi/styled.cpp:77-169 | The output is the visible characters alone if and only if every style that is put is spelled like the first |
| StyledScreen.UnstyledExactly | src/fansi/styled.cpp:163-169 | Printed markup rendered without styling is its characters alone if and only if every span that closes inside another returns to a style with the codes of the default |
| Styled.TextStyler.ReadClasses | src/fansi/styled.cpp:123-161 | The loop with two cursors reads the style that the grammar of classes reads, and where it ends |
| Styled.TextStyler.PushStyle | src/fansi/styled.cpp:112-121 | Opening a span puts its style if styling is on, and completes the same result |
| Styled.TextStyler.PopStyle | src/fansi/styled.cpp:163-169 | Closing a span puts the style below even if styling is off, and completes the same result |
| Styled.TextStyler.Render | src/fansi/styled.cpp:77-110 | The loop over the whole input returns exactly the output of the events that the input means, or its fault, with styling on or off |
| Styled.Stylize | src/fansi/styled.cpp:174-177 | The same for the function as called |
| Styled.RenderedShows | src/fansi/styled.cpp:77-177 | A blank terminal shows the computed cells of the rendering, forced or not |
| Styled.ForcedShows | src/fansi/styled.cpp:77-177 | With specified colours a blank terminal shows the forced rendering exactly as intended if and only if no character is shown while its bold is lost |
| StyleClasses.MarkupShows | src/fansi/styled.cpp:112-169 | Forced rendering of nested markup shows every character in the look that the names of all the classes around it say, if and only if none is shown while its bold is lost |
| StyleClasses.ClassesLook | src/fansi/styled.cpp:139-161 | The style of a list of classes looks as their names say: the last colour, bright with `br`, and each attribute that is named |
| StyleSpans.PaletteShows | src/fansi/style.hpp:7-18 | The colours by name: black to white show the eight of the palette in order, normal the default |
| StyleSpans.BrightPaletteShows | src/fansi/style.hpp:7-18 | With `br` before them they show the bright ones |
| StyleSpans.AttributesShow | src/fansi/styled.cpp:144-154 | Each attribute class sets its own attribute and nothing else |
| StyleSpans.SpanShows | src/fansi/styled.cpp:77-177 | The text of a span is shown in the look of its classes, faint among them or not, and the text around it in the default |
| StyleSpans.SpanOutput | src/fansi/writer.cpp:19-101 | The output for a span in plain text, byte by byte: the codes of its classes in order, and code 0 at its end |
| StyleSpans.BoldRedOutput | src/fansi/styled.test.cpp:23-24 | For instance `foo .bold.red[bar] baz` |
| StyleSpans.PlainTextPrints | src/fansi/styled.cpp:91-107 | Text in which no dot comes before a letter comes out as it is, brackets included |
| StyleSpans.TickedTextPrints | src/fansi/styled.cpp:79-88 | After a backtick any character stands for itself |
| StyleSpans.OtherClassFails | src/fansi/styled.cpp:155-160 | A class of any other name is a fault |

## Left out

- CacheDb.Database.Run: the order of enablement is not modelled, and ids have no largest value.
- CacheDb.Database.SyncRemote: the answer of the remote is a parameter; HTTP, revalidation and the attached file are not modelled. The JSON text of a row is identified with the metadata it encodes, and ids of package and library rows are any that are not in use.
- Shlex.QuoteCommand: `replace` is modelled for the one-character keys it is used with, and the character classes are those of ASCII.
- UsageReqs.UsageRequirementMap.LinkPaths: the premise is that the source's own recursion ends, with `CollectionReturns.ReturnsIfMissingFirst` for when it does; that the stack suffices is assumed.
- UsageReqs.UsageRequirementMap.Add: the reference to the inserted library is not returned; assigning through it is `AddLibrary`.
- ParallelRun.EveryRunEndsInReturn: `fn` is one step that returns or throws, so that it ends is assumed; fairness is not needed.
- FnmatchRuntime.Compile: the linked list of elements is a sequence, the successor of an element being the next one; ownership of the nodes is not modelled.
- FnmatchCompileTime.CompileIsTokens: strings are character sequences rather than terminated by a zero character, and template instantiation is a function of the pattern.
- RequirementClosure.RequirementsOf: dependencies and versions are opaque, the set of names has no order, and the first row for a name and version is the only one.
- RequirementClosure.BestCandidate: the version test is any predicate, and the candidate's requirement is represented by its place in the list.
- Spdx.FindWithId: the tables of licences and exceptions are parameters assumed sorted, with non-empty identifiers other than operators for the round trips; the long generated lists are not part of this model.
- Styled.ForcedShows: what an unspecified colour is meant to look like is written nowhere, so its exact effect is stated (`RenderedShows`) and no intention; visible escape characters would be read by the terminal as sequences of their own.
- Styled.Stylize: whether styling is on is a parameter; input that ends inside an escape, where the source warns and then steps past its end, is a fault.
- The queries of the cache that only read it, and the decision whether a cached answer is stale.
- The partial order on explicit and implicit `uses` lists of requirements, which is not symmetric, and the solver itself.
- The glob iterator that walks directories, which does not agree with the matcher on `**`.
- The argument parser, semantic versions, the JSON and YAML readers, toolchains, builds, logging and all file access.
