# Verified model of the audit, migration, cache, logging and SQL-warning algorithms

This Dafny project models the parts of the backend that hold real algorithms or state, and proves what they compute.

* `scripts/modular_monolith_audit.py`: strongly connected components and cycle enumeration on the import graph
  (`StronglyConnected.dfy`, `CycleKeys.dfy`, `CycleEnumeration.dfy`, with `CycleCap.dfy` on how far the cap can be
  overrun), the path algebra and the closure of `include_router` calls (`Paths.dfy`, `IncludeChains.dfy`,
  `IncludeTermination.dfy`, `MountPrefixes.dfy`), and the domain ownership map, written and read back
  (`DomainMap.dfy`, with `DomainDescriptions.dfy` on the layout and the descriptions).
* `app/db/migration_graph_guard.py`: the cycle search over revisions and the verdict on the migration history
  (`RevisionCycles.dfy`, `MigrationGuard.dfy`), and what the verdict says about the files themselves
  (`MigrationEntries.dfy`).
* `app/api/deps.py`: the token validation cache with its user index (`AuthCache.dfy`) and the callers that fill it
  in two steps (`AuthCallers.dfy`).
* `app/core/database.py`: the slow-query warnings (`SlowQueries.dfy`).
* `app/core/logging.py`: the log sanitizer (`Sanitizer.dfy`) and what it shows at each path of a value
  (`SanitizerPaths.dfy`).

`Ordering.dfy` and `Graphs.dfy` hold the orders behind `sorted` and `min` and the facts about walks and reachability
that the graph modules share; `Options.dfy` holds one datatype.

## How it is modelled

* Names, revisions, tokens and keys are strings; strings and lists of strings compare as Python compares them. A graph
  is a map from a name to a list of names, which may name nodes that are not keys of the map.
* What the code keeps in closures, module globals or objects and updates in place is a class whose methods change its
  fields; loops stay loops. Stretches of the longer functions are methods of their own so that each proof stays small:
  what follows the loop of `visit` (`Finish`, `PopComponent`), the loop body over components (`SearchComponent`), the
  checks on the files and on the database (`CheckFiles`, `CheckDatabase`), the branches of the sanitizer and the block
  of one partition (`RenderPartition`), the branch that records a cycle (`RecordCycle`) and the
  cooldown (`WarnWithCooldown`) and the filter and sorting of the components (`CyclicComponents`). In `visit` the recursion is on the nodes not yet numbered; in `dfs` of the cycle
  search on the nodes of the component not yet on the path.
* `sorted` on a set is "take the least, repeat"; `sorted` on a list is an insertion sort; both are specified as an
  ordered permutation.
* The clock, the start of a statement, the result of reading the database, the file names and the parsed metadata are
  inputs. Clock values are reals. A run of the token cache is any sequence of its operations, in the order in which
  they took the lock, each with whatever clock reading it brought along; a run of its callers is any sequence of
  lookups, validations, stores of what a caller validated, and invalidations. The monitor of slow queries carries the
  sequence of its hook calls as a ghost field, so its invariant speaks of every run on any number of connections.
* Token digests are a function from tokens to keys; the history results ask that it be injective, as SHA-256 is taken
  to be.
* The values given to the sanitizer live in a heap and refer to each other by identity, so they may be cyclic.

## Results that differ from what one would expect

* Joining paths is associative except in one case: for a non-empty first part without a final slash followed by two
  empty parts, grouping to the right adds a slash (`Paths.JoinAssociatesExactly`).
* The sanitizer cuts a key to 128 characters before it looks for markers, so a marker further along is not noticed
  (`Sanitizer.MarkerBeyondCut`); `Sanitizer.RawKeyDecides` says exactly which raw keys lose their value.
* A token can be absent from the cache before its time, because every store or lookup prunes with the clock reading it
  brought along (`AuthCache.PrunedBeforeItsTime`); an unexpired, unrevoked store is hit exactly when no store or lookup
  since has read a clock at or beyond its expiry (`AuthCache.HitUnlessPruned`).
* A token can be hit after a logout with a validation made before it, when another caller had validated it and not
  stored it yet (`AuthCallers.StaleHitWitness`); `AuthCallers.StaleHitExactly` says exactly when.
* `recurse_module` does not end on every program: its guard stops repeated triples only, so an ended recursion has
  visited a finite set of triples that no include call leaves. There is one exactly when no router that the includes
  reach lies on a cycle of include calls in which some prefix is more than slashes
  (`IncludeTermination.BoundedExactly`). A router that includes itself under `/a` is the smallest failing case; under
  `/`, or without a prefix, it is harmless (`IncludeTermination.SelfIncludeWitness`).
* The enumeration of cycles can exceed its cap, by at most the size of a component less one
  (`CycleEnumeration.CycleSearch.SearchComponent`), and for every size that much is reached
  (`CycleCap.OvershootIsReached`).
* The ownership map survives being written and read exactly when its names and entries are well formed
  (`DomainMap.RoundTripExactly`).

## Model

| member | source | states |
|---|---|---|
| `StronglyConnected.StronglyConnectedComponents` | scripts/modular_monolith_audit.py:841-881 | The lists returned are duplicate-free, sorted, pairwise disjoint and cover the nodes; each is a maximal set of mutually reachable nodes; no edge leaves a list for a later one |
| `StronglyConnected.SccSearch.Visit` | scripts/modular_monolith_audit.py:851-876 | The search invariant survives the visit; the low-link is the index of a stacked node the visited one reaches, no edge from what stays stacked goes below it, and a visit whose low-link is its own index leaves the stack as it was |
| `StronglyConnected.SccSearch.Finish` | scripts/modular_monolith_audit.py:868-876 | Whichever way the visit ends, the invariant holds again without the finished node among the running ones |
| `StronglyConnected.SccSearch.PopComponent` | scripts/modular_monolith_audit.py:869-876 | Pops exactly the nodes stacked since the given one and appends them, sorted, as a component |
| `StronglyConnected.TopIsConnected` | scripts/modular_monolith_audit.py:868-876 | When nothing older is reachable, the stack from the node up is mutually reachable |
| `StronglyConnected.TopIsMaximal` | scripts/modular_monolith_audit.py:868-876 | ... and no node outside it is mutually reachable with it |
| `StronglyConnected.StaysAnchored` | scripts/modular_monolith_audit.py:862-868 | A node left on the stack still leads back to a visit that is running |
| `StronglyConnected.SharedComponent` | scripts/modular_monolith_audit.py:841-881 | Each node is in exactly one component, and two nodes share one if and only if each reaches the other |
| `StronglyConnected.EarlierNeverReachesLater` | scripts/modular_monolith_audit.py:868-881 | No node of an earlier component reaches a node of a later one: reverse topological order along whole paths |
| `StronglyConnected.RecursionDepth` | scripts/modular_monolith_audit.py:849-863 | At any moment at most as many visits run as the graph has nodes, which the raised recursion limit allows |
| `Ordering.StringLeExactly` | scripts/modular_monolith_audit.py:903-909 | A string comes before another if it begins it or is smaller at the first place where they differ |
| `CycleKeys.CanonCycle` | scripts/modular_monolith_audit.py:897-903 | The key is the least of all rotations of the nodes and of their reversal |
| `CycleKeys.SameKey` | scripts/modular_monolith_audit.py:897-903 | Two cycles get the same key if and only if one is a rotation of the other or of its reversal |
| `CycleKeys.SimilarTransitive` | scripts/modular_monolith_audit.py:897-903 | Being a rotation, or a rotation of the reversal, carries over from one cycle to a third |
| `CycleKeys.RotationIsCycle` | scripts/modular_monolith_audit.py:905-930 | A rotated elementary cycle is an elementary cycle of the graph |
| `CycleEnumeration.CycleSearch.Dfs` | scripts/modular_monolith_audit.py:913-930 | The path is restored; each record is a genuine cycle with a new key; below the cap every cycle that begins with the path is recorded; at most one record beyond the cap per frame still open; the records are those of the reference function |
| `CycleEnumeration.CycleSearch.SearchComponent` | scripts/modular_monolith_audit.py:905-936 | Below the cap every cycle inside the component is recorded; beyond it at most the size of the component less one are added; the records are those of the reference function |
| `CycleCap.CapIsOverrun` | scripts/modular_monolith_audit.py:909-936 | For any cap, a component whose nodes each lead to the next and to the first, searched one short of the cap, ends with the cap plus its size less one |
| `CycleCap.OvershootIsReached` | scripts/modular_monolith_audit.py:909-936 | For every size there is a graph with a component of that size on which the bound of the overshoot is met |
| `CycleCap.CappedStays` | scripts/modular_monolith_audit.py:909-936 | Once the cap is reached, the remaining start nodes would add nothing, so leaving the loop loses nothing more |
| `CycleEnumeration.EnumerateCycles` | scripts/modular_monolith_audit.py:884-938 | The result is sorted, sound, non-redundant, complete when it has fewer than 5000 chains, and exceeds 5000 by at most the size of one component less one; it covers the first of the cyclic components, in order of size and names, completely, and its other chains lie in the next one |
| `CycleEnumeration.CyclicComponents` | scripts/modular_monolith_audit.py:885-905 | Exactly the components that may hold a cycle, each once, smaller ones first and equally large ones by their names |
| `CycleEnumeration.ComponentsAreListed` | scripts/modular_monolith_audit.py:841-887 | The list of components has every maximal mutually reachable set of nodes, once, and nothing else |
| `CycleCap.StartsStayWithin` | scripts/modular_monolith_audit.py:905-930 | The search of a component adds only chains of its own nodes |
| `CycleEnumeration.FrameComplete` | scripts/modular_monolith_audit.py:913-930 | Once all successors are handled, no cycle beginning with the path is missing |
| `CycleEnumeration.NothingContinues` | scripts/modular_monolith_audit.py:917-925 | No cycle from the start node goes on to a successor the search skips |
| `CycleEnumeration.OnlyPathCloses` | scripts/modular_monolith_audit.py:919-924 | The only cycle closed at this point is the path itself |
| `CycleEnumeration.PathFits` | scripts/modular_monolith_audit.py:905-930 | The path never has more nodes than the search may use |
| `CycleEnumeration.RanksOrder` | scripts/modular_monolith_audit.py:907-925 | Comparing ranks in the sorted component is comparing names |
| `CycleEnumeration.TurnToLeast` | scripts/modular_monolith_audit.py:909-925 | Every cycle of the component can be turned to start at its least node, which is where it is found |
| `CycleEnumeration.CycleHasComponent` | scripts/modular_monolith_audit.py:885-891 | Every elementary cycle lies inside one component that passes the filter for cyclic ones |
| `CycleEnumeration.LedgerIsSound` | scripts/modular_monolith_audit.py:921-938 | Sorting the records keeps them genuine and pairwise dissimilar |
| `CycleEnumeration.LedgerIsComplete` | scripts/modular_monolith_audit.py:905-938 | With all cyclic components searched, every elementary cycle has a record that is a rotation of it or of its reversal |
| `CycleEnumeration.CapOfComponents` | scripts/modular_monolith_audit.py:895-936 | The overshoot is bounded by the set of nodes mutually reachable with some node |
| `CycleEnumeration.EmptyMeansAcyclic` | scripts/modular_monolith_audit.py:884-938 | The result is empty if and only if the graph has no closed walk |
| `CycleEnumeration.ChainInsideComponent` | scripts/modular_monolith_audit.py:905-924 | All nodes of a reported chain reach each other |
| `Graphs.ClosedWalkHasCycle` | scripts/modular_monolith_audit.py:884-938 | Any closed walk contains an elementary cycle |
| `RevisionCycles.CycleDetector.Dfs` | app/db/migration_graph_guard.py:104-121 | Stack and running set are restored; a call on a running revision adds the one report of the stack and that revision, any other completes the revision and adds only reports that begin at the bottom of the stack and were made at revisions not entered before |
| `RevisionCycles.DetectCycles` | app/db/migration_graph_guard.py:99-126 | Each report is a path without repetition that closes an elementary cycle, and begins at the first key that reaches it; in order of completion an edge to an earlier revision is not reported, and any other exactly as often as it is listed; no reports if and only if there is no closed walk, and then that order is an upgrade order |
| `RevisionCycles.RestIsAcyclic` | app/db/migration_graph_guard.py:104-121 | The graph without the edges at which reports were made has no closed walk |
| `RevisionCycles.EveryCycleIsReported` | app/db/migration_graph_guard.py:104-121 | Every closed walk goes through an edge at which a report was made |
| `RevisionCycles.ReportIsCycle` | app/db/migration_graph_guard.py:105-108 | The reported path ends in an elementary cycle of down-revisions |
| `RevisionCycles.WalkDescends` | app/db/migration_graph_guard.py:104-124 | Along any walk to parents the position in an upgrade order falls |
| `RevisionCycles.UpgradeOrderIsAcyclic` | app/db/migration_graph_guard.py:99-126 | A history with an upgrade order has no closed walk |
| `MigrationGuard.ReadDirectory` | app/db/migration_graph_guard.py:182-191 | Files with and without metadata are told apart in order; file names are grouped by feature slug |
| `MigrationGuard.Deduplicate` | app/db/migration_graph_guard.py:196-204 | The first file of a revision owns it; the revisions are kept in the order of their first files; the duplicates list all files of each revision declared more than once |
| `MigrationGuard.DeduplicatedFirst` | app/db/migration_graph_guard.py:196-204 | A revision is known if and only if some file declares it, and its owner is the first such file |
| `MigrationGuard.SharingTwice` | app/db/migration_graph_guard.py:182-228 | A group has two names if and only if two files share its key |
| `MigrationGuard.MissingParents` | app/db/migration_graph_guard.py:212-217 | The list of issues goes through the revisions in ascending order and through the parents of each in the order it names them, with one issue per occurrence of an unknown parent; none if and only if all parents are known |
| `MigrationGuard.MissingExactly` | app/db/migration_graph_guard.py:212-217 | An issue occurs in that list if and only if it names a known revision, its file, and a parent that the revision names and that is not known |
| `MigrationGuard.MissingDetermined` | app/db/migration_graph_guard.py:212-217 | That leaves one list |
| `MigrationGuard.DuplicateIssues` | app/db/migration_graph_guard.py:206-210 | One issue for each revision declared more than once, in ascending order, with the distinct names of its files in ascending order; none if and only if no two files share a revision |
| `MigrationGuard.DuplicatesDetermined` | app/db/migration_graph_guard.py:206-210 | That leaves one list |
| `MigrationGuard.SlugIssues` | app/db/migration_graph_guard.py:221-228 | One issue for each feature slug several files share, in ascending order, with all their names in order; none if and only if no two files share a slug |
| `MigrationGuard.SlugsDetermined` | app/db/migration_graph_guard.py:221-228 | That leaves one list |
| `MigrationGuard.CycleIsAmongIssues` | app/db/migration_graph_guard.py:105-108 | Every cycle of down-revisions shares with some issue the edge that closes the cycle shown there |
| `MigrationEntries.ParsedExactly` | app/db/migration_graph_guard.py:182-187 | The files read are the entries with metadata, in order, each with its own name, revision and parents |
| `MigrationEntries.UnparsedExactly` | app/db/migration_graph_guard.py:182-186 | The failures are the names of the other entries, in order |
| `MigrationEntries.SharingExactly` | app/db/migration_graph_guard.py:189-204 | The names grouped under a key are those of the files that have it, in order |
| `MigrationEntries.SlugExactly` | app/db/migration_graph_guard.py:189-191 | A name has a slug if and only if it is something without an underscore, an underscore, and the slug, with or without a final `.py` |
| `MigrationEntries.MissingInOrder` | app/db/migration_graph_guard.py:212-217 | One issue for each place where a known revision names an unknown parent, by revision and then by position |
| `MigrationEntries.AcceptableExactly` | app/db/migration_graph_guard.py:149-260 | A report is valid if and only if every entry has metadata, no two declare the same revision or have the same slug, every parent named is declared, no chain of named parents returns to its start, and the heads and the database are as asked: all read off the entries |
| `MigrationEntries.SoundHistoryHasOneHead` | app/db/migration_graph_guard.py:149-260 | A valid report with both checks on means: a declared head from which named parents lead to the revision of every entry, and a database that holds just it |
| `MigrationGuard.CheckFiles` | app/db/migration_graph_guard.py:174-228 | The issues are those of the four checks, in their order, after the files without metadata; none if and only if the files are acceptable |
| `MigrationGuard.DbIssues` | app/db/migration_graph_guard.py:242-252 | Exactly the complaints that apply, in order: nothing stamped; or the unknown revisions, sorted and each once, then that the database is not at the heads |
| `MigrationGuard.DbDetermined` | app/db/migration_graph_guard.py:242-252 | That leaves one list |
| `MigrationGuard.HeadRevisions` | app/db/migration_graph_guard.py:139-146 | Exactly the revisions no known revision names as a parent, sorted, without repetition |
| `MigrationGuard.CheckDatabase` | app/db/migration_graph_guard.py:234-252 | For an acyclic history, no issue if and only if the database holds exactly the heads |
| `MigrationGuard.DbVerdict` | app/db/migration_graph_guard.py:242-252 | The test for empty heads cannot let a wrong database pass |
| `MigrationGuard.LastIsHead` | app/db/migration_graph_guard.py:139-146 | The last revision of an upgrade order is a head, so a non-empty acyclic history has one |
| `MigrationGuard.ValidateMigrationGraph` | app/db/migration_graph_guard.py:149-260 | The report is valid if and only if every file has metadata, revisions and slugs are distinct, all parents exist, there is no cycle, and the requested head and database conditions hold; its issues are those of the files, the heads and the database; a valid report comes with an upgrade order |
| `MigrationGuard.SomeHeadReaches` | app/db/migration_graph_guard.py:139-146 | Every revision is an ancestor of some head, or a head itself |
| `MigrationGuard.ValidHistory` | app/db/migration_graph_guard.py:149-260 | A valid report with both checks on means: one head, of which every revision is an ancestor; the database holds exactly that head; every file contributed its own revision |
| `AuthCache.TokenCache.Prune` | app/api/deps.py:59-68 | Exactly the unexpired entries stay, and the index stays the inverse of the cache |
| `AuthCache.TokenCache.StoreValidatedToken` | app/api/deps.py:71-88 | The new cache and, as its inverse, the new index; nothing happens without a positive time to live |
| `AuthCache.TokenCache.GetValidatedToken` | app/api/deps.py:91-102 | Answers from what was cached and unexpired before the call, and leaves the pruned cache with its inverse |
| `AuthCache.TokenCache.InvalidateTokenCache` | app/api/deps.py:105-116 | Removes the token's entry and its listing, and does nothing for an empty token |
| `AuthCache.TokenCache.InvalidateUserTokenCache` | app/api/deps.py:119-123 | Removes every entry of the user and the user's listing, and nothing else |
| `AuthCache.IndexIsInverse` | app/api/deps.py:50-123 | The index is the inverse of the cache if and only if a key is cached for a user exactly when listed for that user and no listing is empty |
| `AuthCache.OneUserPerKey` | app/api/deps.py:50-123 | No key is listed for two users |
| `AuthCache.CacheIsHistory` | app/api/deps.py:59-123 | After any sequence of operations, an entry is cached if and only if some store of its token issued it and nothing since has overwritten, outlived, or invalidated it |
| `AuthCache.HitMeansLiveStore` | app/api/deps.py:91-102 | A lookup hits with a validation if and only if a live store of the token issued it and outlasts the reader's clock |
| `AuthCache.LiveStoreIsLatest` | app/api/deps.py:71-102 | A live store is the latest store of its token |
| `AuthCache.NoHitAfterLogout` | app/api/deps.py:119-123 | After a user is invalidated, a hit for that user needs a store made since |
| `AuthCache.HitUnlessPruned` | app/api/deps.py:59-102 | A store that is neither revoked nor overwritten since and has not expired for the reader is hit if and only if no store or lookup since has read a clock at or beyond its expiry |
| `AuthCache.PrunedBeforeItsTime` | app/api/deps.py:59-102 | A run in which a lookup of another token with a later reading makes an unexpired token miss |
| `AuthCache.HitWithNoReadingAhead` | app/api/deps.py:59-123 | With no clock reading ahead of the reader's, a lookup hits if and only if some unexpired store of the token has not been revoked or overwritten |
| `AuthCallers.PendingExactly` | app/api/deps.py:353-357 | A caller holds a validation if and only if that validation is its last move |
| `AuthCallers.HitIsCarried` | app/api/deps.py:353-357 | Over any interleaving of callers, a lookup hits with a validation if and only if some caller made it, stored it as its next move, and nothing since has ended that store |
| `AuthCallers.StaleHitExactly` | app/api/deps.py:353-357 | After a logout, a validation made before it is what a lookup hits if and only if the caller that held it at the logout stored it as its next move and that store is live |
| `AuthCallers.FreshAfterLogout` | app/api/deps.py:353-357 | If no caller holds a validation of the user at the logout, every later hit for the user comes from a validation made since |
| `AuthCallers.StaleHitWitness` | app/api/deps.py:353-357 | A miss, a validation, a logout by another caller and the store: the old validation is hit |
| `SlowQueries.Monitor.BeforeCursorExecute` | app/core/database.py:1455-1457 | The start time goes on top of its own connection's stack; the invariant that ties stacks, state and log to the hook calls so far is kept |
| `SlowQueries.Monitor.AfterCursorExecute` | app/core/database.py:1459-1509 | The top start time is taken off; a slow, not ignored statement is warned about, or counted while it cools down; nothing else changes; the invariant is kept: over any run of hook calls, each connection's stack is that of its own calls and the state and the log are those of the slow completions |
| `SlowQueries.StateBounds` | app/core/database.py:1479-1488 | Over any run at most 2049 statements are remembered, and only remembered ones have a count, which is positive |
| `SlowQueries.Conservation` | app/core/database.py:1469-1509 | For each statement, slow events equal warnings plus suppressions, and suppressions equal those reported, pending and discarded by bulk clears |
| `SlowQueries.LogConserves` | app/core/database.py:1469-1509 | For each statement, log entries and the counts they carry add up to its slow events, save those still pending and those discarded by bulk clears; without a cooldown every slow event is logged |
| `SlowQueries.ClearsExactly` | app/core/database.py:1472-1486 | Both maps are cleared at an event if and only if it is not suppressed and more than 2048 statements have been warned about since the last clear |
| `SlowQueries.NothingDiscarded` | app/core/database.py:1484-1486 | Over a run with at most 2048 distinct statements no count is ever discarded |
| `SlowQueries.PendingExactly` | app/core/database.py:1479-1488 | The count kept for a statement is the number of its events since its latest warning, and none without one |
| `SlowQueries.ReportedExactly` | app/core/database.py:1487-1498 | A warning reports the number of events of its statement since the one before, and none after a clear |
| `SlowQueries.LogExactly` | app/core/database.py:1487-1498 | The log has one entry for each warning, in order, with its statement and the number it reports |
| `SlowQueries.IgnoredExactly` | app/core/database.py:1471 | A statement is ignored if and only if some pattern is a part of it |
| `SlowQueries.StartsAppend` | app/core/database.py:1455-1464 | One more call acts on the stack that the calls before it leave |
| `SlowQueries.RememberedIsLatest` | app/core/database.py:1472-1488 | The remembered time is that of the latest warning of the statement with no bulk clear since |
| `SlowQueries.SuppressedExactly` | app/core/database.py:1472-1481 | An event is suppressed if and only if that latest warning is less than the cooldown old |
| `SlowQueries.WarningsAreSpaced` | app/core/database.py:1472-1488 | With an ascending clock, two warnings of a statement with no bulk clear between them are at least the cooldown apart |
| `SlowQueries.CompletionTakesOwnStart` | app/core/database.py:1455-1464 | A completion takes its own start time if and only if the calls on its connection since then are well nested |
| `SlowQueries.NestedKeepsOwn` | app/core/database.py:1455-1464 | Calls that leave n statements open put n start times above one's own; calls that complete too much remove one's own for good |
| `Sanitizer.SanitizeForLogging` | app/core/logging.py:60-117 | Computes the sanitized tree in at most 1 + m + ... + m^(6 - depth) calls for collection limit m, also on cyclic values |
| `Sanitizer.SanitizeDict` | app/core/logging.py:82-93 | The dictionary branch, entry by entry |
| `Sanitizer.SanitizeCollection` | app/core/logging.py:95-100 | The list, tuple and set branch, in order, with the truncation notice |
| `Sanitizer.SanitizedIsBounded` | app/core/logging.py:60-117 | At most 6 - depth containers nest; each shows at most as many entries as the limit, besides one notice that counts what some oversized value leaves out; every text is a constant or comes from a text of the input, and every key from one of its keys, whole or cut at the limit and followed by the number of characters removed |
| `Sanitizer.SanitizedIsRedacted` | app/core/logging.py:82-111 | With redaction on, every sensitive key of the output, at every depth and through `model_dump` and `dict`, maps to the redaction constant |
| `SanitizerPaths.ShownAtSamePath` | app/core/logging.py:60-117 | Wherever a path of keys and positions leads in the value (the last shown item of a key, the element at a position, dumps looked through), the output shows what is there at the same path: plain values and short texts themselves, long texts shortened, dictionaries and collections with exactly the first entries and the notice, redacted and too deep ones as such |
| `SanitizerPaths.NothingElseIsShown` | app/core/logging.py:60-117 | Every path of the output is one to which the value leads, or one to a notice of what is left out |
| `Sanitizer.SensitiveExactly` | app/core/logging.py:55-57 | A key is sensitive if and only if a marker occurs in it up to letter case and hyphens for underscores |
| `Sanitizer.TruncationAndMarkers` | app/core/logging.py:47-57 | Truncating a key neither creates a marker nor hides one that lies before the cut |
| `Sanitizer.RawKeyDecides` | app/core/logging.py:87-92 | An item is redacted if and only if a marker lies in the first 128 characters of its raw key; otherwise its value is sanitized one level deeper |
| `Sanitizer.MarkerBeyondCut` | app/core/logging.py:87-92 | A key with a marker beyond its first 128 characters is not recognised as sensitive |
| `Sanitizer.LastItemWins` | app/core/logging.py:82-92 | Under a key that several items share after truncation, the last of them is kept |
| `Sanitizer.TruncatedIsShortened` | app/core/logging.py:47-52 | Truncated text is the text itself within the limit, or its part up to the limit with the number of characters removed |
| `Sanitizer.TruncationTells` | app/core/logging.py:47-52 | Two texts look the same after truncation if and only if they agree in length and up to the limit: the number in the suffix can be read back |
| `Paths.NormalIsCollapsed` | scripts/modular_monolith_audit.py:152-158 | Normalising is prefixing a slash and collapsing runs, in all three branches |
| `Paths.JoinIsCollapsed` | scripts/modular_monolith_audit.py:161-166 | Stripping the slashes at the seam makes no difference: joining is putting a slash between and collapsing |
| `Paths.NormalizeIdempotent` | scripts/modular_monolith_audit.py:152-158 | Normalising twice is normalising once |
| `Paths.CanonicalExactly` | scripts/modular_monolith_audit.py:152-158 | The results are the paths with a leading slash and no two slashes in a row, and exactly those are left alone |
| `Paths.NormalizeExactly` | scripts/modular_monolith_audit.py:152-158 | Normalising gives the one path with a leading slash and no two in a row that has the same parts between slashes and the same slash at its end |
| `Paths.JoinAssociatesExactly` | scripts/modular_monolith_audit.py:161-166 | Joins may be regrouped if and only if it is not the case that a non-empty first part without final slash is followed by two empty parts |
| `MountPrefixes.MountSearch.RecurseModule` | scripts/modular_monolith_audit.py:559-587 | Adds the triple and everything its include calls lead to, all of it reached by chains, and records the mounts of exactly the triples in the guard; ends whenever the include calls do not leave some finite set of triples |
| `MountPrefixes.BuildMountPrefixes` | scripts/modular_monolith_audit.py:557-618 | A file has a prefix if and only if include calls lead from some call in `app/main.py` to a module with routes in that file and the prefix is that of the call and those along the way, written with slashes between them and runs of slashes made one; prefixes are sorted, without repetition; it ends whenever no reached router lies on a cycle of include calls that adds to the prefix |
| `MountPrefixes.GuardIsClosure` | scripts/modular_monolith_audit.py:557-563 | The guard ends as exactly the triples some chain reaches |
| `IncludeTermination.BoundedExactly` | scripts/modular_monolith_audit.py:557-587 | From given roots the recursion stays in a finite set of triples if and only if no target reached lies on a cycle of include calls with a prefix that is more than slashes |
| `IncludeTermination.EndedMeansNoGrowth` | scripts/modular_monolith_audit.py:557-587 | A recursion that has ended has visited such a set, so the condition under which the prefixes are computed is also necessary |
| `IncludeTermination.GrowthIsUnbounded` | scripts/modular_monolith_audit.py:559-587 | A reached cycle with such a prefix leaves every finite set of triples: each lap makes the joined prefix heavier |
| `IncludeTermination.NoGrowthIsBounded` | scripts/modular_monolith_audit.py:559-587 | Without one, a finite set of triples contains the roots and all that include calls lead to |
| `IncludeTermination.GrowingEdgesDiffer` | scripts/modular_monolith_audit.py:559-587 | ... because no chain then takes the same include call with such a prefix twice |
| `IncludeTermination.MergeWeight` | scripts/modular_monolith_audit.py:584-587 | Merging a prefix adds its characters other than slashes to those already there, and no others |
| `IncludeTermination.NamedPrefix` | scripts/modular_monolith_audit.py:503-514 | Among the prefixes the parser delivers, none or a normalised one, only the missing one and `/` add nothing |
| `IncludeTermination.SelfIncludeNeverEnds` | scripts/modular_monolith_audit.py:559-587 | If a reached router includes itself, at any place in its file, under any prefix that is more than slashes, no finite set of triples holds all that is reached |
| `IncludeTermination.SelfIncludeWitness` | scripts/modular_monolith_audit.py:559-587 | A mounted router that includes itself is bounded if and only if the prefix is only slashes: not with `/a`, but with `/` or none |
| `IncludeTermination.AcyclicIncludesAreBounded` | scripts/modular_monolith_audit.py:559-587 | Without circular includes the recursion stays in a finite set of triples, whatever the roots |
| `IncludeChains.AlongIsSlashed` | scripts/modular_monolith_audit.py:584-616 | Normalising at the root and merging step by step is writing all prefixes with slashes between them and normalising once |
| `IncludeChains.PrefixesRegroup` | scripts/modular_monolith_audit.py:585-587 | Joining a chain's prefixes step by step equals joining them from the far end |
| `IncludeChains.PrefixesAreCanonical` | scripts/modular_monolith_audit.py:584-587 | Every prefix along a chain from a normalised root is normalised already |
| `DomainMap.RenderDomainsYaml` | scripts/modular_monolith_audit.py:1182-1200 | Writes the header and, per partition and kind, the list or the empty-list line |
| `DomainMap.RenderPartition` | scripts/modular_monolith_audit.py:1189-1198 | The block of one partition |
| `DomainMap.LoadDomainsMap` | scripts/modular_monolith_audit.py:1535-1559 | Reads the lines in order and never appends to a list that is not there |
| `DomainMap.SplitUndoesJoin` | scripts/modular_monolith_audit.py:1199-1200 | Splitting the joined text gives back the lines, when none contains a line break |
| `DomainMap.NameIsRead` | scripts/modular_monolith_audit.py:1545-1549 | The line written for a good name opens that partition with empty lists |
| `DomainMap.DescriptionIsSkipped` | scripts/modular_monolith_audit.py:1545-1558 | No description line, whatever its text, is taken for a name, a kind or an item |
| `DomainMap.KindIsRead` | scripts/modular_monolith_audit.py:1550-1553 | The line written for a kind selects that kind |
| `DomainMap.ItemIsRead` | scripts/modular_monolith_audit.py:1554-1558 | The line written for a good entry appends that entry |
| `DomainMap.ReadKeepsGood` | scripts/modular_monolith_audit.py:1543-1558 | Whatever the line, the reader only ever produces good names and good entries |
| `DomainMap.RoundTripExactly` | scripts/modular_monolith_audit.py:1535-1559 | What is read back from the written text is what was written, if and only if every name is made of lower-case letters and underscores without a keyword in front and every entry is trimmed, on one line and not `[]` |
| `DomainDescriptions.DescriptionsAreRead` | scripts/modular_monolith_audit.py:1182-1190 | In the written text each partition's heading is followed by its own description, in the order of the partitions, and nothing else reads as a description; the second line has the time stamp |
| `DomainDescriptions.OrderOfKinds` | scripts/modular_monolith_audit.py:1191-1198 | The blocks of a partition are those of models, services, repositories, schemas and routers, in this order |
| `DomainDescriptions.SmallestMap` | scripts/modular_monolith_audit.py:1189-1198 | The block of one partition with one service, line by line |
| `DomainMap.OwnPartitionsAreGood` | scripts/modular_monolith_audit.py:46-57 | The repository's own partition names satisfy the condition |

## Left out

- Parsing of Python sources, file walking, JSON output and route extraction in the audit script: the model starts from parsed graphs, include calls and groupings.
- The recursion limit of the interpreter: `RecursionDepth` bounds the depth of `visit`; the other recursions are only shown to end, and where `recurse_module` does not, the interpreter stops it with an error.
- `generate_route_diff`, `assign_partition` and the reports built from the results: set differences and tables.
- `_normalize_down_revisions` and `_parse_revision_file`: revision records are inputs; an empty revision name, which the parser lets through, is kept in the model.
- The wording of migration issues: issues are structured values.
- Validation of tokens, user lookup and the repair of the active role in `get_user_from_token`: foreign calls and a single assignment. A validation is an act with any outcome; that a caller validates only after a miss is not asked, so the results hold of more runs than occur.
- SHA-256: an injective function from tokens to keys.
- Compacting and lower-casing of SQL text and the no-op mutation warnings: the compacted, lower-cased text is an input.
- Lower-casing of letters outside ASCII in sanitizer keys.
- The order of the entries of a sanitized dictionary, and exceptions raised while keys are turned into text: entries are a map, and every value has its text.
- `Decimal`, `Enum`, dates and other leaves the sanitizer passes on: opaque, and not bounded in length, as in the code.
- The stamp and the descriptions of the domain map: any text on one line.
- Line endings other than a line feed in files as the platform writes them.
