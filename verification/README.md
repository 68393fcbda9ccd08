# Verification of the OSV proxy's cache, store, policy and version orders

The proxy serves registry metadata after removing the versions that its policy
refuses. Responses are kept in a bounded in-process cache; the policy consults a
local OSV store that a background sync keeps rewriting. This project models those
parts and proves what they promise, each on its own and all together.

`dafny verify dfyconfig.toml` checks the project.

## How the model is built

* **Cache.** `LruSequence` is the cache as a plain sequence. `CacheState` is the
  slab with its intrusive links, free list, key index and running weight, as a
  class that updates them in place and is proved to act like the sequence.
  `CacheSteps` gives the critical sections under the mutex as functions;
  `MetadataCache` is the object whose locked methods are proved equal to them.
* **Protocol.** `SingleFlight` is a state machine over any number of requests.
  Every critical section, every statement on the store and every reading of the
  clock is an action of its own, so an interleaving is a list of actions. Commits of
  the store and the passing of time are actions too; cancelling is possible wherever
  the source awaits. `CacheLifetimes` says which responses are kept and how long they
  are served, `SharedFills` what the other requests of a key get from a fill.
* **Store and sync.** `OsvStore` has generations, one sync row per ecosystem, and
  the transactions as steps that commit or change nothing. `SyncProtocol` puts an
  upstream beside it that may publish between any two reads of a sync, serve an
  older archive than its listing, and fail or vanish at any point.
  `BootstrapExactness` says when a bootstrap can lose an update, and `SyncProgress`
  that a sync can bring any reachable state up to date.
* **Queries.** `StoreQueries` is the check of one artifact by what its statements
  see, `BatchCheck` the grouped, chunked batch, `Findings` the consolidation and
  `RangeEvents` the range loop. There is no transaction around a check, so nothing
  here assumes that two statements see the same rows. `StoreContents`, `CheckContents`
  and `VersionQueries` say what a check finds in terms of documents, rows and versions;
  `UpstreamRecords` carries that from what upstream publishes to the decision.
  `OsvSchema` is the evaluation that the OSV Schema prescribes, compared with the loop
  on any list; `OsvLimits` compares them on ordered lists with limits.
* **Policy.** `Policy` decides one artifact and records how long the decision
  holds; `BatchFilter` is the batched filtering of a package's metadata, and
  `NpmTarballs` says where kept versions are fetched from.
* **Version orders.** `RubyGemsVersion`, `MavenVersion` and `NugetVersion`, on top of
  `Text`, `TextParts` and `Digits`. `RubyGemsGrammar` and `NugetGrammar` say which texts
  are versions; `RubyGemsOrder`, `MavenQualifiers`, `MavenNumbers`, `MavenTransitivity`
  and `NugetSemver` what the orders mean. `VersionRanges` puts the RubyGems and NuGet
  orders under the range loop.
* **Loops.** `BackgroundSync` is the retry cycle, `PageHydration` the concurrent
  fetch of registration pages.
* **Together.** A fill runs statements one after the other; each remembers the
  revision, the health and the rows it saw. Every artifact evaluated is recorded with
  the outcome of its check and the revisions of its health, exact and range
  statements; the instant and the cacheability of the response are computed from
  these. `ReadBounds` follows them through cache and flights. `JointRuns` interleaves
  requests, their statements, syncs and upstream edits in one run and places every
  statement at an instant of it, `KeyReads` the readings of revisions; `EndToEnd` joins
  the theorems of the parts;
  `StraddlingChecks` is a run in which a commit falls between two statements of one
  check.

A function that computes something is stated a second time without the function:
texts by what spells them, orders by their first difference, decisions by the fields of
the findings, rows by the documents they are of. The invariants named `Inv`, in
`SingleFlight` and in `SyncProtocol`, hold in every reachable state (`RunKeepsInvariant`
of the same module).

The main results are `SingleFlight.SingleFlightTheorem`,
`SingleFlight.NoRequestIsStranded`, `SingleFlight.FreshnessTheorem`,
`CacheLifetimes.KeptIsServed`, `SharedFills.FillAnswersWaiters`,
`SyncProtocol.NoLostUpdates`, `SyncProtocol.RevisionIsSound`,
`SyncProgress.CanCatchUp`, `BatchCheck.CheckMany`, `CheckContents.FoundExactly`,
`UpstreamRecords.PublishedMalwareIsRefused`, `OsvSchema.MatchesSchemaExactly`,
`OsvLimits.SortedListsMatchSchema`, `Policy.AllowedExactly`,
`Policy.StableExactlyUntilCaptured`, `JointRuns.EvaluationsAreGenuine`,
`EndToEnd.ServedDecisionsAreCurrent`, `EndToEnd.HitDecisionsAreCurrent`, the order
theorems of the version modules and the contracts of the cache, loop and hydration
methods.

## Where a property needs a condition

* **Bootstrap and equal timestamps.** A bootstrap takes its archive first and the
  listing second, and fetches only what the listing stamps later. A document edited
  in between under an unchanged timestamp is stored in its old text although the
  watermark is past it. `BootstrapExactness.EqualStampEditCanBeLost` is such a run.
  The model keeps, per ecosystem, the set of stale identifiers: those whose archive
  entry had changed under its own timestamp when a committed bootstrap read the
  listing, and that have not been published or fetched anew. Over every run,
  `SyncProtocol.NoLostUpdates` shows that a document older than the watermark is
  stored as upstream has it if and only if it is not stale, and
  `SyncProtocol.QuietSyncCatchesUp` that a sync against a quiet upstream makes the
  two equal if and only if none is. `BootstrapExactness.OnlyBootstrapsMakeStale`
  and `BootstrapExactness.StrictRunsNeverGoStale` say what makes none stale.
* **Order of range events.** The "Evaluation" section of the OSV Schema sorts a
  range's events; the loop takes them as they are listed.
  `OsvSchema.MatchesSchemaExactly` says for any list and version when the two agree,
  and `OsvSchema.AnyOrderMatchesSchema` for which lists, of all kinds of events, they
  agree on every version: those in which, at every place that the list's boundaries
  make, the last listed event is an introduction exactly when the highest is and a
  limit is still ahead. The condition is sufficient for every list. It is necessary
  where some version lies between each last affected version and the next boundary:
  without one, no version is there to tell the two apart.
  `OsvSchema.UnsortedListsDiffer` is a list on which they differ.
* **Limit events.** The loop treats `limit` like `fixed`; the schema lets a version
  count when it is before any limit. On an ordered list the two agree on every
  version if and only if no interval is open at a limit that has a higher one and
  none starts behind all limits (`OsvLimits.SortedListsMatchSchema`).
  `OsvLimits.TwoLimitsDiffer` gives an input on which they differ.
* **Maven.** Comparison is not transitive: `MavenNumbers.ComparisonHasACycle`. It is
  unless two tokens clash at a position that the third version lacks
  (`MavenTransitivity.TransitiveUnlessPaddingClashes`), any two tokens that clash
  make a cycle (`MavenTransitivity.ClashesMakeCycles`), and on dotted numbers it is
  the order of the numbers (`MavenNumbers.NumbersCompareAsNumbers`).
* **Checks across commits.** A check's statements may see different commits, so its
  outcome need not be that of any state of the store:
  `StraddlingChecks.StraddlingCheckFindsNothing` is a run in which a check finds
  nothing although at every instant of the run it would have found a malicious
  advisory or failed. A check whose first and last statements saw one revision is the
  check of one instant (`JointRuns.UnmovedCheckIsOfOneInstant`). What is served while
  the store is at the key's revision rests only on such checks or failed ones, since
  no statement saw less than the key's revision and none saw more than the store's.
* **Served decisions and the store's health.** A fresh check fails once the last
  success is too old, so what is served is compared with a fresh evaluation at an
  instant at which the store is healthy; `JointRuns.UnhealthyStoreRefuses` says what
  a fresh evaluation gives otherwise. A hit reads the clock before it locks the
  cache, and the fill it then finds may have read it later: the comparison is made
  at the later of the two readings.
* **NuGet prereleases.** Identifiers of digits beyond 64 bits are compared as text.
  `NugetSemver.BeyondU64` says which pairs of identifiers then compare as Semantic
  Versioning 2.0.0 says, `NugetSemver.PrereleaseFollowsSemver` which pairs of
  prereleases, and `NugetSemver.ComparatorFollowsSemver` carries this to accepted
  versions. `NugetSemver.OversizedNumbersDisagree` gives, for every number beyond 64
  bits, accepted versions on which comparator and standard differ.
* **Eviction.** The eviction test adds with saturation, which is exact for every
  total and weight exactly when the capacity is below the largest machine word
  (`CacheState.EvictionTestExactBelowMax`); the configured maximum is far below it.

## Assumptions

* One transaction is atomic, one statement sees one committed state, and at most one
  sync runs per store.
* The store's health is judged by the clock at its statement; a check may also fail
  for reasons of its own.
* Equal fingerprints mean equal advisory content.
* Upstream never stamps a document earlier than anything it has published, never
  removes a document (it withdraws it), and its listing names every advisory with its
  timestamp.
* Rows that a query's `ORDER BY` leaves tied come in one fixed order.
* Events of a range with equal boundaries are sorted in the order they are listed; the
  OSV Schema does not say how it sorts them.
* The monotonic clock and the wall clock advance together.

## Model

| member | source | states |
|---|---|---|
| LruSequence.MakeRoomDropsShortestPrefix | src/metadata_cache.rs:331-336 | eviction drops a prefix of the least recently used entries, it makes room, and no shorter prefix would |
| LruSequence.InsertFits | src/metadata_cache.rs:322-362 | after an insertion keys are distinct, weights fit the capacity, and nothing is held but the new entry and earlier entries of other keys |
| LruSequence.TouchKeepsEntries | src/metadata_cache.rs:389-418 | a hit only reorders: same entries, same total weight |
| LruSequence.RemoveKeyForgets | src/metadata_cache.rs:364-368 | removal forgets exactly the one key |
| CacheState.EvictionTestExactBelowMax | src/metadata_cache.rs:331-331 | the saturating eviction test decides like the exact sum if and only if the capacity is below the largest machine word |
| CacheState.LinksSpellOneSequence | src/metadata_cache.rs:59-77 | forward links from the head and backward links from the tail spell the same sequence |
| CacheState.SlabPartition | src/metadata_cache.rs:59-68 | every slot is live or free and never both, so the slab's length is the sum of the two |
| CacheState.UnlinkKeepsConsistent | src/metadata_cache.rs:370-387 | joining the neighbours keeps list, free list and index consistent, with one entry less |
| CacheState.AppendKeepsConsistent | src/metadata_cache.rs:345-361 | linking behind the tail keeps list, free list and index consistent, with one entry more |
| CacheState.TouchStep | src/metadata_cache.rs:389-418 | the pointer updates of a hit leave a consistent slab whose sequence has the entry last |
| CacheState.InsertStep | src/metadata_cache.rs:338-361 | taking a free slot, or growing when there is none, and linking it keeps the slab consistent |
| CacheState.RemoveStep | src/metadata_cache.rs:370-387 | taking a node out leaves a consistent slab without that entry and subtracts without saturating |
| CacheState.EntryInIndex | src/metadata_cache.rs:60-68 | the key index finds exactly the entries of the sequence, at their slots |
| CacheState.Inflight.Finish | src/metadata_cache.rs:110-112 | a flight is finished with the response and keeps its identity |
| CacheState.CacheState.constructor | src/metadata_cache.rs:59-68 | an empty cache is valid |
| CacheState.CacheState.Detach | src/metadata_cache.rs:370-387 | the exact new links, index, free list and weight of a removal |
| CacheState.CacheState.RemoveIndex | src/metadata_cache.rs:370-387 | a live slot's entry leaves the sequence, a dead slot changes nothing, the weight does not grow |
| CacheState.CacheState.MoveToTail | src/metadata_cache.rs:393-417 | the exact new links of a move to the tail |
| CacheState.CacheState.Touch | src/metadata_cache.rs:389-418 | the entry becomes the last of the sequence, with weight and slab length unchanged |
| CacheState.CacheState.Remove | src/metadata_cache.rs:364-368 | the key's entry and nothing else leaves the sequence |
| CacheState.CacheState.Evict | src/metadata_cache.rs:331-336 | the sequence loses exactly the shortest prefix that makes room |
| CacheState.CacheState.Attach | src/metadata_cache.rs:338-361 | the exact new links, index, free list and weight of an insertion |
| CacheState.CacheState.Insert | src/metadata_cache.rs:322-362 | the sequence becomes the plain insertion's, weight stays within capacity, and the peak, which is always the slab's length, becomes the greatest number of entries ever held |
| CacheSteps.Expiration | src/metadata_cache.rs:257-271 | an expiry exists exactly unless the policy's instant has come, and a reading comes before it if and only if less than the TTL and less than what was left of the policy's term have passed since the fill finished |
| MetadataCache.MetadataCache.constructor | src/metadata_cache.rs:169-178 | a new cache holds nothing and has nothing in flight |
| MetadataCache.MetadataCache.ServeOrExpire | src/metadata_cache.rs:240-248 | a live entry is served and touched, an expired one is removed, a missing one changes nothing |
| MetadataCache.MetadataCache.JoinOrLead | src/metadata_cache.rs:249-254 | a pending flight is joined, otherwise exactly one new flight is mapped |
| MetadataCache.MetadataCache.Lookup | src/metadata_cache.rs:237-255 | the locked lookup is the protocol's lookup step, in state and in outcome |
| MetadataCache.MetadataCache.Complete | src/metadata_cache.rs:273-301 | the locked completion is the protocol's completion step |
| MetadataCache.MetadataCache.Wake | src/metadata_cache.rs:281-281 | only this flight is settled |
| MetadataCache.MetadataCache.Keep | src/metadata_cache.rs:282-293 | a response is kept only with an expiry and only if key and response fit the capacity |
| MetadataCache.MetadataCache.Release | src/metadata_cache.rs:294-300 | the key leaves the in-flight map only if it still names this flight |
| MetadataCache.MetadataCache.Abandon | src/metadata_cache.rs:303-313 | the locked abandonment is the protocol's abandonment step |
| SingleFlight.StepKeepsInvariant | src/metadata_cache.rs:184-313 | every action of any request, of the store and of the clock keeps the protocol's invariant |
| SingleFlight.RunKeepsInvariant | src/metadata_cache.rs:184-313 | the invariant holds after every run |
| SingleFlight.SingleFlightTheorem | src/metadata_cache.rs:184-313 | in every reachable state one leader per key, mapped flights pending and led, no key both kept and in flight, waiters' flights finished or led, one fill per request, fills within permits, weight within capacity |
| SingleFlight.ResponsesAreCaptured | src/server.rs:373-394 | in every reachable state a response, kept, shared or answered, holds exactly until the instant its decisions recorded, and a kept one is a plain success of permitted length, weighed with all it holds, for which every needed check succeeded |
| SingleFlight.NoRequestIsStranded | src/metadata_cache.rs:433-463 | an unfinished request can move, or waits on a live leader that can, or that queues behind a permit holder that can, also after cancellations |
| SingleFlight.RunStaysAboveFloor | src/server.rs:463-492 | revisions do not drop along a run, and a key read after an instant names at least that instant's revision |
| SingleFlight.FreshnessTheorem | src/server.rs:365-394 | a request that reads its revision after an instant is never answered from OSV checks of which any statement saw less than that instant's revision, never from a kept entry when the store was unhealthy, and from a kept entry only if its checks succeeded and before TTL and policy expiry |
| CacheLifetimes.KeptExactly | src/metadata_cache.rs:215-227 | a completed fill is in the cache exactly when it is a buffered success that is not overloaded and not too long, under a known revision, with every needed check successful, a lifetime left, and room for all its bytes; and it then expires with TTL or policy term |
| CacheLifetimes.KeptIsServed | src/metadata_cache.rs:237-271 | in every reachable state, while a kept fill's entry is there, every lookup of its key is a hit with this response if and only if neither TTL nor policy term is over, and otherwise waits or fills anew |
| CacheLifetimes.NextRequestIsServed | src/metadata_cache.rs:180-235 | the next request for the same key, whenever it comes to its lookup, is served what was kept exactly that long |
| CacheLifetimes.EntriesStay | src/metadata_cache.rs:237-301 | an entry leaves the cache only when a request finds it expired or to make room for one that does not fit beside all that is there |
| SharedFills.FillAnswersLeader | src/metadata_cache.rs:203-230 | a leader's completion settles its flight for good, and its own answer is the fill's response |
| SharedFills.FillAnswersWaiters | src/metadata_cache.rs:195-203 | whoever waits on a flight gets the leader's very response when woken, however much later, and looks again only if it could not be buffered |
| SharedFills.AbandonedFillWakesWaiters | src/metadata_cache.rs:303-313 | a cancelled leader leaves nothing in flight, and its waiters look again |
| SharedFills.OwnFillAnswers | src/metadata_cache.rs:203-230 | a leader that gets a permit fills and has its permit back; its answer is what its fill reported, decided and finished by the clock as it was |
| SharedFills.CancelGivesUp | src/metadata_cache.rs:433-463 | a cancelled request is gone at once, or, if it leads, gives its permit back at once and its flight on unwinding |
| SharedFills.AnswersAreTimely | src/metadata_cache.rs:237-271 | a request is decided by a clock reading made after it came, or gets what was finished less than a TTL before its own reading, or waits for a fill |
| OsvStore.ImportKeepsLastMention | src/malicious.rs:1239-1260 | after an import every identifier has its last mentioned document, and unchanged content means unchanged documents |
| OsvStore.ChangedExactly | src/malicious.rs:1239-1274 | an import changes content exactly when it brings a document that is not stored as it is |
| OsvStore.ImportableExactly | src/malicious.rs:1404-1413 | a document can be read exactly when it is withdrawn or every event of the ecosystem's own entries has one key |
| OsvStore.ImportFailsExactly | src/malicious.rs:1239-1260 | an import fails exactly when it comes to a document that is not stored as it is and cannot be read |
| OsvStore.ImportCounts | src/malicious.rs:1246-1260 | the statistics count what is new, withdrawn documents apart |
| OsvStore.ImportInTwo | src/malicious.rs:865-893 | importing archive and catch-up in turn is importing their concatenation, statistics included |
| OsvStore.BootstrapKeepsStore | src/malicious.rs:834-918 | a bootstrap leaves one active generation named by the pointer, no staging one, other ecosystems untouched, the next revision, and its own instant as the last success |
| OsvStore.IncrementalKeepsStore | src/malicious.rs:1157-1228 | an incremental import keeps the generations well-formed, notes its instant as the last success, and raises the revision by one exactly when it brings a document that is not stored as it is |
| OsvStore.FailureKeepsStore | src/malicious.rs:1490-1533 | a failed sync leaves documents, revision, watermark and last success of every ecosystem as they were |
| OsvStore.HealthyExactly | src/malicious.rs:1863-1921 | in every committed state an ecosystem is healthy exactly from its last success until the permitted staleness is over, or for ever where stale data does not block, whatever failed since; and exactly then, staleness apart, its next sync may be incremental |
| OsvStore.ActiveDocsAreOk | src/malicious.rs:1280-1402 | in every committed state what a query reads stands under its own identifier and can be read |
| OsvStore.Store.constructor | src/malicious.rs:1561-1700 | an empty store is well-formed |
| OsvStore.Store.ImportAdvisories | src/malicious.rs:1239-1278 | the loop computes the import: unchanged documents skipped, the first malformed one fails it |
| OsvStore.Store.ImportBootstrap | src/malicious.rs:834-918 | the transaction commits exactly the bootstrap step, or leaves the store as it was |
| OsvStore.Store.ImportIncremental | src/malicious.rs:1157-1228 | the transaction commits exactly the incremental step, or leaves the store as it was |
| OsvStore.Store.RewriteGeneration | src/malicious.rs:1209-1226 | the closing statements write documents, watermark and sync row and nothing else |
| OsvStore.Store.RecordSyncFailure | src/malicious.rs:1490-1533 | the failure row is written exactly as the failure step says |
| SyncProtocol.CommittedDocs | src/malicious.rs:757-800 | what a committed sync leaves for every identifier: the last fetched text, else what was there |
| SyncProtocol.StepKeepsInvariant | src/malicious.rs:717-755 | upstream edits, every step of a sync, failures and crashes keep the invariant |
| SyncProtocol.RunKeepsInvariant | src/malicious.rs:717-755 | the invariant holds after every run |
| SyncProtocol.NoLostUpdates | src/malicious.rs:960-999 | after any racing run an advisory older than the watermark is stored as upstream has it now if and only if it is not stale, a stale one never is, and nothing is stored that upstream never had |
| SyncProtocol.QuietSyncCatchesUp | src/malicious.rs:757-800 | a successful sync against a quiet upstream leaves exactly the stale documents at another text, so store and upstream are equal if and only if none is stale |
| SyncProtocol.RevisionIsSound | src/malicious.rs:1446-1488 | along any run revisions do not drop and equal revisions mean equal documents |
| SyncProgress.CanCatchUp | src/malicious.rs:717-800 | from every reachable state a run goes on in which upstream rests and one sync makes the store what upstream holds, but for what was stale before, up to its newest stamp; after a first bootstrap nothing is stale |
| BootstrapExactness.StrictRunsNeverGoStale | src/malicious.rs:769-779 | with an upstream that raises a timestamp on every edit no document ever goes stale |
| BootstrapExactness.OnlyBootstrapsMakeStale | src/malicious.rs:757-800 | only a committed bootstrap of its own ecosystem makes a document stale |
| BootstrapExactness.QuietBootstrapIsExact | src/malicious.rs:769-779 | an undisturbed bootstrap stores a document as upstream has it if and only if its archive entry has not changed under its own timestamp |
| BootstrapExactness.StaleEntryIsKept | src/malicious.rs:769-779 | an archive entry that differs under its present timestamp stays in the store |
| BootstrapExactness.EqualStampEditCanBeLost | src/malicious.rs:757-800 | a run in which an edit under an unchanged timestamp is lost |
| RangeEvents.EvaluateRangeEvents | src/malicious.rs:2325-2360 | the loop with its flag computes the evaluation, errors included |
| RangeEvents.EvaluationDecides | src/malicious.rs:2325-2360 | affected exactly when some introduced boundary at or below the version is followed by nothing that clears it; fails exactly when an event it must look at cannot be compared or is unknown |
| RangeEvents.PassUnder | src/malicious.rs:2325-2360 | under a comparator that follows an order the loop never fails and decides by that order; an introduction at 0 need not compare |
| RangeEvents.IntervalsAreUnions | src/malicious.rs:2325-2360 | under any such comparator an ascending alternating list is the union of its half-open intervals |
| OsvSchema.SortIsOrdered | src/malicious.rs:2335-2335 | the schema's sorting puts the same events in order, where the loop keeps the list's |
| OsvSchema.PassIsLastWord | src/malicious.rs:2325-2360 | the loop answers by the last listed event that opens, shuts or limits |
| OsvSchema.SortHighest | src/malicious.rs:2335-2335 | sorting leaves the highest event that opens or shuts the same, the last listed of several |
| OsvSchema.MatchesSchemaExactly | src/malicious.rs:2325-2360 | on any list the loop gives the OSV Schema's answer if and only if its last word is an introduction exactly when the highest word of a version before some limit is |
| OsvSchema.AnyOrderMatchesSchema | src/malicious.rs:2325-2360 | a list of any events in any order gets the schema's answer for every version if, at every place that its boundaries make, the last listed event is an introduction exactly when the highest is and some limit, if there are any, is above; and only if, where there is room for a version past each last affected one |
| OsvSchema.FixListedFirst | src/malicious.rs:2335-2345 | a reached fix listed before the introduction below it: affected by the loop, not by the schema |
| OsvSchema.UnsortedListsDiffer | src/malicious.rs:2335-2345 | such a list with concrete boundaries |
| OsvLimits.SortedListsMatchSchema | src/malicious.rs:2341-2345 | an ordered list gets the schema's answer for every version if and only if no interval is open at a limit that has a higher one and none starts behind all limits |
| OsvLimits.MisfitDiffers | src/malicious.rs:2341-2345 | otherwise the two differ at one of the list's own boundaries |
| OsvLimits.WithoutLimitsTheyFit | src/malicious.rs:2341-2345 | a list without limits meets that condition |
| OsvLimits.PassIsFlagAfterLimits | src/malicious.rs:2325-2360 | in list order the loop is the schema's flag, except that a reached limit clears it until a later boundary introduces the version again |
| OsvLimits.MatchesSchemaBelowLimits | src/malicious.rs:2341-2345 | on an ordered list loop and schema agree on every version below all limits |
| OsvLimits.BetweenLimits | src/malicious.rs:2341-2345 | a version between two limits of an open interval: affected by the schema, not by the loop |
| OsvLimits.TwoLimitsDiffer | src/malicious.rs:2341-2345 | such a list with concrete boundaries |
| VersionRanges.RubyGemsRanges | src/malicious.rs:2242-2245 | with the RubyGems comparator a version is affected exactly when some interval of an ascending list holds it |
| VersionRanges.NugetRanges | src/malicious.rs:2239-2241 | with the NuGet comparator a version is affected exactly when some interval of an ascending list holds it |
| VersionRanges.RubyGemsMatchesSchema | src/malicious.rs:2242-2245 | with the RubyGems comparator an ordered list gets the OSV Schema's answer for every version exactly when its limits fit |
| VersionRanges.NugetMatchesSchema | src/malicious.rs:2239-2241 | with the NuGet comparator an ordered list gets the OSV Schema's answer for every version exactly when its limits fit |
| Findings.BetterOrders | src/malicious.rs:2102-2105 | preferring a severity is a strict total order |
| Findings.BestIsAssociative | src/malicious.rs:2097-2110 | the best severity does not depend on grouping |
| Findings.ConsolidateLocalFindings | src/malicious.rs:2088-2113 | the loop computes the consolidation |
| Findings.MergedExactly | src/malicious.rs:2088-2113 | an advisory's merge has the highest score of its findings, at equal scores the textually smallest type and vector, the first error among them, and otherwise the first one's texts |
| Findings.ConsolidateMerges | src/malicious.rs:2088-2113 | each advisory appears once, in strictly ascending order, as the merge of its findings |
| Findings.ConsolidateParts | src/malicious.rs:2088-2113 | consolidating parts first changes nothing |
| StoreContents.RowOfSays | src/malicious.rs:1313-1400 | a row has its document's identifier, texts, versions and ranges event by event, and the highest readable score of the package's severities or else the document's, or the first vector that cannot be read; a malicious record has none |
| StoreContents.TableExactly | src/malicious.rs:1313-1400 | the rows that statements read are exactly those of the ecosystem's affected packages in documents that have not been withdrawn |
| VersionQueries.GoVersionExactly | src/go.rs:226-247 | a Go version is asked for without its v and without its compatibility mark, and is one exactly when it starts with a v and holds no slash, exclamation mark or double dot |
| VersionQueries.QueryVersionExactly | src/malicious.rs:2313-2323 | only Go versions are asked for in another spelling |
| VersionQueries.SupportedExactly | src/malicious.rs:2196-2258 | the nine pairs of ecosystem and range type that are evaluated |
| VersionQueries.RangeMatchesExactly | src/malicious.rs:2196-2258 | a range holds a version exactly when the version can be put to it, no event stops the evaluation, and some introduction reached is followed by nothing that clears it; it fails exactly when one of the first two does not hold |
| CheckContents.CheckFailsExactly | src/malicious.rs:286-296 | a check fails exactly when the store is unhealthy, a row cannot be read or a range of the package cannot be evaluated |
| CheckContents.FoundExactly | src/malicious.rs:286-296 | a check has one finding, in identifier order, for exactly the advisories with a row that lists the version or has a range that holds it, with their highest score, and in error exactly if one of them is |
| BatchCheck.SelectInGroups | src/malicious.rs:1977-1990 | a statement over distinct versions gives each version its own rows |
| BatchCheck.SelectChunk | src/malicious.rs:1972-2010 | one chunk files every version's rows, and fails only if one of its rows does |
| BatchCheck.SelectAll | src/malicious.rs:1969-2011 | chunk boundaries do not matter |
| BatchCheck.GroupByQuery | src/malicious.rs:1961-1967 | every input version is filed behind its query version, and only there |
| BatchCheck.Spread | src/malicious.rs:2013-2024 | versions that query alike get the same consolidated hits |
| BatchCheck.ExactHitsForVersions | src/malicious.rs:1956-2025 | the batched lookup gives each version the hits of its own lookup |
| BatchCheck.CheckVersion | src/malicious.rs:346-354 | one consolidation of exact and range hits equals consolidating them separately |
| BatchCheck.GroupArtifacts | src/malicious.rs:320-331 | every position is filed under its package and version, and only there |
| BatchCheck.Assign | src/malicious.rs:355-357 | every position of a version gets its findings, the others keep theirs |
| BatchCheck.CheckPackage | src/malicious.rs:334-358 | one package's positions agree with single checks, earlier ones stay |
| BatchCheck.CheckPackages | src/malicious.rs:334-359 | ranges are loaded once per package and all positions agree |
| BatchCheck.CheckMany | src/malicious.rs:306-361 | whatever each statement of the batch sees, the batch succeeds exactly when every single check on what its statements see does, and then result i is the check of artifact i, for any duplicates, packages and versions |
| Policy.CacheMetadata.constructor | src/policy.rs:20-27 | nothing recorded and cacheable |
| Policy.CacheMetadata.RecordCacheValidUntil | src/policy.rs:42-52 | the earliest instant is kept |
| Policy.CacheMetadata.MarkUncacheable | src/policy.rs:54-56 | the response may no longer be kept |
| Policy.PickIsLeast | src/policy.rs:317-354 | the chosen hit qualifies and no qualifying hit comes before it |
| Policy.OsvBlocksExactly | src/policy.rs:132-227 | an OSV result refuses exactly on a record with a MAL- identifier while malware is blocked, on another one that could be evaluated and scores at least the threshold, or any if that is zero, while vulnerabilities are blocked, or on an error while errors block |
| Policy.VerdictNamesExactly | src/policy.rs:137-200 | a refusal names the smallest malicious identifier, else the vulnerability with the highest score and then the smallest identifier, else the smallest in error |
| Policy.FindAllowExactly | src/policy.rs:294-300 | the allowlist entry is the first for exactly this ecosystem, name and version |
| Policy.ShouldCheckExactly | src/policy.rs:117-122 | OSV is asked exactly when malware or vulnerabilities are blocked and that entry does not bypass it |
| Policy.AllowedExactly | src/policy.rs:124-292 | allowed exactly when OSV does not refuse it, which takes that something is to be blocked and the first allowlist entry for exactly this version does not bypass OSV, no blocklist entry names it, and it bypasses the age gate or passes it; only refusals for youth name an eligible time, which is still to come |
| Policy.ReasonExactly | src/policy.rs:124-292 | which reason, rule and eligible time a decision gives in each case |
| Policy.EvaluateWithMaliciousResult | src/policy.rs:124-292 | the decision, the instant recorded and whether the response stays cacheable |
| Policy.OneDecisionOverTime | src/policy.rs:248-277 | a decision changes exactly at its recorded instant, and allowed stays allowed |
| Policy.CapturedIsEarliest | src/policy.rs:42-52 | the captured instant is the earliest that any evaluation records |
| Policy.StableExactlyUntilCaptured | src/policy.rs:124-292 | re-deciding later with the same OSV results gives the same decisions if and only if it is before the captured instant; time never refuses what was allowed |
| Policy.EvaluateAll | src/policy.rs:29-40 | a list of evaluations records its captured instant and stays cacheable only if every needed check succeeded |
| BatchFilter.CheckedAt | src/rubygems.rs:343-352 | an artifact that needs a check is the one of its rank in the batch |
| BatchFilter.RankIsIndexed | src/rubygems.rs:343-352 | the remembered position of a batch entry is its artifact's |
| BatchFilter.Distribute | src/rubygems.rs:353-375 | every result reaches the position of its own artifact, and bypassed ones get none |
| BatchFilter.EvaluateArtifacts | src/rubygems.rs:336-381 | every artifact is decided on its own outcome, with the instant and cacheability of the whole list |
| BatchFilter.BatchedEqualsPointwise | src/npm.rs:213-272 | with a batch that agrees with single checks, deciding in one batch is deciding each alone, or all needed ones as errors |
| BatchFilter.FailedBatchDecidesErrors | src/npm.rs:226-264 | an error or a wrong number of results decides every needed artifact as a checker error |
| BatchFilter.ProxyKeepsFilename | src/npm.rs:274-287 | the proxy's address of a tarball names the same file as the upstream address |
| NpmTarballs.TarballFilenameExactly | src/npm.rs:408-419 | the file name is what follows the last slash before fragment and query |
| NpmTarballs.RewrittenExactly | src/npm.rs:274-287 | a kept version with a distribution is fetched from the proxy's base, under the package and its own file name, or else one made of package and version; nothing else of it changes |
| BatchFilter.PackageDocument.constructor | src/npm.rs:193-198 | the document holds what it is given |
| BatchFilter.PackageDocument.KeepAllowed | src/npm.rs:244-292 | exactly the allowed versions stay, rewritten for the proxy |
| BatchFilter.PackageDocument.Filter | src/npm.rs:185-303 | the document keeps exactly the versions that are allowed at their own publish time and exactly the tags that name one, and the response stays cacheable only if every needed check succeeded; without a versions object it is left as it was |
| Digits.StrippedComparesAsValue | src/rubygems.rs:817-819 | on zero-stripped digits of any length, length then text is the order of the numbers |
| Digits.StripZerosKeepsValue | src/rubygems.rs:753-755 | stripping zeros keeps the number |
| Digits.PrintRead | src/artifact.rs:222-226 | printing what was read gives the digits without leading zeros |
| RubyGemsVersion.RunEnd | src/rubygems.rs:744-751 | the inner scan ends where the run of one class ends |
| RubyGemsVersion.ScanSegments | src/rubygems.rs:736-759 | the scan with two indices yields the maximal runs |
| RubyGemsVersion.HyphenIsPre | src/rubygems.rs:735-759 | a hyphen reads like the segment `pre` between its two sides |
| RubyGemsVersion.DropZerosAtEnd | src/rubygems.rs:795-797 | the first loop drops exactly the trailing zeros |
| RubyGemsVersion.DropZerosBeforeAlpha | src/rubygems.rs:798-809 | the second loop drops exactly the zeros before the first letters |
| RubyGemsVersion.Canonicalize | src/rubygems.rs:794-810 | both loops together drop the trailing zeros of release and prerelease |
| RubyGemsVersion.CanonicalIsIdempotent | src/rubygems.rs:794-810 | the canonical form is canonical, and exactly canonical versions are their own |
| RubyGemsVersion.ReleaseZerosVanish | src/rubygems.rs:798-809 | a zero at the end of the release changes nothing |
| RubyGemsVersion.TrailingZerosVanish | src/rubygems.rs:795-797 | a zero at the end changes nothing |
| RubyGemsVersion.ParseVersion | src/rubygems.rs:730-762 | parsing trims, checks the grammar, expands hyphens, scans and canonicalises |
| RubyGemsVersion.ParsedVersionsAreOk | src/rubygems.rs:730-762 | parsed versions are canonical, with zero-stripped digits and lower-case letters |
| RubyGemsVersion.Compare | src/rubygems.rs:812-830 | the loop and the rest comparison compute the zero-padded order |
| RubyGemsVersion.RemainingIsPadded | src/rubygems.rs:838-851 | comparing against nothing is comparing against zeros |
| RubyGemsVersion.PaddedOrderIsLexicographic | src/rubygems.rs:812-851 | comparison is lexicographic order of infinite zero-padded sequences |
| RubyGemsVersion.EqualExactlyWhenIdentical | src/rubygems.rs:812-851 | canonical versions compare equal exactly when identical |
| RubyGemsVersion.VersionsAreTotallyOrdered | src/rubygems.rs:812-855 | comparison is a total order on canonical versions, which all parsed ones are |
| RubyGemsVersion.NumericSegmentsCompareAsNumbers | src/rubygems.rs:817-819 | numeric segments compare as the numbers they write |
| RubyGemsVersion.ParseRender | src/rubygems.rs:730-762 | every version is what its own text parses to |
| RubyGemsGrammar.ParseExactly | src/rubygems.rs:765-792 | a text is a version exactly when, between white space, it is a number with further dotted parts and, behind a first hyphen, dotted parts that may hold hyphens |
| RubyGemsGrammar.RunIsOneSegment | src/rubygems.rs:738-759 | a run of figures is the segment of its number, a run of letters that of the letters made small |
| RubyGemsOrder.SegmentsExactly | src/rubygems.rs:816-823 | letters are below numbers, numbers compare by value, letters by their first difference with a prefix lower |
| RubyGemsOrder.ComesFirstExactly | src/rubygems.rs:812-851 | a version comes first exactly when it is below the other at the first position at which they differ, a missing segment being zero |
| RubyGemsOrder.PrereleaseComesFirst | src/rubygems.rs:821-842 | a dot and letters behind a version's text make a version below it |
| Text.TextLessExactly | src/rubygems.rs:820-820 | a text is below another exactly when it is a proper prefix or has the smaller character where they first differ |
| MavenVersion.SplitPieces | src/maven.rs:1044-1055 | the loop cuts at dots and hyphens and remembers each separator |
| MavenVersion.PiecesSpell | src/maven.rs:1044-1055 | joined by their separators the pieces are the version again |
| MavenVersion.PiecesAreClean | src/maven.rs:1044-1055 | no piece holds a separator, and every piece but the first stands behind one |
| MavenVersion.RunsSpell | src/maven.rs:1058-1080 | a piece's runs spell it |
| MavenVersion.RunsAreExact | src/maven.rs:1058-1080 | runs are uniform, and change between digits and other text from one to the next |
| MavenVersion.SplitRuns | src/maven.rs:1058-1080 | a piece is cut at every change between digits and other text |
| MavenVersion.NormalizeRuns | src/maven.rs:1073-1078 | every run becomes its normalised token |
| MavenVersion.NormalFormIsStable | src/maven.rs:1098-1127 | a normalised token is not empty and stays as it is |
| MavenVersion.SkipToHyphen | src/maven.rs:1089-1092 | the inner loop passes over tokens that stay and stops before a hyphen token |
| MavenVersion.Trim | src/maven.rs:1082-1093 | the loop with its moving index removes exactly the doomed tokens, and ends |
| MavenVersion.DoomedExactly | src/maven.rs:1082-1093 | a token is removed exactly when only null tokens separate it from the end or from a hyphen token |
| MavenVersion.TrimmedIsTrimmed | src/maven.rs:1082-1093 | no null token is left at the end or before a hyphen token, except the first |
| MavenVersion.TrimIsIdempotent | src/maven.rs:1082-1093 | trimming twice is trimming once, and exactly trimmed lists are left alone |
| MavenVersion.ParseVersion | src/maven.rs:1036-1095 | parsing rejects, cuts, normalises and trims |
| MavenVersion.ParsedVersionsAreOk | src/maven.rs:1036-1095 | a parsed version is not empty, is trimmed, and only its first token has no separator |
| MavenVersion.CompareParsed | src/maven.rs:1132-1148 | the loop computes the token-wise order with null padding |
| MavenVersion.CompareVersions | src/maven.rs:1129-1149 | compares exactly when both sides parse |
| MavenVersion.OrderIsAntisymmetric | src/maven.rs:1132-1199 | on trimmed token lists the other way round is the reverse, and equal means identical |
| MavenTransitivity.SidesDecide | src/maven.rs:1151-1199 | two tokens that do not clash compare as they stand to padding |
| MavenTransitivity.TransitiveUnlessPaddingClashes | src/maven.rs:1129-1199 | comparison is transitive among three versions of any lengths unless two tokens clash at a position that the third lacks |
| MavenTransitivity.ClashesMakeCycles | src/maven.rs:1129-1199 | any two tokens that clash make a cycle of three versions |
| MavenQualifiers.TokensExactly | src/maven.rs:1159-1199 | when one token is below another, by separator, number and word |
| MavenQualifiers.QualifiersRank | src/maven.rs:1189-1199 | versions that differ in their last qualifier rank by the words alpha, beta, milestone, rc, snapshot, the release, sp, and then any other text in its own order |
| MavenQualifiers.WordsRank | src/maven.rs:1189-1199 | in particular the seven in this order and other text behind them |
| MavenQualifiers.AliasExactly | src/maven.rs:1098-1108 | which words mean another one, and which letters do before a digit |
| MavenQualifiers.RejectedExactly | src/maven.rs:1037-1043 | text is no version exactly when it is empty or holds white space or a slash |
| MavenQualifiers.WordIsWritten | src/maven.rs:1036-1127 | a number, a hyphen and a word are read as the number with the qualifier the word means |
| MavenQualifiers.WrittenWordsRank | src/maven.rs:1129-1199 | so written qualifiers rank by what they mean |
| MavenNumbers.NumbersParse | src/maven.rs:1036-1095 | what dotted numbers parse to |
| MavenNumbers.NumbersCompareAsNumbers | src/maven.rs:1129-1199 | on dotted numbers comparison is the zero-padded lexicographic order of the numbers, of any size |
| MavenNumbers.ComparisonHasACycle | src/maven.rs:1129-1199 | `1 < 1.a`, `1.a < 1-alpha` and `1-alpha < 1` |
| NugetVersion.FitKeepsComponents | src/artifact.rs:216-221 | no component changes when missing ones count as zero, so zeros at the end do not matter |
| NugetVersion.PadAndTrim | src/artifact.rs:216-221 | components are padded to three and a zero revision dropped |
| NugetVersion.NormalizeVersion | src/artifact.rs:197-239 | the normaliser reads the version and writes it back, or rejects it |
| NugetVersion.ReadIsProper | src/artifact.rs:197-239 | an accepted version has three components or a fourth that is not zero, all within 64 bits, and a lower-case prerelease |
| NugetVersion.ReadWrite | src/artifact.rs:222-238 | a normal form reads back as the version it was written from |
| NugetVersion.NormalizeIsIdempotent | src/artifact.rs:197-239 | normalising a normal form changes nothing |
| NugetVersion.ComparesAsRead | src/malicious.rs:2260-2297 | normalising, splitting and reading again compares the versions as read |
| NugetVersion.PrecedenceIsATotalPreorder | src/malicious.rs:2288-2311 | the comparator's order of versions as read is reflexive, reversible, total and transitive |
| NugetVersion.ComparatorIgnoresNormalisation | src/malicious.rs:2265-2274 | normalising either side first changes nothing |
| NugetGrammar.ReadExactly | src/artifact.rs:197-239 | a text is accepted exactly when it is one to four numbers within 64 bits, maybe a prerelease of letters, figures, dots and hyphens, and maybe build metadata, and is read as those numbers and that prerelease in small letters |
| NugetSemver.SemverListsExactly | src/malicious.rs:2298-2311 | the first identifiers that differ decide, and without a difference the longer list is higher, as section 11.4 of Semantic Versioning 2.0.0 says |
| NugetSemver.BeyondU64 | src/malicious.rs:2300-2305 | exactly when an identifier beyond 64 bits still compares as that section says |
| NugetSemver.PrereleaseFollowsSemver | src/malicious.rs:2298-2311 | two prereleases compare as that section says if and only if, at the first position at which the orders of identifiers part, both write one number and the rest decides like the texts |
| NugetSemver.FittingPrereleasesFollowSemver | src/malicious.rs:2298-2311 | in particular they do as long as numeric identifiers fit 64 bits |
| NugetSemver.PrecedenceRanks | src/malicious.rs:2288-2297 | the comparator's order is the standard's by the first component that differs, and otherwise exactly if it is on the prereleases |
| NugetSemver.RankedOneWay | src/malicious.rs:2288-2297 | the standard ranks two versions one way only |
| NugetSemver.ComparatorFollowsSemver | src/malicious.rs:2260-2311 | two accepted versions compare as the standard says, by the first component that differs and else by the prereleases, if and only if components or a missing prerelease decide or their prereleases compare so |
| NugetSemver.OversizedNumbersDisagree | src/malicious.rs:2300-2305 | for every number beyond 64 bits two pairs of accepted versions that the comparator orders otherwise than the standard |
| BackgroundSync.SyncEcosystems | src/malicious.rs:556-586 | the report lists the committed ecosystems and the names of the others |
| BackgroundSync.FailuresAreMissing | src/malicious.rs:447-456 | reading failures back by name gives the missing ecosystems in their order |
| BackgroundSync.DelayIsMonotoneAndBounded | src/server.rs:327-342 | the delay does not shrink as failures go on and stays within the maximum and half the interval, or a millisecond |
| BackgroundSync.OwnPolicyNeverOverflows | src/server.rs:327-342 | with the proxy's own retry policy of five seconds to five minutes nothing overflows |
| BackgroundSync.CheckedMulExactly | src/server.rs:334-337 | a product overflows exactly when its seconds do not fit 64 bits |
| BackgroundSync.DelayDoubles | src/server.rs:327-342 | the first failure waits the initial delay and each further one twice as long, up to the longest, for sixteen doublings |
| BackgroundSync.BackgroundLoop.constructor | src/server.rs:283-284 | the first iteration asks for all seven ecosystems |
| BackgroundSync.BackgroundLoop.Iterate | src/server.rs:285-322 | after every iteration the requested list is exactly what has not committed since the last full success; the wait is the interval exactly when the cycle ended |
| BackgroundSync.BackgroundLoop.Fail | src/server.rs:297-319 | a failed iteration counts with saturation and waits the retry delay of the true count |
| BackgroundSync.CycleEndsAfterAllCommit | src/server.rs:285-322 | a cycle ends only after each of the seven committed in it, while it was missing |
| PageHydration.CollectRequests | src/nuget.rs:301-310 | the requests are the missing pages in order, or the error of a page without address |
| PageHydration.FetchAll | src/nuget.rs:311-322 | under any completion order each fetch starts once and in order, at most eight are pending, and the loop ends with every answer or the failure of one |
| PageHydration.SortIsOrdered | src/nuget.rs:323-323 | sorting keeps the arrivals and puts them in page order |
| PageHydration.HydratePagesPointwise | src/nuget.rs:288-337 | filling one by one succeeds exactly when each page can be filled |
| PageHydration.HydrateExactly | src/nuget.rs:288-337 | a document of pages can be filled exactly when it has at most 64 and each has leaves or an address at which its provider has leaves; each keeps its own or gets those |
| PageHydration.Document.constructor | src/nuget.rs:288-295 | the document holds what it is given |
| PageHydration.Document.Fill | src/nuget.rs:324-335 | putting the arrivals in gives the document of filling one by one |
| PageHydration.Document.HydrateRegistrationPages | src/nuget.rs:288-337 | success exactly when filling one page at a time succeeds, then with the same document; each missing page fetched at most once and no more than eight at a time |
| ReadBounds.StepStaysFrom | src/metadata_cache.rs:184-313 | a step brings into running fills and responses nothing but what it evaluates |
| ReadBounds.ReadingsGrow | src/malicious.rs:306-361 | a fill's statements are kept as they were run, and a new one sees the store's revision as it is then |
| ReadBounds.RunStaysBounded | src/metadata_cache.rs:184-313 | no statement of a fill, and none behind a response, kept, shared or answered, saw a revision the store has not reached |
| JointRuns.SameRowsSameOutcome | src/malicious.rs:286-296 | a check that succeeded gives the same findings wherever its statements see the same rows and the store is healthy |
| JointRuns.UnhealthyStoreRefuses | src/malicious.rs:1863-1921 | with an unhealthy or stale store every needed check fails, and the artifact is refused where errors block |
| UpstreamRecords.FindsExactly | src/malicious.rs:286-296 | a check of one state that succeeds has a finding for exactly the documents, not withdrawn, of which an entry of the package lists the version or has a range that holds it |
| UpstreamRecords.MalwareIsRefused | src/policy.rs:137-147 | a stored malicious record refuses every version it affects, unless the check fails where errors do not block |
| UpstreamRecords.VulnerabilityIsRefused | src/policy.rs:148-168 | a stored vulnerability refuses every version of which an affecting entry scores at or above the threshold, unless the check fails |
| UpstreamRecords.UnaffectedIsNotRefused | src/policy.rs:132-227 | where no stored document affects a version a check that succeeds finds nothing and OSV does not refuse |
| UpstreamRecords.PublishedMalwareIsRefused | src/malicious.rs:960-999 | in every joint run a malicious record that upstream has published, older than the watermark and not stale, refuses what its present text affects, wherever errors block |
| JointRuns.RevisionsAgree | src/malicious.rs:389-409 | the revisions requests read are the store's along every joint run |
| KeyReads.KeysAreRead | src/malicious.rs:389-409 | in every joint run the revision in a key is one the store had at an instant no earlier than one at which its ecosystem was healthy |
| JointRuns.StatementsArePlaced | src/malicious.rs:306-361 | in every joint run the statements of a fill saw the store at instants of the run, one after the other, with any commits between them |
| JointRuns.EvaluationsAreGenuine | src/server.rs:373-394 | in every joint run what is behind a response, kept, shared or answered, is for each artifact what a health, an exact and a range statement give that saw the store at instants of the run, the health statement first, with the revisions of the three; or a failure, or no check where none is needed |
| JointRuns.UnmovedCheckIsOfOneInstant | src/malicious.rs:286-361 | a check whose first and last statements saw one revision is the check of the first statement's instant, and all three saw the same documents |
| EndToEnd.ServedFromCurrentContent | src/server.rs:365-394 | while the store is at the key's revision, every statement of every successful check behind an answer saw the documents the store holds now |
| EndToEnd.OutcomeIsCurrent | src/server.rs:365-394 | then each successful check is what checking afresh gives while the store is healthy, even if commits fell between its statements |
| EndToEnd.ServedDecisionsAreCurrent | src/server.rs:365-394 | at any later instant with a healthy store the decisions behind an answer whose checks succeeded are those of a fresh evaluation if and only if it is before the captured instant |
| EndToEnd.HitDecisionsAreCurrent | src/server.rs:373-394 | a hit's decisions are those of a fresh evaluation at the lookup's clock reading, or at the fill's if that is later, with nothing assumed of the fill |
| StraddlingChecks.NeitherText | src/malicious.rs:286-296 | either text alone gives its finding, but an exact statement on the first and a range statement on the second find nothing |
| StraddlingChecks.NoStateIsClean | src/malicious.rs:286-296 | on one store, before the first import, between the two or after both, the check finds the advisory or fails |
| StraddlingChecks.StraddlingCheckFindsNothing | src/malicious.rs:286-361 | a run in which a fill evaluates a package by statements on both sides of a commit and finds nothing, though at no instant of the run a check would have |

## Left out

* HTTP clients, streaming bodies, TLS, header forwarding, routes and URL rewriting other than npm tarballs: input and output without an invariant.
* The SQLite engine, schema upgrades and the legacy migration: transactions are taken as atomic on the current schema.
* Zip, JSON, XML and CVSS vector parsing and the hash functions: parsed values are inputs, scores are natural numbers in tenths.
* The npm, PyPI, Cargo and Go comparators: they come from libraries, so range theorems take any strict weak order or any comparison to a boundary.
* The file lock of a sync run: at most one sync per store is assumed.
* Message texts, sources and scores in decisions: allowed, reason, rule and eligible time are kept.
* Configuration loading, readiness reports and error-to-status mapping: single branches.
* The disabled cache and the disabled OSV policy: both skip the parts that are modelled; the policy's OSV switches decide how a key's revision is read.
* Flights are numbered in the model so that states can be written down; the source compares them by identity.
* The sizes of the key and response structs are configuration values of the model.
* Removal of withdrawn advisories' rows is modelled by not reading them; the rows of a document are computed from the document.
* The in-place filtering of NuGet, PyPI, Cargo, Go and Maven documents: the same batch mapping as RubyGems and npm.
* A `limit` at `*`: no comparator parses it, and the range theorems are about lists whose boundaries compare.
* Pypi name normalisation and the other name foldings: character maps.
- PageHydration.Document.HydrateRegistrationPages: which error is reported when several pages fail depends on completion order and is not compared.
- SharedFills.AnswersAreTimely: for a request that waits it orders the fill's own two readings only, since the fill may have begun before the request came.
- JointRuns.UnmovedCheckIsOfOneInstant: one way only; a check across a commit that leaves the artifact's own rows alone is that of one instant as well.
- BatchCheck.CheckMany: which of several errors is reported is not compared with the single checks.
