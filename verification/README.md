# Cluster Registry in Dafny

Cluster Registry keeps one record per Kubernetes cluster. Clients put cluster specs on an
at-least-once queue; a handler folds them into a DynamoDB table, last writer wins; list
endpoints answer from that table through a tagged response cache; a sync controller derives
partial specs from watched objects and publishes them when their hash changes; a watcher
copies values out of arbitrary objects into service metadata; a webhook turns alerts into
cluster tags. This project models those parts and proves what they keep over every input,
every delivery order and every run. `dafny verify dfyconfig.toml` checks the whole project.

## The main results

* **Eventual correctness under any faults** (`Eventual.DrainedQueueHoldsNewest`). Over every run
  of the queue, handler, table and cache, with failing reads, rejected or unacknowledged
  writes, failing deletions, duplicates and redeliveries: once the newest update of a cluster is
  no longer in the queue, the table holds exactly that update, or the untouched initial record
  if that was newer. `Protocol.NoLostUpdate` is the matching safety statement at every moment,
  `Protocol.RunsConverge` the matching statement about two different runs.
* **Cache coherence** (`Protocol.CacheCoherence`, `Protocol.CachedListIsExact`). Over every run, a
  cached list response that the current table no longer gives was overtaken by an update between
  its computation and its storing, or is followed by an update whose own message says why it has
  not invalidated the tag. With no fault since it was stored and between callbacks, an entry is
  right if and only if it was right when it was stored, and it is then the filter-and-slice of
  exactly the current table. `Protocol.SlowGetStoresStaleAnswer` is the run in which it was not.
* **Publishing exactly the changes** (`SyncController.PublishesExactlyChanges`). Along every
  serial run with working enqueues and status writes, failed syncs in between included, the
  messages sent are the changes in the computed data, no more and no fewer; the lemmas after
  it say what each kind of failure costs.
* **The tier join** (`Tiers.TierJoin`, `Parser.PoolsThenEks`), **trigger and read agreement**
  (`Watch.TriggerIffRead`), **path resolution as a plain walk** (`PathResolution.PathTextResolves`),
  **watched fields arriving as metadata** (`MetadataWatcher.WatchedFieldsArrive`, over merge
  patches as assignments, `Patches.PassAfterPartialPass`), **retries as one clean pass** (`Webhook.Server.Retry`),
  **paging and windows as filter-and-slice** (`Listing.ListClusters`,
  `Listing.ServiceWindowsAreWhole`) and the text round trips.

## How it is modelled

Code that changes things step by step is a class or a method with loops, proved against a
function on values; the laws are lemmas about those functions. Runs are sequences of states and
steps (`Protocol.Run`), lists of steps or events (`SyncController.Exec`, `Poller.Reaches`,
`CounterRace.Possible`) or fault lists (`Webhook.Server.Retry`).

| file | component |
|---|---|
| Common, Decimal, Url (`Sorting`) | results, int64 arithmetic, list operations, decimal texts, sorting |
| Registry, UpdateHandler, HandlerRace | the table, `PutCluster`, `ClusterUpdateHandler.Handle`, atomic and not |
| Protocol, Eventual | queue, callbacks, cache and clock as a state machine; theorems over runs |
| Url, Filter, Listing, Api | canonical URLs, filter conditions and chains, paging, list handlers |
| Poller (`CounterRace`) | the handler slots of the queue poller, with an atomic and an unguarded counter |
| Watch, Tiers, Sync | watched objects, tier merge, parser, sync controller |
| Paths, Patches, Watcher | the path language, its resolver, merge patches, the service metadata watcher |
| Webhook, ShortNames | tag updates with retries, dash names |

Hypotheses, where the code gives no more:

* In `Protocol` and `Eventual`, `Handle` is one atomic step and reads are fresh: every fault there
  is a failing or unacknowledged call. Nothing in the code locks read, check and write together,
  and `GetItem` is called without a consistent read; `HandlerRace` takes the check and the write
  apart and proves exactly when that matters. The list queries see the table itself, not an index
  that lags behind it.
* `Poller` takes `handlerCount++` to be atomic. `CounterRace` does not: it proves exactly when the
  counter stays right and exactly when the maximum can be exceeded.
* Cache statements speak of a handler whose database query succeeds, because the list handlers
  drop query errors and answer 200 with an empty list (`Api.ListClustersHandler` states both).
* Neither the sync controller's hash nor the cache key's FNV hash has collisions.
* Reconciles are serial, since they share one parser buffer.
* A timestamp text is represented by the instant it denotes; JSON, gob and percent encoding are
  taken to be invertible; the JSON patch that `Diff` encodes and the reprinting of dates in
  filter values are parameters.
* The per-tier merge is stated for the library options in use: a non-zero source value
  overrides (deep copying of slices implies overriding), maps are united, slices appended; the
  tier-list transformer is not consulted when the destination list is nil.
* Every queue message carries its sent time; a time that is not an int64 is refused.

Where the code and its documentation disagree the model follows the code: a batch size of zero
passes a validation that announces 1-10 (`Poller.AsksForSomething`); `<=` is an allowed operand
but is read as `<` (`Conditions.NoLessOrEqual`); the service listing hands its environment and
region on in the wrong order (`Listing.SwappedCriteria`) and never reports more results
(`Listing.OneWindowSuffices`); the list with conditions does not leave out deleted clusters, the
one without does; partial updates, should they reach the queue of this callback, are skipped and
never deleted (`Eventual.OtherMessagesStay`), so they need a queue or a consumer of their own.

## Model

| member | source | states |
|---|---|---|
| `Registry.Database.GetCluster` | pkg/database/database.go:134-171 | a failed read is an error; a missing cluster is found absent, not an error; otherwise the stored spec |
| `Registry.Database.PutCluster` | pkg/database/database.go:344-396 | the whole new table and result for every read and write fault: an unparseable time is refused, the stored registration time is kept when the read finds it, an unacknowledged write is both in the table and an error |
| `Registry.PutKeepsIndex` | pkg/database/database.go:346-367 | whatever the faults, every stored column keeps agreeing with its spec's name, region, environment, status and whole-second time |
| `Registry.PutReports` | pkg/database/database.go:344-396 | a put succeeds if and only if the time parses and the write is acknowledged, and changes nothing on a bad time or a rejected write |
| `Registry.PutKeepsRegisteredAt` | pkg/database/database.go:353-356 | the registration time survives a write if and only if the preliminary read succeeds or the received one is the same |
| `UpdateHandler.ClusterUpdateHandler.HandleEvent` | pkg/apiserver/event/handler.go:41-103 | the imperative handler changes the table and reports exactly as the function Handle says, for every malformed message and database fault |
| `UpdateHandler.HandleSafe` | pkg/apiserver/event/handler.go:60-102 | success means the table holds the cluster at the message's time or later; no call moves a stored time back, drops a cluster or touches another one |
| `UpdateHandler.HandleReports` | pkg/apiserver/event/handler.go:41-103 | success if and only if the message is a well-formed update, the read succeeds, and the update is stale or its write acknowledged; each error if and only if its cause is the first; without faults every well-formed update succeeds |
| `UpdateHandler.HandleStores` | pkg/apiserver/event/handler.go:60-102 | what the table then holds, field by field: the received spec at the message's time under the kept registration time, or exactly the table before |
| `UpdateHandler.ChangeReportsSuccess` | pkg/apiserver/event/handler.go:69-102 | without unacknowledged writes, a call that changes the table reports success |
| `UpdateHandler.HandleKeepsIndex` | pkg/apiserver/event/handler.go:69-102 | columns and specs still agree after any call |
| `UpdateHandler.StampExact` | pkg/apiserver/event/handler.go:62-67 | the int64 nanosecond product is exact if and only if the milliseconds lie within ±9223372036854 |
| `UpdateHandler.Newest` | pkg/apiserver/event/handler.go:86-92 | the reference choice: a delivered update of the cluster that no other is newer than, present whenever there is one |
| `UpdateHandler.DeliverOne` | pkg/apiserver/event/handler.go:69-102 | one more delivery moves the table from the expected record of a history to that of the longer one |
| `UpdateHandler.DeliveredIsExpected` | pkg/apiserver/event/handler.go:60-102 | after any deliveries from any table, each record is the newest update under the first registration time, or the newer initial record, computed without replaying |
| `UpdateHandler.NewestDependsOnSet` | pkg/apiserver/event/handler.go:86-92 | with distinct times the newest update depends on the set of messages, not on order or repetition |
| `UpdateHandler.Convergence` | pkg/apiserver/event/handler.go:60-102 | two histories of the same messages leave the same table up to registration times, and the very same record where one existed before |
| `UpdateHandler.OrderShowsOnlyOnTies` | pkg/apiserver/event/handler.go:86-92 | two updates of a cluster commute if and only if their times differ, both are stale, or they store the same |
| `UpdateHandler.LateWriteRegresses` | pkg/apiserver/event/handler.go:69-95 | a write after an outdated check moves the time back if and only if the check, repeated, would refuse it |
| `UpdateHandler.OverlappingHandlersLoseAnUpdate` | pkg/apiserver/event/handler.go:69-95 | two overlapping handlers on an empty table can both pass their checks and lose the newer update |
| `HandlerRace.BackIffOvertaken` | pkg/apiserver/event/handler.go:69-95 | with check and write as separate steps, a step moves a stored time back if and only if it is the write of a handler behind whose check a newer update of the cluster was written |
| `HandlerRace.NeverBackIffNoneOvertaken` | pkg/apiserver/event/handler.go:69-95 | over every interleaving of handlers, stored times never go back if and only if no handler is overtaken in this way |
| `HandlerRace.SerialIfNoneOvertaken` | pkg/apiserver/event/handler.go:69-102 | and then the run leaves the table of atomic deliveries in the order of their effects, hence the newest updates |
| `HandlerRace.LastWriteStands` | pkg/apiserver/event/handler.go:94-102 | overtaken or not, a cluster ends at the time of the last write for it |
| `HandlerRace.OlderWritesLast` | pkg/apiserver/event/handler.go:69-95 | the four steps after which the older of two updates stands |
| `Protocol.StepKeepsTable` | cmd/apiserver/apiserver.go:112-143 | no step of the protocol moves a stored time back or drops a cluster |
| `Protocol.RunKeepsFlightsCovered` | cmd/apiserver/apiserver.go:124-131 | in every reachable state, a callback past its handling has its message covered by the table |
| `Protocol.CoveredForever` | cmd/apiserver/apiserver.go:124-131 | a covered message stays covered in all later states |
| `Protocol.NoLostUpdate` | cmd/apiserver/apiserver.go:112-131 | with any faults, a message leaves the queue only when the table holds its cluster at its time or later, then and ever after |
| `Protocol.TimesNeverGoBack` | pkg/apiserver/event/handler.go:86-102 | along every run stored times never go back and clusters never disappear |
| `Protocol.RegisteredAtNeverChanges` | pkg/database/database.go:353-367 | once stored, a registration time never changes while the preliminary reads of PutCluster succeed |
| `Protocol.RunKeepsIndex` | pkg/apiserver/event/handler.go:86-92 | in every reachable state columns agree with specs and every stored time parses, so the branch for unreadable stored times is dead |
| `Protocol.TableIsDeliveries` | cmd/apiserver/apiserver.go:112-131 | without database faults the table of every state is the fold of the messages handled so far, however interleaved |
| `Protocol.RunsConverge` | cmd/apiserver/apiserver.go:112-131 | two runs that handled the same messages in any interleaving and multiplicity hold the same table up to registration times, namely the expected one |
| `Eventual.HandledReflects` | pkg/apiserver/event/handler.go:60-102 | a successful call leaves the message's own update in the table, or a strictly later one |
| `Eventual.RecordOrigin` | pkg/apiserver/event/handler.go:60-102 | every record of every reachable state is the initial one or was stored from a message that was queued or sent |
| `Eventual.ReflectedForever` | cmd/apiserver/apiserver.go:112-131 | an update without ties, once reflected, is never replaced by an older one in any later state, under any faults |
| `Eventual.LeftAtSomeStep` | cmd/apiserver/apiserver.go:128-131 | a message that was queued and no longer is has left at some step of the run |
| `Eventual.DrainedQueueHoldsNewest` | cmd/apiserver/apiserver.go:112-131 | over every run with any faults: once the newest update of a cluster is not in the queue, the table holds exactly that update, or the untouched initial record if newer |
| `Eventual.UnmentionedClustersUntouched` | cmd/apiserver/apiserver.go:112-131 | a cluster no message names has the same record, or none, at the end of the run |
| `Eventual.OtherMessagesStay` | cmd/apiserver/apiserver.go:114-127 | a message that is not a well-formed cluster update never leaves the queue |
| `Protocol.CacheProvenance` | pkg/apiserver/web/cache.go:61-96 | every cached response is a list, never a refusal, was computed from the table of an earlier state, stored later, and not wiped since |
| `Protocol.MissingInvalidation` | cmd/apiserver/apiserver.go:124-143 | every update that no successful invalidation has followed has its reason in its own message: an unacknowledged write, a callback still under way, a failed or unacknowledged deletion, the skip flag, or a failed invalidation |
| `Protocol.UndisturbedGet` | pkg/apiserver/web/cache.go:76-96 | a response is right when stored if no update fell between its computation and its storing, whatever other GETs did |
| `Protocol.CacheCoherence` | pkg/apiserver/web/cache.go:57-101 | over every run: a cached answer is what the current table gives, unless an update overtook its GET so that it was wrong when stored, or an update applied since has not invalidated the tag for one of the reasons of MissingInvalidation |
| `Protocol.AtomicGetsAreRight` | pkg/apiserver/web/cache.go:76-96 | corollary: in runs whose GETs overlap nothing every entry was right when it was stored |
| `Protocol.ServedAnswerOrigin` | pkg/apiserver/web/cache.go:61-77 | every served cached answer was right when computed and stored less than one time to live ago, with any interleaving |
| `Protocol.ServedAnswerAge` | pkg/apiserver/web/cache.go:57-101 | a served answer was right less than one time to live ago if and only if the last state in which it was right is that recent; there is one from its computation on, and it is that recent if the answer was right when stored or is served soon after its computation |
| `Protocol.UnfinishedFlight` | cmd/apiserver/apiserver.go:124-143 | with no fault since an update, its invalidation is missing only while a callback for its own message is under way |
| `Protocol.QuiescentCacheIsFresh` | cmd/apiserver/apiserver.go:124-143 | with no fault since the entry was stored and between callbacks, a cached answer is right if and only if it was right when stored |
| `Protocol.CachedListIsExact` | pkg/apiserver/web/cache.go:57-119 | end to end for the list endpoint: under those conditions the entry is what its request is served from exactly the records of the current table, all with agreeing columns, if and only if it was right when stored; and it answers the request as typed if and only if the canonical form keeps its numbers |
| `Protocol.SlowGetStoresStaleAnswer` | pkg/apiserver/web/cache.go:76-96 | a fault-free run in which a GET overtaken by an update and its invalidation leaves a wrong answer, and serves one that was last right a whole time to live ago |
| `Protocol.CallbackIsSteps` | cmd/apiserver/apiserver.go:112-143 | one undisturbed callback is a sequence of protocol steps, each enabled where it is taken, ended early by each of its error returns |
| `Protocol.CallbackDoes` | cmd/apiserver/apiserver.go:112-143 | the callback takes its message off the queue if and only if the handling succeeds and the deletion goes through, and clears the cache if and only if, besides, the deletion is acknowledged, nothing asks to skip and the invalidation succeeds |
| `Protocol.CallbackConsumesUpdates` | cmd/apiserver/apiserver.go:112-143 | without faults it takes exactly one copy of every well-formed update off the queue, stale or not, and nothing else |
| `Protocol.ApiServer.OnMessage` | cmd/apiserver/apiserver.go:112-143 | the imperative callback leaves the queue, table and cache that those steps leave |
| `Protocol.ApiServer.ServeList` | pkg/apiserver/web/cache.go:57-101 | the URL becomes canonical; a live entry is served unchanged; otherwise the list handler's answer over any paging of the table's records is given and stored as the miss and store steps say; a failed query is answered and stored as an empty list |
| `Url.CanonicalIdempotent` | pkg/apiserver/web/cache.go:111-119 | canonicalising a query twice is canonicalising it once |
| `Url.SameKeyIffSameParams` | pkg/apiserver/web/cache.go:111-129 | two queries have one canonical form if and only if they carry the same pairs with the same multiplicities |
| `Url.CanonicalValues` | pkg/apiserver/web/cache.go:111-119 | the values of each key in the canonical query are its values, sorted |
| `Url.FirstValueSurvives` | pkg/apiserver/web/cache.go:111-119 | the first value of a key becomes the least one, so it survives if and only if it was the least |
| `Url.GroupByKey` | pkg/apiserver/web/cache.go:112 | grouping keeps, for every key, its values in order |
| `Url.SortValues` | pkg/apiserver/web/cache.go:113-117 | every value list becomes a sorted permutation of itself |
| `Url.EncodedGroupsAreCanonical` | pkg/apiserver/web/cache.go:111-119 | writing sorted groups in key order equals sorting all pairs |
| `Url.RequestUrl.SortURLParams` | pkg/apiserver/web/cache.go:111-119 | the in-place method leaves the canonical query |
| `Api.PermutedConditionsSameAnswer` | pkg/apiserver/web/handler/v2/handler.go:148-165 | requests with the same numbers and the same conditions in any order have one answer |
| `Api.CanonicalAnswer` | pkg/apiserver/web/cache.go:61-62 | a request and its canonical form have the same answer if the offset and limit survive; where either is answered with a list, only then |
| `Api.LeastNumbersSurvive` | pkg/apiserver/web/cache.go:61-62 | they survive if the first offset and the first limit are the least of theirs |
| `Api.RepeatedOffset` | pkg/apiserver/web/cache.go:61-62 | offset=2 before offset=1 is served as offset 1; the other order keeps its meaning |
| `Api.SameKeySameAnswer` | pkg/apiserver/web/cache.go:57-119 | requests share a cache key if and only if they carry the same parameters, and then they are served the same answer, repeated offsets and limits included |
| `Api.ServeUncached` | pkg/apiserver/web/cache.go:61-84 | without a cached entry the handler answers the canonical request, and the URL is left canonical |
| `Api.AnswerSpeaksOfTable` | pkg/database/database.go:174-341 | what answers are cut from: without conditions the clusters of the table that are not deleted, with conditions exactly those of the table that they admit |
| `Api.AnswerIsExact` | pkg/apiserver/web/handler/v2/handler.go:134-166 | every answer: a bad request if and only if a condition does not parse; otherwise item k is the (offset + k)-th listable cluster with its own fields and no services, the count is theirs, more holds if and only if clusters remain, and a panic stands exactly where the window is undefined |
| `Api.NumbersAreRead` | pkg/apiserver/web/handler/v2/handler.go:138-146 | offset and limit are the numbers that the first value of each spells, or 0 and 200 |
| `Api.ListClustersWithFilter` | pkg/database/database.go:271-341 | fails exactly on a refused operand, a field that builds no name or a failing page; otherwise the window of all records the conditions admit |
| `Api.CollectConditions` | pkg/apiserver/web/handler/v2/handler.go:156-162 | the filter holds all parsed conditions in order, or some condition does not parse |
| `Api.ListClustersHandler` | pkg/apiserver/web/handler/v2/handler.go:134-166 | the plain answer when the queries succeed, an empty list when one fails or cannot be built, and a bad request exactly when there is a condition that does not parse |
| `Conditions.AcceptedIffMatch` | pkg/apiserver/models/filter.go:39-52 | a text is accepted if and only if the expression matches somewhere in it |
| `Conditions.ParsedIsLeftmost` | pkg/apiserver/models/filter.go:39-52 | the condition read is that of the leftmost match: its field, its operand and the trimmed rest of the line |
| `Conditions.OperandsExactly` | pkg/apiserver/models/filter.go:22-43 | an operand is read if and only if the text starts with an allowed one, and it is that start |
| `Conditions.TrimExact` | pkg/apiserver/models/filter.go:50 | trimming removes all white space at both ends and nothing else |
| `Conditions.LineExact` | pkg/apiserver/models/filter.go:43 | the value ends at the first line break |
| `Conditions.PrintedParses` | pkg/apiserver/models/filter.go:39-52 | a printed condition is read as its field and the operand that starts the rest |
| `Conditions.ConditionRoundTrip` | pkg/apiserver/models/filter.go:39-52 | a well-formed condition parses back to itself if and only if it is not `<=` and not `>` before a value starting with `=` |
| `Conditions.NoLessOrEqual` | pkg/apiserver/models/filter.go:22-52 | no text at all yields the operand `<=` |
| `DynamoFilter.DynamoDBFilter.AddCondition` | pkg/database/filter.go:73-76 | appends the condition |
| `DynamoFilter.DynamoDBFilter.Build` | pkg/database/filter.go:35-71 | the chain holds of an item if and only if the item has a non-empty status (or none) and meets every condition; refused exactly when an operand is not allowed, naming the first |
| `DynamoFilter.OrderOfConditionsIrrelevant` | pkg/database/filter.go:35-71 | permuting the conditions does not change what is admitted |
| `DynamoFilter.ParsedFieldBuilds` | pkg/database/filter.go:87-93 | a field from a query, without the prefix, builds a name if and only if none of its dotted parts is empty |
| `DynamoFilter.PrefixIsOptional` | pkg/database/filter.go:87-93 | a field with or without the prefix names the same attribute |
| `DynamoFilter.ValuesAsTyped` | pkg/database/filter.go:102-111 | only the times of ordering operands are reprinted |
| `Listing.BuildQuery` | pkg/database/database.go:183-205 | on agreeing columns the built expression selects exactly the specs passing the plain filter; refused exactly on an unparseable bound |
| `Listing.SinceTest` | pkg/database/database.go:196-205 | the time test misses nothing at or after the bound, admits nothing a full second early, and is exact on whole-second bounds |
| `Listing.QueryAll` | pkg/database/database.go:225-254 | however the server cuts its pages, empty ones included, the loop ends with the whole filtered list in order, unless a call fails |
| `Listing.WindowDefined` | pkg/database/database.go:256-268 | the slice expression does not panic if and only if 0 <= offset <= count, limit >= 0 and the sum does not overflow |
| `Listing.ListClusters` | pkg/database/database.go:174-269 | the window of the plainly filtered list; fails exactly on a bad bound or a failing page |
| `Listing.ReadAllWindows` | pkg/database/database.go:256-268 | a client advancing by the returned count while more holds sees every item once, in order, in the least number of requests |
| `Listing.WithServiceFacts` | pkg/database/database.go:434-442 | the service filter is empty exactly when no cluster has the service, and each result carries that one service only |
| `Listing.WithServiceExact` | pkg/database/database.go:434-442 | the clusters that carry the service, in order, each with its own fields and that service's own metadata |
| `Listing.SelectService` | pkg/database/database.go:434-442 | the nested loops compute the service filter, each cluster at most once |
| `Listing.ListClustersWithService` | pkg/database/database.go:428-456 | the service filter of one window, with environment and region exchanged and more always false |
| `Listing.ServiceWindowsAreWhole` | pkg/database/database.go:428-456 | the service listings of consecutive windows, end to end, are the whole list filtered once |
| `Listing.OneWindowSuffices` | pkg/database/database.go:444-453 | a client trusting more sees everything if and only if no cluster after the first window has the service |
| `Listing.SwappedCriteria` | pkg/database/database.go:428-432 | exchanging environment and region asks the same of every cluster if and only if the two texts are equal, with or without a time bound |
| `Decimal.AtoiFormatInt` | pkg/apiserver/web/handler/v2/handler.go:138-146 | reading a printed int64 gives it back |
| `Decimal.AtoiIffSpells` | pkg/apiserver/web/handler/v2/handler.go:138-146 | a text is read as a number if and only if it is an optional sign, zeros and the number's digits, within int64 |
| `Poller.InvHolds` | pkg/sqs/sqs.go:134-222 | counter, running handlers and promised slots stay within the maximum in every interleaving |
| `Poller.HandlerSlots` | pkg/sqs/sqs.go:134-222 | the counter is the number of handlers in flight, between zero and the maximum; a receive asks for at most the batch size and the free slots; none runs when Poll has returned |
| `Poller.PollEnds` | pkg/sqs/sqs.go:175-221 | after a receive error or a single batch no further receive is made; Poll only waits for its handlers |
| `Poller.AsksForSomething` | pkg/sqs/sqs.go:326-328 | a receive asks for at least one message if and only if the batch size is not zero, which validation lets pass |
| `Poller.AsksForTheSmaller` | pkg/sqs/sqs.go:148-161 | a receive asks for the smaller of the batch size and the free slots |
| `CounterRace.WriteDrift` | pkg/sqs/sqs.go:193-203 | in every reachable state an unguarded increment leaves the counter too high by the decrements written since its read, a decrement leaves it too low by the increments written since |
| `CounterRace.ExactIffNoneOvertaken` | pkg/sqs/sqs.go:193-203 | along every run of reads and writes the counter is exact all the way if and only if no access writes over one that it has not read |
| `CounterRace.SlotsHoldIfNoneOvertaken` | pkg/sqs/sqs.go:134-222 | and then the slot invariant of the atomic counter holds |
| `CounterRace.ReachLostIncrement` | pkg/sqs/sqs.go:193-203 | the interleaving in which a handler is spawned inside a decrement, leaving a count of zero with one handler running |
| `CounterRace.MaximumCanBeExceeded` | pkg/sqs/sqs.go:134-222 | some interleaving runs more handlers than the maximum if and only if the maximum is at least two and the poller polls repeatedly, for at least one message, with a handler |
| `ShortNames.MatchIffSplits` | pkg/apiserver/web/encoding.go:22-27 | the search finds three groups if and only if the name splits into them |
| `ShortNames.SplitUnique` | pkg/apiserver/web/encoding.go:22-27 | a name splits in at most one way |
| `ShortNames.DashesBetweenGroups` | pkg/apiserver/web/encoding.go:30-31 | the dash name is the three groups with a dash between each |
| `ShortNames.DashNameInverts` | pkg/apiserver/web/encoding.go:22-32 | a dash name exists if and only if the name splits, and dropping its first two dashes gives the name back |
| `ShortNames.DashNameInjective` | pkg/apiserver/web/encoding.go:22-32 | no two names share a dash name |
| `Tiers.MergeTiersInPlace` | pkg/api/registry/v1/merge.go:35-63 | the in-place loop leaves the array that the function MergeTiers gives |
| `Tiers.MergeTiersAt` | pkg/api/registry/v1/merge.go:42-59 | number, order and names of tiers stay; the first tier of a name takes all sources of that name in order, the others nothing |
| `Tiers.LastValueStands` | pkg/api/registry/v1/merge.go:55 | of a tier and all sources merged into it, the last non-zero value of each field stands |
| `Tiers.LastLabelStands` | pkg/api/registry/v1/merge.go:55 | of each label and kernel parameter the last one given stands |
| `Tiers.TaintsFollow` | pkg/api/registry/v1/merge.go:55 | the taints of the sources follow those of the tier, in order |
| `Tiers.MergeTiersAppend` | pkg/api/registry/v1/merge.go:35-63 | merging two lists in turn is merging them end to end |
| `Tiers.HandlePools` | pkg/sync/parser/handler/awsmanagedmachinepool.go:34-87 | fails exactly on an unreadable pool; otherwise one tier per pool name in first-seen order, with the instance type, sizes, labels and taints of the last pool of that name and nothing else |
| `Tiers.PoolTiersNames` | pkg/sync/parser/handler/awsmanagedmachinepool.go:37-84 | one tier per pool name, in first-seen order |
| `Tiers.PoolTiersLast` | pkg/sync/parser/handler/awsmanagedmachinepool.go:68-84 | each tier is the last pool of its name |
| `Tiers.HandleEksConfigs` | pkg/sync/parser/handler/eksconfig.go:26-48 | fails exactly on an unreadable runtime; otherwise one tier per name in first-seen order, with the last runtime of that name and nothing else |
| `Tiers.EksTiersNames` | pkg/sync/parser/handler/eksconfig.go:29-45 | distinct names, exactly those of the configs |
| `Tiers.EksTiersLast` | pkg/sync/parser/handler/eksconfig.go:29-45 | each tier carries its name and the last runtime given for it, nothing else |
| `Tiers.TierJoin` | pkg/api/registry/v1/merge.go:35-63 | EKS tiers merged into pool tiers: one tier per pool name in first-seen order, the last pool with the last runtime of that name |
| `Tiers.ReverseJoin` | pkg/api/registry/v1/merge.go:35-63 | pool tiers merged into EKS tiers: one tier per config name in first-seen order, the last runtime with the last pool of that name, if any |
| `Parser.ResourceParser.RegisterHandlerForGVK` | pkg/sync/parser/parser.go:49-52 | adds or replaces one handler and leaves the buffer |
| `Parser.ResourceParser.SetBuffer` | pkg/sync/parser/parser.go:82-84 | replaces the buffer and leaves the handlers |
| `Parser.ResourceParser.MergeBuffer` | pkg/api/registry/v1/merge.go:20-22 | the buffer becomes its merge with the patch, with the tier join done in place |
| `Parser.ResourceParser.RunHandler` | pkg/sync/parser/parser.go:70-73 | the registered handler's loop gives the patch of the readable objects, or fails exactly when one is unreadable |
| `Parser.ResourceParser.Parse` | pkg/sync/parser/parser.go:54-76 | merges the handler's patch into the buffer, or fails and leaves the buffer alone |
| `Parser.ParsedInOrder` | pkg/sync/manager/controller.go:96-103 | parsing two readable resources is merging their patches in order, without an error |
| `Parser.ParsedExactly` | pkg/sync/manager/controller.go:96-117 | parsing any list of resources fails if and only if an error is given or some resource is not read; the error is the given one or that of the first such resource; the buffer takes what all the others add, in order |
| `Parser.LastFieldStands` | pkg/api/registry/v1/merge.go:20-22 | of the other fields the last value given stands |
| `Parser.PoolsThenEks` | pkg/sync/parser/parser.go:54-76 | parsing a pool resource with at least one object and then an EKS resource into a buffer without tiers reports no error, keeps the rest and gives one tier per pool name in first-seen order, with the fields of the last pool object and the runtime of the last config object of that name |
| `Parser.FailedListIsSilent` | pkg/sync/parser/parser.go:119-143 | when the API call fails, a list resource reports success and leaves the buffer; a named one is an error |
| `Parser.EmptyTiersStayEmpty` | pkg/api/registry/v1/merge.go:35-63 | an empty, not nil, tier list takes no tiers from any patch |
| `Parser.EksThenPools` | pkg/sync/parser/parser.go:54-76 | parsed in the other order: one tier per config name, with the fields of the last pool object of that name if any; all pools survive if and only if each has its config |
| `Watch.ReadsIff` | pkg/sync/parser/parser.go:100-144 | what an existing object must look like for a resource to read it |
| `Watch.ObjectsFound` | pkg/sync/parser/parser.go:100-144 | a named resource is found if and only if its object exists and the call succeeds, a listed one if and only if its selector parses |
| `Watch.GroupVersionRoundTrip` | pkg/sync/parser/parser.go:103-106 | a printed group and version is read back, and more than one slash is refused |
| `Watch.CheckSync` | pkg/sync/manager/controller.go:231-272 | the inner loop decides whether some watched resource triggers, or ends with an error if and only if one that does not parse is met before |
| `Watch.EnqueueRequests` | pkg/sync/manager/controller.go:213-278 | the requests are those of the triggered ClusterSyncs before the first at which the scan stops, or of the whole list if it stops at none |
| `Watch.RequestsExact` | pkg/sync/manager/controller.go:230-276 | a request for exactly the triggered ClusterSyncs, each once |
| `Watch.TriggersAsReadsIff` | pkg/sync/manager/controller.go:231-256 | for every resource that parses, in whatever namespace, triggering and reading agree on an object if and only if name, namespaces and selector agree as said |
| `Watch.AlignedAgrees` | pkg/sync/manager/controller.go:231-256 | they do for a resource in its ClusterSync's own namespace that does not set both a name and a selector |
| `Watch.TriggerIffRead` | pkg/sync/manager/controller.go:213-278 | where they agree, an object event triggers a ClusterSync if and only if parsing it would read that object |
| `Watch.RequestsIffRead` | pkg/sync/manager/controller.go:230-276 | among the requests sent for the event, those of the ClusterSyncs that the scan came to, there is one for a ClusterSync, and at most one, if and only if the scan came to it and parsing it would read the object |
| `SyncController.Controller.Reconcile` | pkg/sync/manager/controller.go:61-146 | the stored status and the queue move as Step says on the outcome the current objects give; a missing, unreadable or terminating object is left alone |
| `SyncController.OutcomeExactly` | pkg/sync/manager/controller.go:88-122 | a reconcile fails if and only if the initial data or some resource cannot be read, with the first of these errors; otherwise it yields the encoded merge of the initial data and all the resources |
| `SyncController.StepExactly` | pkg/sync/manager/controller.go:84-145 | the queue and every status field after each outcome and fault |
| `SyncController.UnreadResourceFails` | pkg/sync/manager/controller.go:99-117 | a resource that is not read publishes nothing and has its error recorded |
| `SyncController.SpecChangesPass` | pkg/sync/manager/controller.go:179-201 | a changed spec always passes the update predicate, any other update if and only if its hash is not that of its data |
| `SyncController.StatusCoherent` | pkg/sync/manager/controller.go:105-143 | under any failures a recorded hash comes with data of exactly that hash, and once recorded stays recorded |
| `SyncController.SelfTriggersIffNoHash` | pkg/sync/manager/controller.go:173-201 | in every reachable state the controller's own status write passes its update predicate if and only if no hash is recorded after it |
| `SyncController.PublishesExactlyChanges` | pkg/sync/manager/controller.go:84-145 | on runs with working enqueues and status writes the messages sent are exactly the changes in the data, failed syncs in between or not |
| `SyncController.LastPayloadIsCurrent` | pkg/sync/manager/controller.go:84-145 | after an error-free reconcile the last payload is the data just computed |
| `SyncController.ChangesEndWithLast` | pkg/sync/manager/controller.go:320-334 | the changes end with the last datum and no two neighbours are equal |
| `SyncController.RecordedDataNotSent` | pkg/sync/manager/controller.go:320-334 | while the data equal the recorded data nothing is sent, whatever fails |
| `SyncController.FailedSendIsForgotten` | pkg/sync/manager/controller.go:124-136 | data whose send failed but whose hash was recorded are never sent as long as they stay the same |
| `SyncController.CurrentAfterFaults` | pkg/sync/manager/controller.go:120-143 | the last payload is current if and only if the due send went through or it was current already |
| `SyncController.LostStatusWriteThenRevert` | pkg/sync/manager/controller.go:137-141 | after a lost status write, going back to the old data sends nothing |
| `SyncController.RecoveryVisibleIffNewData` | pkg/sync/manager/controller.go:84-145 | an error-free reconcile shows as a success if and only if the status did before or the data are new |
| `PathSyntax.PathRoundTrip` | pkg/client/controllers/servicemetadatawatcher_controller.go:177-184 | a rendered token list is read back as that list |
| `PathSyntax.TokenizeIsTexts` | pkg/client/controllers/servicemetadatawatcher_controller.go:177-184 | every text is read as some valid token list |
| `PathSyntax.NamesArePartsBetweenDots` | pkg/client/controllers/servicemetadatawatcher_controller.go:177-184 | a path without brackets is read as its non-empty parts between dots |
| `PathSyntax.RefusedIff` | pkg/client/controllers/servicemetadatawatcher_controller.go:177-184 | a path is refused if and only if it has only dots and opening brackets |
| `PathResolution.GetNestedString` | pkg/client/controllers/servicemetadatawatcher_controller.go:342-404 | the loop with its collected names and recursive calls ends and computes the function Get |
| `PathResolution.ResolvesAsWalk` | pkg/client/controllers/servicemetadatawatcher_controller.go:342-404 | where the naive walk reaches a scalar the resolver prints it, or panics in exactly the described cases |
| `PathResolution.PrintsIff` | pkg/client/controllers/servicemetadatawatcher_controller.go:342-404 | a text is printed if and only if it is the leaf of a naive walk without a panic over all tokens, or over a prefix after which only names follow and whose leaf is the document or was reached by a bracket |
| `PathResolution.PanicsIff` | pkg/client/controllers/servicemetadatawatcher_controller.go:342-404 | the resolver panics if and only if the naive walk gets, at the start or just after a bracket, to a value that is no map while a bracket is still to come or that cannot be printed; all else that is not printed is an error |
| `PathResolution.MissingIsError` | pkg/client/controllers/servicemetadatawatcher_controller.go:350-367 | a missing key, an index out of range or a text that is no index is an error where brackets have led to maps only |
| `PathResolution.ShowExactly` | pkg/client/controllers/servicemetadatawatcher_controller.go:375-401 | what is printed of a text, a boolean and a number |
| `PathResolution.PathTextResolves` | pkg/client/controllers/servicemetadatawatcher_controller.go:177-404 | the same end to end from the path text, with the panics on the other scalars |
| `PathResolution.IndexMeans` | pkg/client/controllers/servicemetadatawatcher_controller.go:350-360 | an index from zero up counts from the start, a negative one from the end, and any other text or number finds nothing |
| `Patches.PatchRoundTrip` | pkg/client/controllers/servicemetadatawatcher_controller.go:315-336 | applying the difference of two objects to the first gives the second, if that has no nulls |
| `Patches.SinglePatchSets` | pkg/client/controllers/servicemetadatawatcher_controller.go:315-336 | a single-path merge patch is an assignment at that path |
| `Patches.SetFrame` | pkg/client/controllers/servicemetadatawatcher_controller.go:219-236 | an assignment leaves every path that parts from its own |
| `Patches.SetsCommute` | pkg/client/controllers/servicemetadatawatcher_controller.go:219-236 | assignments at paths that part commute |
| `Patches.CreatedPatchIsSinglePath` | pkg/client/controllers/servicemetadatawatcher_controller.go:315-336 | the difference between an empty cluster and one with the value under service, namespace and field is the single-path patch |
| `Patches.DestinationsHoldLastValue` | pkg/client/controllers/servicemetadatawatcher_controller.go:219-236 | each destination ends with the last value written to it, or keeps its own |
| `Patches.RestOfDocumentUnchanged` | pkg/client/controllers/servicemetadatawatcher_controller.go:219-236 | everything off the written paths is unchanged |
| `Patches.PassAfterPartialPass` | pkg/client/controllers/servicemetadatawatcher_controller.go:219-236 | a complete pass makes good any earlier partial pass, in any order and repetition |
| `Patches.PassIsIdempotent` | pkg/client/controllers/servicemetadatawatcher_controller.go:219-236 | reapplying the whole list changes nothing |
| `Patches.PatchCluster` | pkg/client/controllers/servicemetadatawatcher_controller.go:226-232 | one cluster gets, in order, the patches whose calls succeed |
| `Patches.ApplyServiceMetadataPatches` | pkg/client/controllers/servicemetadatawatcher_controller.go:219-236 | every listed cluster is patched that way; nothing changes if the list call fails |
| `Patches.FailedPatchesAreSkipped` | pkg/client/controllers/servicemetadatawatcher_controller.go:226-236 | a destination holds the value of the last write to it whose patch call succeeded, or its own if none did, and the next complete pass repairs it |
| `MetadataWatcher.CollectFields` | pkg/client/controllers/servicemetadatawatcher_controller.go:133-162 | the loop over watched fields skips paths that do not parse or resolve and collects a patch for each of the others, in order |
| `MetadataWatcher.CollectPatches` | pkg/client/controllers/servicemetadatawatcher_controller.go:93-163 | the loop over watched objects, stopped by a bad version, a kind that is not allowed, an object that cannot be read or has no watched fields |
| `MetadataWatcher.Reconcile` | pkg/client/controllers/servicemetadatawatcher_controller.go:60-175 | a pass applies all collected patches to every cluster, and changes none if anything stops it |
| `MetadataWatcher.DocumentExactly` | pkg/client/controllers/servicemetadatawatcher_controller.go:94-131 | an object is read if and only if its version parses, its kind is allowed, it exists and has watched fields |
| `MetadataWatcher.PassGoesThroughIff` | pkg/client/controllers/servicemetadatawatcher_controller.go:70-163 | a pass goes through if and only if the watcher is not being deleted and watches something, its namespace has a service, every object can be read and no path leads the naive walk to a panic |
| `MetadataWatcher.MissingIsSkipped` | pkg/client/controllers/servicemetadatawatcher_controller.go:143-153 | a missing key or index is skipped and stops nothing |
| `MetadataWatcher.WatchedFieldsArrive` | pkg/client/controllers/servicemetadatawatcher_controller.go:91-236 | after an error-free pass every cluster holds, for each destination, the text of the last watched field for it that resolves, or what it held before |
| `MetadataWatcher.RestOfClusterUnchanged` | pkg/client/controllers/servicemetadatawatcher_controller.go:91-236 | everything apart from the watcher's service and namespace is unchanged |
| `MetadataWatcher.ResolvesToLeaf` | pkg/client/controllers/servicemetadatawatcher_controller.go:136-153 | a watched field resolves to a text if and only if that is the leaf of a plain walk through the watched object |
| `Common.SplitJoins` | pkg/client/webhook/webhook.go:144-148 | splitting the excluded tags at commas loses nothing |
| `Common.SplitAtSeparators` | pkg/client/webhook/webhook.go:144-148 | no part holds the separator |
| `Webhook.TaggedExactly` | pkg/client/webhook/webhook.go:135-156 | tags listed between commas in the annotation and tags that the alert does not mention never change, the others take the alert's value |
| `Webhook.ProgressComposes` | pkg/client/webhook/webhook.go:127-176 | a pass over a partly updated store ends where a pass over the original would |
| `Webhook.Server.SetTags` | pkg/client/webhook/webhook.go:144-156 | the loop over the alert's tags, in any order, sets exactly those that are not excluded |
| `Webhook.Server.UpdateClusterTags` | pkg/client/webhook/webhook.go:127-163 | an attempt updates the clusters before its failing one (and that one, if the write went through) and succeeds exactly when none fails |
| `Webhook.Server.Retry` | pkg/client/webhook/webhook.go:166-176 | success if and only if some attempt succeeds, and then the tags of one clean pass; otherwise each cluster is fully updated or untouched |
| `Webhook.Server.Process` | pkg/client/webhook/webhook.go:95-125 | the firing dead man's switch is left alone; otherwise the first rule for the alert applies its firing or resolved tags; unknown alerts and statuses are refused without a change |

## Left out

- ListClusters: assumes columns that agree with their specs, which `Protocol.RunKeepsIndex` proves of every reachable table; records written by other programs are not modelled.
- ListClustersWithService: assumes agreeing columns in the same way.
- ReadAllWindows: takes a positive limit and a sum within int64, outside which `Listing.WindowDefined` shows the source panics or never advances.
- RunsConverge: assumes that database calls succeed; `Eventual.DrainedQueueHoldsNewest` covers the runs where they do not.
- CachedListIsExact: the order in which the database returns a table's records is a parameter, of which only completeness and absence of repetition are asked.
- EnqueueRequests: the call that lists ClusterSyncs succeeds; a failure of it yields no requests.
- NeverBackIffNoneOvertaken: database calls succeed; faults are in the atomic model.
- Process: alert decoding and the HTTP answer around it are not modelled.
- ListClustersWithServiceAndFilter, GetClusterWithService: the same loops as the modelled listings over `ListClustersWithFilter` or one cluster.
- The v1 handlers, GET by name, PATCH, and the HTTP layer of the service endpoints: thin wrappers over the modelled calls.
- VPC, subnet, cluster and control-plane resource handlers: straight field extraction; the parser model has the two tier handlers.
- The watcher's event mapping and pkg/client/controllers/cluster_controller.go: easy members around the modelled core.
- AWS, Redis and Kubernetes clients: steps that may fail, with atomic single-object writes; the tag bookkeeping inside the cache store is not modelled.
- Concurrent reconciles over the shared parser buffer.
- Authentication, rate limiting, configuration, metrics, charts and generated code.
- Liveness in real time: sleeps, visibility timeouts and delays; only the cache's time to live has a clock.
