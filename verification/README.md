# A verified model of the tracing proxy's collector, caches, sharder and samplers

The proxy receives spans, keeps the spans of a trace together until the trace is due, asks a
sampler once whether to keep the trace, and then transmits or drops all its spans; it remembers
the decision for spans that come late. Several proxies share the work: a sharder names one owner
for each trace ID and a router forwards spans to it. This project models that core in Dafny and
proves what it promises over every run.

`dafny verify dfyconfig.toml` checks everything.

## How it is laid out

| file | what it holds |
|---|---|
| `Events.dfy`, `Ring.dfy`, `Order.dfy` | spans, traces, data sizes, cache impact; the ring of slots; string order and sorting |
| `CollectorModel.dfy` | the collector as a state machine on values: enqueue, process, tick, reload, flush |
| `CollectorSafety.dfy` | conservation of spans and decided-at-most-once, over every run |
| `CollectorHistory.dfy` | the principle by which facts about traces, decisions and outcomes are carried along a run |
| `CollectorTheorems.dfy` | one fate per trace ID, deadlines, rates, dry run |
| `CollectorSteps.dfy` | what each step does, said without the functions that compute it; offers, clock readings and sizes over every run |
| `CollectorEviction.dfy` | exactly one place for each span; the five ways out of the cache |
| `TraceCache.dfy` | `LiveTrace` and `InMemCache` as classes, and the cache as a sliding window |
| `Collector.dfy`, `CollectorLoop.dfy` | `InMemCollector` as a class; each method refines a function of the model, and the collecting loop makes a run of it |
| `LegacySent.dfy`, `LegacyCollector.dfy` | the LRU of decisions, alone and driven by the collector |
| `Cuckoo.dfy`, `CuckooCollector.dfy` | the two-generation filter under interleaving, the sent cache over it, and that cache driven by the collector |
| `Sharder.dfy`, `Routing.dfy` | peer tables, rendezvous and legacy assignment, concurrent reloads; the router and a cluster of nodes |
| `Batches.dfy` | splitting an export into batches |
| `Deterministic.dfy`, `Rules.dfy`, `TraceKey.dfy` | the samplers and the dynamic-sampling key |
| `SampledRuns.dfy` | whole runs with the legacy sent cache and these samplers |

The sampler, the clocks, the memory reading, the answers of the sent cache, the order in which
ties are sorted and the hash functions are parameters. A theorem restricts them only by what it
names: `Conservation` and `DecidedAtMostOnce` hold for all of them.

In the collector classes a method is proved equal to a function of the model on the abstract
state `View()`; the theorems are about the model, and `CollectorLoop.Collect` says that what the
heap implementation does is one of its runs.

## Where the code does not do what one might expect

- `Set` keeps ring and index in agreement exactly when the ID is not cached
  (`TraceCache.SetAgreesIffAbsent`); `processSpan` only ever calls it that way.
- A cache asked for 0 slots has 10000, so shrinking from one trace enlarges the ring
  (`CollectorEviction.ShrinkEvictsEarliest` states the size).
- The cuckoo sent cache reports dropped traces as not found, against the comment of the
  interface (`Cuckoo.FoundIff` says when it finds, `CuckooCollector.LateSpanOfDroppedIsTransmitted`
  what can come of it). That late spans obey an earlier decision, for any sampler, is therefore
  stated with the legacy cache (`LegacyCollector.LateSpansObey`).
- A join that changes the number of partitions per peer can move a trace between two old peers
  (`Sharder.MovesBetweenOthers`); `Sharder.MovesElsewhereIff` says exactly when.
- If the last item of an export is oversized the open batch is never flushed; `Batches.Split`
  says exactly when, and that no more than one batch is lost.
- A later root span moves the deadline again, so arrival plus timeout bounds only traces without
  a root (`CollectorTheorems.DeadlinesFollowRoots`).
- The deterministic sampler truncates its rate to 32 bits. It is fair exactly for the rates from
  1 to 2^32 - 1 (`Deterministic.FairIff`), a rate of 2^32 + 2 keeps half of all traces
  (`Deterministic.HugeRateIsUnfair`; `KeepsFewerIff` says when a higher rate keeps fewer), and a
  rate that truncates to 0 panics in `Start`.
- In dry run the decision field can be overwritten by fields written after it;
  `CollectorTheorems.DryRunDropsNothing` gives the exact condition.
- The comparator of the impact sort reads the clock. On a clock that runs behind the arrival of a
  span an impact of 0 can be recomputed as another value (`Events.ImpactCanMove`, and
  `ImpactIsStableIff` for when the value is fixed); the order is then promised to be a permutation
  only. `Collector.SortByImpact` and `CollectorLoop.Collect` say when it is sorted.

## Model

| member | source | states |
|---|---|---|
| CollectorSafety.Conservation | collect/collect.go:437-589 | After every run, for any sampler, sent-cache answers, clocks and memory readings, the accepted spans, each with its identity, trace ID, rate and data, are as a multiset exactly the spans queued, pending in cached traces, transmitted and dropped: nothing is lost, duplicated or altered by deadline, overrun, reload, shrink or impact eviction |
| CollectorSafety.OutcomesWereAccepted | collect/collect.go:437-589 | Every settled span is one that was accepted, with the trace ID, rate and data it was accepted with |
| CollectorSafety.DecidedAtMostOnce | collect/collect.go:652-663 | In every reachable state no cached trace is marked sent or has been decided, trace IDs in the cache are distinct, no trace object was offered to a sampler or recorded twice, and the count recorded for one is the number of spans settled with it; so the sent-trace branch of processSpan never fires |
| CollectorSafety.StepKeeps | collect/collect.go:456-518 | Every step of the machine keeps the invariant (conservation, unsent and undecided cached traces with unique IDs and serials) |
| CollectorSafety.SendKeeps | collect/collect.go:652-663 | Sending a trace taken out of the cache turns its pending spans into settled ones and records it once |
| CollectorSafety.HandOver | collect/collect.go:262-425 | Whenever the cached traces are split between those sent and those in a new ring, the invariant survives: the shape shared by expiry, shrink, reload and eviction |
| CollectorSafety.ExpiryKeeps | collect/collect.go:520-529 | Sending expired traces keeps the invariant |
| CollectorSafety.ShrinkKeeps | collect/collect.go:324-349 | The 10% shrink keeps the invariant, whichever way ties are sorted |
| CollectorSafety.ReloadKeeps | collect/collect.go:269-281 | A reload keeps the invariant |
| CollectorSafety.ProcessKeeps | collect/collect.go:533-589 | Processing a span moves it from hand to exactly one place, whether it is late, joins a trace or starts one, and whether or not a trace is pushed out |
| CollectorSafety.RemovalMatches | collect/collect.go:400-411 | Removing the IDs that were sent removes exactly the traces that were sent |
| CollectorSafety.EvictKeeps | collect/collect.go:371-411 | Impact eviction keeps the invariant |
| CollectorSafety.RunKeeps | collect/collect.go:456-518 | The invariant holds after every run |
| CollectorSafety.InitialHolds | collect/collect.go:95-101 | The invariant holds of a fresh collector |
| CollectorHistory.RunFacts | collect/collect.go:456-518 | A fact about cached traces, decisions and outcomes that every permitted step is obliged to keep holds after every permitted run |
| CollectorHistory.ProcessFacts | collect/collect.go:533-589 | The part of that principle for processing a span |
| CollectorHistory.AllocFacts | collect/collect.go:300-425 | The part of that principle for both memory checks |
| CollectorTheorems.OneFatePerTrace | collect/collect.go:533-616 | With a sampler that decides by trace ID, a truthful sent cache and dry run off, every settled span is transmitted exactly when its trace ID is kept, however often the trace was evicted and re-created |
| CollectorTheorems.DeadlinesFollowRoots | collect/collect.go:549-588 | With fixed timeouts, in every reachable state a cached trace all of whose spans name a parent is due at arrival + TraceTimeout; otherwise RootSpan is the last span of its list that names none and it is due at that span's processing time + SendDelay |
| CollectorTheorems.RatesApplyOnce | collect/collect.go:594-638 | Every settled span is an accepted one and carries out a recorded decision: the one for the very trace object it was sent with, or one for its trace ID if it came late; transmitted, it leaves with max(1, accepted rate) times the decided rate (64-bit), multiplied in once, at least 1 if kept, with the accepted rate written down if the decided one is not 1, with the sampler's key in its field unless the collector wrote over it, and with its accepted data but for the fields sampler and collector are configured to write; only a late span that dry run lets pass keeps its rate |
| CollectorTheorems.DressedOutside | collect/collect.go:836-858 | The transmit loop multiplies the rate in once, changes only the sampler's field and the fields it is configured to write, and leaves the sampler's key unless it writes over it |
| CollectorTheorems.LateHonoured | collect/collect.go:594-638 | A late span carries out the decision found for it and only configured fields change |
| CollectorTheorems.MarksAsConfigured | sample/trace_key.go:31-41 | Over every run only fields that samplers mark are marked, and late spans never |
| CollectorTheorems.DryRunDropsNothing | collect/collect.go:824-858 | With dry run on throughout, every settled span was transmitted, and carries its decision in the configured field if and only if the collector did not write the host name, the original rate or, on a late kept root, the span count there afterwards |
| CollectorSteps.OfferTakenIffRoom | collect/collect.go:437-449 | An offered span goes to the end of its queue and counts as accepted exactly when the queue has room; nothing else changes |
| CollectorSteps.AcceptedWereAdmitted | collect/collect.go:428-449 | Over every run what was accepted is what was offered while its queue had room, in that order |
| CollectorSteps.QueuesAreFifo | collect/collect.go:475-512 | Over every run each queue holds what it admitted, less as many from the front as Process steps took from it |
| CollectorSteps.OffersConserved | collect/collect.go:437-589 | Conservation counted from the offers: with queues of three times the capacity, the spans offered while there was room are exactly those queued, pending and settled |
| CollectorSteps.SendTells | collect/collect.go:800-858 | Sending an unsent trace asks the sampler once, about the trace with its root told the number of spans; records that answer with that number; and settles every span by it, in order, transmitted exactly if kept or in dry run, and told the reason, the number of spans if it names no parent, the host name and its original rate as configured |
| CollectorSteps.LateTells | collect/collect.go:594-616 | A late span is transmitted exactly if kept or in dry run, and a kept one that names no parent is told the remembered number of spans |
| CollectorSteps.SpanJoins | collect/collect.go:533-588 | A span whose trace is cached becomes the last span of that trace, stamped with the readings of its step and sized; without a parent it is the root and the trace is due SendDelay (2 s by default) after its reading; nothing else changes |
| CollectorSteps.SpanStartsTrace | collect/collect.go:545-588 | A span of a trace neither cached nor known gets a trace in the next slot that arrived at the reading of its creation and is due TraceTimeout (60 s by default) later, or SendDelay after its reading if it names no parent; an unsent trace found there is sent |
| CollectorSteps.SpanIsLate | collect/collect.go:535-544 | A span the sent cache knows is settled and changes no trace |
| CollectorSteps.ProcessTakesHead | collect/collect.go:475-512 | A Process step treats the first span of its queue so |
| CollectorSteps.TickTakesExactlyDue | collect/collect.go:520-529 | Without memory trouble a tick decides exactly the traces whose deadline is before now, in slot order, and leaves every other trace in its slot |
| CollectorSteps.TickExpiresFirst | collect/collect.go:484-493 | A tick with memory trouble is the memory check made after that |
| CollectorSteps.MemoryFineKeeps | collect/collect.go:306-319 | Memory checks do nothing without a known limit, below it, or, for the resize strategy, with a ring of fewer than 100 slots |
| CollectorSteps.SameCapacityKeeps | collect/collect.go:270-284 | A reload that finds the capacity of the ring changes nothing |
| CollectorSteps.ArrivalsAreReadings | collect/collect.go:554-586 | Over every run each cached trace arrived at the creation reading of the step of its first span, and each of its spans carries the readings of the step that processed it |
| CollectorSteps.SizesAddUp | types/event.go:84-95 | Over every run the size of a cached trace is that of the data of its spans |
| CollectorSteps.WeightIsData | collect/collect.go:400-410 | So what the eviction loop adds up is data |
| CollectorSteps.EvictsByData | collect/collect.go:371-411 | Over the limit, impact eviction in order of impact stops as soon as the data sent outweighs the overage, read as a signed 64-bit number, and not before |
| CollectorSteps.AsInt64IsSigned | collect/collect.go:407-407 | That number is the one congruent modulo 2^64, and the overage itself below 2^63 |
| CollectorSteps.OlderGoesFirst | types/event.go:173-180 | Of two cached traces with spans of the same sizes, one that is older by a quarter of the timeout when asked is evicted before the other |
| CollectorEviction.ExactlyOnePlace | collect/collect.go:437-589 | A span accepted once is, with its trace ID, rate and data, in exactly one of: a queue, exactly one cached trace, exactly one outcome |
| CollectorEviction.AcceptedOnce | route/route.go:599-607 | Spans with identities of their own are each accepted once |
| CollectorEviction.FlushSettlesEverything | collect/collect.go:861-884 | After the flush of Stop every accepted span is settled or still queued |
| CollectorEviction.SendAllRecords | collect/collect.go:652-663 | Sending a list of unsent traces records one decision for each, in order |
| CollectorEviction.RebuildEjectsNothing | collect/collect.go:343-349 | No Set of a rebuild finds its slot occupied |
| CollectorEviction.ReloadLosesNothing | collect/collect.go:269-281 | After a reload the old traces are the disjoint union of those sent (beyond the capacity, in slot order) and those cached, and the ring has the asked size, 10000 if asked for 0 |
| CollectorEviction.ShrinkEvictsEarliest | collect/collect.go:324-349 | After a shrink the old traces are the disjoint union of those sent and those cached, the number sent is n - floor(0.9 n), and no trace that stays was due before one that was sent |
| CollectorEviction.OverLimitShrinks | collect/collect.go:306-349 | At or over the limit, with a ring of at least 100 slots, the resize strategy does just that |
| CollectorEviction.EvictsHeaviest | collect/collect.go:371-411 | When the sort is in order of impact, eviction sends and removes exactly the shortest non-empty prefix in descending memoised impact whose data outweighs the overage, or everything; each impact is the one its trace had when asked, and every evicted impact is at least every remaining one |
| CollectorEviction.CutIsUnique | collect/collect.go:403-410 | Order and overage determine how many traces are evicted |
| CollectorEviction.TickLeavesNoneOverdue | collect/collect.go:483-493 | Right after a tick at `now`, memory check included, no cached trace is due before `now` |
| CollectorLoop.Collect | collect/collect.go:456-518 | The collecting loop over the heap implementation makes a run of the model that follows the wake-ups: for each one its offers in order, then what it leads to; its state satisfies the safety invariant, and if the wake-ups are in order of time, every impact eviction of the run is in order of impact |
| CollectorLoop.Turn | collect/collect.go:475-516 | One turn is the step the wake-up calls for: the first span from a peer if there is one, else a tick, a reload, or the first incoming span if there is one; with time passing forwards an eviction is in order of impact |
| CollectorLoop.OfferAll | collect/collect.go:428-449 | The AddSpan calls are the Enqueue steps of the offers, in order |
| CollectorLoop.ArrivalsKept | types/event.go:84-95 | The spans of cached traces arrived in the past, at every step of a run with a clock that does not run backwards |
| Collector.InMemCollector.Add | collect/collect.go:437-449 | Exactly when its queue has room the span is put at its end and counts as accepted, and the caller is told so; otherwise nothing changes |
| Collector.InMemCollector.Transmit | collect/collect.go:833-858 | The transmit loop yields exactly the dressed outcomes of the trace's spans, in order, the key a dynamic sampler left on them included |
| Collector.InMemCollector.Send | collect/collect.go:652-858 | A trace already sent is skipped; otherwise it is marked, decided once, recorded, and all its spans, with what the sampler wrote on them, settled as the model says |
| Collector.InMemCollector.SendEach | collect/collect.go:343-345 | Sending a list of traces logs what sending them one after the other logs, and touches no other trace |
| Collector.InMemCollector.SendTracesInCache | collect/collect.go:520-529 | Refines the expiry step of the model: slots with a deadline before now are cleared and no other |
| Collector.InMemCollector.DealWithSentTrace | collect/collect.go:594-616 | Adds exactly the late outcome of the span |
| Collector.InMemCollector.LateSpan | collect/collect.go:537-544 | A span whose trace the sent cache knows is settled and touches no trace |
| Collector.InMemCollector.CreateTrace | collect/collect.go:549-569 | A new trace enters the ring and an unsent trace it pushes out is sent |
| Collector.InMemCollector.AttachSpan | collect/collect.go:577-588 | The span joins the cached trace and a root span sets deadline and root |
| Collector.InMemCollector.ProcessSpan | collect/collect.go:533-589 | Refines the processing function of the model in all cases |
| Collector.InMemCollector.TakeSpan | collect/collect.go:476-505 | Taking a span from a queue and processing it is one step of the model |
| Collector.InMemCollector.Redistribute | collect/collect.go:274-280 | The reload loop Sets the first traces into the new cache and sends the others |
| Collector.InMemCollector.ReloadConfigs | collect/collect.go:262-298 | Refines the reload step |
| Collector.InMemCollector.CachedByDeadline | collect/collect.go:337-340 | All cached traces, each once, sorted by deadline |
| Collector.InMemCollector.ShrinkCache | collect/collect.go:324-349 | Refines the shrink of the model |
| Collector.InMemCollector.OldCheckAlloc | collect/collect.go:300-355 | Shrinks exactly when a limit is set, memory is at or over it and the ring has at least 100 slots |
| Collector.InMemCollector.CachedByImpact | collect/collect.go:384-391 | All cached traces, each once, memoised, for any clock; sorted by memoised impact if no reading is behind an arrival, although every comparison reads the clock again |
| Collector.InMemCollector.SendHeaviest | collect/collect.go:400-410 | Sends the shortest non-empty prefix that outweighs the overage and returns exactly its IDs |
| Collector.InMemCollector.RemoveSent | collect/collect.go:411-411 | Clears exactly the slots holding those IDs |
| Collector.InMemCollector.NewCheckAlloc | collect/collect.go:357-425 | Refines the impact eviction of the model for any clock, and in order of impact if no reading is behind an arrival |
| Collector.InMemCollector.Tick | collect/collect.go:484-493 | Refines the tick step: expiry, then the configured memory check |
| Collector.InMemCollector.Stop | collect/collect.go:861-884 | Records and settles what the flush of the model does |
| Collector.SortByDeadline | collect/collect.go:337-340 | A permutation in order of deadline |
| Collector.SortByImpact | collect/collect.go:388-391 | A permutation for any clock, with every trace asked if there are two or more; in descending impact if no reading is behind an arrival |
| Collector.Heavier | collect/collect.go:389-391 | A comparison asks both traces, memoises, and gives the order of what it memoised; an answer given on a clock not behind the arrivals is the answer for good |
| Collector.AskedAgain | types/event.go:99-106 | Asking a trace again leaves what a single call at some readings would have left, for any clock and timeout |
| Collector.AskingStabilises | types/event.go:99-106 | After one call on a clock not behind the arrivals the answer no longer depends on the clock |
| Collector.FindsIndexed | collect/collect.go:534-535 | Get by map and search by slot find the same trace |
| Events.GetDataSize | types/event.go:145-165 | The loop over the map computes the sum of the sizes of its values |
| Events.SizeOfField | types/event.go:145-165 | One more field adds a byte for a bool, the length of a text, 8 otherwise |
| Events.DataSizeAny | types/event.go:145-165 | That sum does not depend on the order in which the map is walked |
| Events.RootsNameNoParent | collect/collect.go:640-650 | A root is a span with no value in either parent field |
| Events.ImpactOfSpan | types/event.go:173-180 | The impact of a span is its size times one more than the quarters of the timeout since its arrival, truncated toward zero, for any clock and timeout but zero |
| Events.ImpactByAge | types/event.go:173-180 | On a clock not behind, it is m times the size for the one m with (m - 1) timeouts at most four ages and m timeouts more |
| Events.OlderWeighsMore | types/event.go:173-180 | Impact does not fall with age, and a quarter of the timeout adds at least the size |
| Events.ImpactOfSpans | types/event.go:99-106 | The impact of a trace adds up its spans, each at its own reading of the clock |
| Events.OlderSpansWeighMore | types/event.go:99-106 | Spans of the same sizes that are older by a quarter of the timeout weigh at least their data more |
| Events.ZeroImpactMeansNoData | types/event.go:173-180 | With time passing forwards impacts are non-negative, and 0 only for spans without data |
| Events.NoDataMeansZeroImpact | types/event.go:173-180 | Spans without data have impact 0 at every time |
| Events.ImpactIsStable | types/event.go:99-106 | Every call of CacheImpact after the first answers the same whatever the clock says, including the value 0 that is never memoised |
| Events.ImpactIsStableIff | types/event.go:99-106 | For any clock and any timeout but zero, the first call fixes the value if and only if it found one other than 0 or the trace has no data |
| Events.ImpactCanMove | types/event.go:173-180 | A clock a quarter of the timeout behind the arrival of a span weighs it as 0, and a later call weighs it anew |
| TraceCache.LiveTrace.AddSpan | types/event.go:84-95 | The span is stamped and appended, its size added, the memo cleared |
| TraceCache.LiveTrace.CacheImpact | types/event.go:99-106 | Returns and memoises the impact of the trace, reading the clock once for each span it weighs |
| TraceCache.SetAgreesIffAbsent | collect/cache/cache.go:94-109 | Set keeps ring and index in agreement if and only if the ID is not cached |
| TraceCache.AlwaysAgree | collect/cache/cache.go:75-160 | Ring and index hold the same traces after every legal history |
| TraceCache.RingIsWindow | collect/cache/cache.go:75-111 | The slots, read backwards from the insert point, are the last `capacity` Sets less what was taken or removed |
| TraceCache.GetIsWindow | collect/cache/cache.go:113-115 | Get(id) returns t exactly when t with that ID is among the last `capacity` traces Set and was not taken or removed since |
| TraceCache.SetEjectsOldest | collect/cache/cache.go:94-109 | A Set finds t in its slot exactly when t was Set `capacity` Sets before it and not taken or removed since; every trace in another slot was Set later |
| TraceCache.RecentIsSurvivor | collect/cache/cache.go:75-160 | The entry of age a in the window is the trace Set a Sets ago, if it was not taken or removed since |
| TraceCache.RemoveAgrees | collect/cache/cache.go:148-160 | Clearing by ID keeps ring and index in agreement |
| TraceCache.ClearIsRemove | collect/cache/cache.go:131-144 | Taking expired traces is a removal of their IDs |
| TraceCache.RemoveTracesIsRemove | collect/cache/cache.go:148-160 | RemoveTraces is a removal of the given IDs |
| TraceCache.InMemCache.Set | collect/cache/cache.go:75-111 | The new value of the cache is that of the model; returned is the ejected trace if it was unsent, else nothing |
| TraceCache.InMemCache.Get | collect/cache/cache.go:113-115 | Exactly the trace the index holds under the ID, if any |
| TraceCache.InMemCache.GetAll | collect/cache/cache.go:119-127 | The occupied slots in slot order |
| TraceCache.InMemCache.TakeExpiredTraces | collect/cache/cache.go:131-144 | Returns, in slot order, exactly the traces that stood in a slot with a deadline before now; their slots and index entries are cleared and all others unchanged |
| TraceCache.InMemCache.RemoveTraces | collect/cache/cache.go:148-160 | Clears exactly the slots whose trace ID is in the set |
| Ring.Empty | collect/cache/cache.go:57-66 | A new cache has the asked number of slots, 10000 if asked for 0, all empty, and inserts at the first |
| Ring.ItemsMember | collect/cache/cache.go:119-127 | GetAll holds exactly the traces that stand in some slot |
| Ring.ItemsHome | collect/cache/cache.go:119-127 | Each item of GetAll comes from its own slot, in slot order |
| Ring.RebuildFits | collect/cache/cache.go:57-66 | As many traces as the capacity, Set into an empty cache, stand in order in the first slots |
| Ring.RebuildKeepsAll | collect/cache/cache.go:119-127 | GetAll of a rebuilt cache is exactly what was put into it |
| LegacySent.RememberedIff | collect/cache/legacySentCache.go:56-74 | A recorded decision is remembered exactly while fewer than `capacity` distinct other IDs were recorded or found since its own ID last was; while it is, Check answers the recorded keep and rate and a count of the spans at decision plus all hits since |
| LegacySent.OnlyRecorded | collect/cache/legacySentCache.go:56-64 | Every remembered entry was recorded under its ID |
| LegacySent.LegacySentCache.RecordDecision | collect/cache/legacySentCache.go:56-64 | The new list is the old one with the entry newest, the oldest dropped if full |
| LegacySent.LegacySentCache.CheckSpan | collect/cache/legacySentCache.go:66-74 | A hit counts the span, makes the entry newest and returns it; a miss changes nothing |
| LegacyCollector.LegacyRunIsTruthful | collect/collect.go:537-543 | Collector and legacy cache together make a run in which every answer is the last decision recorded for that trace ID |
| LegacyCollector.ChecksAreUncached | collect/collect.go:534-537 | Over every run the sent cache is asked exactly for the spans whose trace is not cached, in order |
| LegacyCollector.AnswerIsLast | collect/cache/legacySentCache.go:56-74 | For a trace ID that was decided the cache answers the last decision, with the spans counted since, if fewer distinct other IDs were recorded or found since than it holds, and nothing otherwise |
| LegacyCollector.LateSpansObey | collect/collect.go:533-569 | After any run, under any sampler, a span whose trace is not cached but was decided is settled by the last decision for its ID, and counted, if fewer distinct other IDs were used since than the cache holds; otherwise a new trace is created for it and the span attached |
| LegacyCollector.LateDropObeyed | collect/collect.go:594-616 | So outside dry run a remembered drop drops the late span |
| LegacyCollector.LegacyOneFate | collect/collect.go:533-616 | With the legacy cache of any capacity, a sampler deciding by trace ID and dry run off, all settled spans of a trace ID meet the fate its decision says |
| Cuckoo.AlwaysInv | collect/cache/cuckoo.go:46-90 | At every interleaving of writers and the maintainer's critical sections each filter holds exactly the IDs added since it was created |
| Cuckoo.FindsExactlyAddedSince | collect/cache/cuckoo.go:46-64 | At every interleaving current is never nil, future is part of current, and Check finds exactly the IDs added since current was created |
| Cuckoo.RotationKeepsRecent | collect/cache/cuckoo.go:66-90 | A rotation has a future filter to rotate to, and afterwards Check finds exactly the IDs added since that one was created |
| Cuckoo.RoundIs | collect/cache/cuckoo.go:66-90 | An undisturbed round changes nothing up to half load, then sees to a future filter, and above 99 percent rotates; filters are made with the capacity set last |
| Cuckoo.RotatesOnlyWhenFull | collect/cache/cuckoo.go:84-97 | Only a rotation at a load above 99 percent replaces the current filter, and setting the next capacity touches no filter |
| Cuckoo.CuckooSentCache.RecordDecision | collect/cache/cuckooSentCache.go:122-136 | Kept traces go to the LRU, dropped ones to the filter, and are found there |
| Cuckoo.CuckooSentCache.CheckSpan | collect/cache/cuckooSentCache.go:138-156 | Found means remembered as kept and not as dropped; only a hit changes anything |
| Cuckoo.CuckooSentCache.Resize | collect/cache/cuckooSentCache.go:158-189 | The copying loop keeps exactly the newest entries that fit, in order, schedules the filter's next capacity and, once the running monitor is between rounds, hands over to a new one; a size of 0 is refused and changes nothing |
| Cuckoo.NewestIs | collect/cache/cuckooSentCache.go:164-179 | What is copied is the end of the recency list, as long as fits |
| Cuckoo.FoundIff | collect/cache/cuckooSentCache.go:138-156 | At every interleaving Check finds an ID if and only if it is remembered as kept and was not dropped since the current filter was created; it answers the entry with the span counted |
| CuckooCollector.CuckooRunIsTruthful | collect/collect.go:537-543 | Collector and cuckoo cache together, with the monitor interleaved, resizes and any false alarms of the filter, make a run in which every answer is the last decision to keep a trace of that ID |
| CuckooCollector.FoundInRunIff | collect/cache/cuckooSentCache.go:138-156 | After any run a consulted span is answered if and only if no alarm is raised, no trace of its ID was dropped since the current filter was created, and it is remembered as kept; the answer is the last decision to keep it, so a drop is never obeyed from memory |
| CuckooCollector.RunFiltered | collect/cache/cuckooSentCache.go:122-136 | Over every run the filter was told of exactly the traces that were dropped, in order |
| CuckooCollector.KeptFollows | collect/cache/cuckooSentCache.go:122-180 | A step does to the LRU of kept traces what its successful Check and its decisions to keep ask for, and a reload then keeps the newest that fit |
| CuckooCollector.CuckooOneFate | collect/collect.go:533-616 | With the cuckoo cache, a sampler deciding by trace ID and dry run off, all settled spans of a trace ID meet one fate |
| CuckooCollector.CuckooRates | collect/collect.go:594-638 | With the cuckoo cache and samplers that keep nothing at rate 0, every settled span is accounted for as in RatesApplyOnce |
| CuckooCollector.LateSpanOfDroppedIsTransmitted | collect/cache/cuckooSentCache.go:140-143 | A run in which a trace is dropped, the filter knows it, and a late span of it is transmitted |
| Order.SortedUnique | sharder/deterministic.go:267-268 | A list sorted by a connected order is determined by its elements, whatever the algorithm |
| Order.LexLessIff | sharder/deterministic.go:56-64 | One string is less than another exactly if at the first difference it ends or has the smaller character |
| Sharder.ShardOrderConnected | sharder/deterministic.go:56-64 | Two shards that are not ordered either way are equal |
| Sharder.ShardOrderIs | sharder/deterministic.go:56-64 | Shards are ordered by host, then scheme, then port |
| Sharder.AddressRoundTrip | sharder/deterministic.go:79-81 | An address is scheme, ://, host, colon and port; if scheme and port hold no colon, reading it back gives the shard |
| Sharder.AddressDetermines | sharder/deterministic.go:79-81 | So two such shards with one address are equal |
| Sharder.GetHashesFor | sharder/deterministic.go:89-102 | The loop hashes the peer's address with a chain of seeds that starts at the peer seed, each one the hash of the one before |
| Sharder.TableIs | sharder/deterministic.go:288-299 | The table of n peers holds exactly their 50 / n + 1 first partitions each, sorted by hash |
| Sharder.PartitionsArePrefixes | sharder/deterministic.go:89-102 | A peer's partitions at a smaller count are a prefix of those at a larger one |
| Sharder.WhichShardHashed | sharder/deterministic.go:359-375 | The loop finds the first strict maximum over the partitions, index 0 by default |
| Sharder.BestIsFirstMax | sharder/deterministic.go:365-373 | That maximum is at least every score and is reached, unless all scores are 0 |
| Sharder.BestInRange | sharder/deterministic.go:359-375 | The chosen index is in range for every table built from a non-empty list |
| Sharder.OwnerWins | sharder/deterministic.go:359-375 | The owner holds the highest score of all partitions of all peers; if every score is 0 it is the least peer |
| Sharder.OwnerPrevails | sharder/deterministic.go:359-375 | With distinct partition hashes a peer owns a trace if and only if it holds the best score of all peers, or nobody scores and it is the least peer |
| Sharder.OnlyXTakes | sharder/deterministic.go:359-375 | At any number of partitions per peer with distinct hashes, when x joins a trace keeps its owner or goes to x, despite shifting indices, ties and the all-zero default |
| Sharder.FewerPartitionsKeep | sharder/deterministic.go:89-102 | A trace won by one of the partitions that remain keeps its owner when every peer has fewer partitions |
| Sharder.MovesElsewhereIff | sharder/deterministic.go:288-299 | For any peer counts, a trace that the joining peer does not take keeps its owner if and only if that owner still has the best score among the old peers at the smaller number of partitions |
| Sharder.MorePeersFewerPartitions | sharder/deterministic.go:288-292 | One more peer never means more partitions per peer |
| Sharder.OnlyTracesOfXMove | sharder/deterministic.go:288-299 | Between a peer list and the same list without x, with distinct partition hashes, a trace keeps its owner unless x owns it in the larger list, if the number of partitions is equal, or the trace is won by a partition that remains, or nobody scores |
| Sharder.MovesBetweenOthers | sharder/deterministic.go:288-299 | Distinct hashes, and a trace that moves from one old peer to the other when a third joins two |
| Sharder.SamePeersSameTable | sharder/deterministic.go:267-299 | Peer lists equal up to order give the same table, whatever sorts the peers |
| Sharder.LegacyIndex | sharder/deterministic.go:339-348 | The index is in range for every hash value |
| Sharder.LegacyShares | sharder/deterministic.go:336-348 | For every n from 1 to 2^32 - 1 each peer but the first owns exactly floor((2^32 - 1) / n) consecutive hash values, in peer order, and the first as many at the beginning and between 1 and n more at the end |
| Sharder.DeterministicSharder.LoadPeerList | sharder/deterministic.go:239-314 | Succeeds exactly for a non-empty list all of which parses; then the peers are that list in order and the table the one computed from it; otherwise the table is left alone |
| Sharder.ParsePeers | sharder/deterministic.go:253-265 | All peers in order, or a refusal if any does not parse |
| Sharder.HashPeers | sharder/deterministic.go:289-295 | The partitions of all peers, each naming its peer's index |
| Sharder.ReadersSeeWholeTables | sharder/deterministic.go:301-313 | At every interleaving of any number of reloads, which give up the read lock before they take the write lock, readers see peers and hashes that belong together and an index in range |
| Routing.Router.ProcessEvent | route/route.go:552-612 | An event that names no trace goes upstream; one from outside for another owner goes to the peers with that owner's scheme, host and port as its address; any other is offered to the collector's right queue, or refused because that is full |
| Routing.TraceIdIs | route/route.go:561-571 | The trace ID is the text of traceTraceID, or of traceId if the event has no traceTraceID |
| Routing.AtMostOneHop | route/route.go:583-607 | With any views at all an event crosses between nodes at most once, and leaves upstream exactly when it has no trace ID |
| Routing.OneCollectorPerTrace | route/route.go:583-607 | When the nodes' peer lists are equal up to order, all events of a trace are collected at the node of one owner, whichever node they came in at, under either strategy |
| Batches.Split | pkg/libtrace/transmission/transmission.go:564-590 | Batches are non-empty, within the limit and next-fit; their concatenation is a prefix of the items that fit, and is all of them if and only if nothing fits or the last item fits; what is missing would fit one batch |
| Batches.WithinTwiceOptimal | pkg/libtrace/transmission/transmission.go:564-590 | Next-fit makes at most 2k - 1 batches, where k is the number in any legal split of the same items |
| Batches.PairsOutweigh | pkg/libtrace/transmission/transmission.go:577-581 | Any two consecutive batches together outweigh the limit |
| Deterministic.DeterministicSampler.Start | sample/deterministic.go:25-36 | Succeeds exactly when the truncated rate is not 0, and then sets rate and bound |
| Deterministic.DeterministicSampler.GetSampleRate | sample/deterministic.go:38-45 | Keeps a trace exactly when its hash is one the rate keeps, and reports a rate of at least 1 |
| Deterministic.KeptCount | sample/deterministic.go:28-45 | How many of the 2^32 hash values a rate keeps |
| Deterministic.KeptIff | sample/deterministic.go:28-45 | For every rate from 1 to 2^32 - 1 the kept hash values are those that times the rate stay below 2^32 |
| Deterministic.FairIff | sample/deterministic.go:28-45 | 2^32 <= K * r <= 2^32 - 1 + r holds of the number K of kept values if and only if 1 <= r < 2^32 |
| Deterministic.HugeRateIsUnfair | sample/deterministic.go:33-33 | A rate of 2^32 + 2 keeps half of all hash values, among them some that a rate of 3 drops |
| Deterministic.KeepsFewerIff | sample/deterministic.go:28-45 | For any two rates, what the higher keeps the lower keeps too if and only if the lower is at most 1 or the truncated rates leave the bounds in order |
| Deterministic.HigherRateKeepsFewer | sample/deterministic.go:38-45 | Below 2^32 that is always so |
| Rules.RuleMatchesTrace | sample/rules.go:136-157 | The counting loops decide whether every condition is met by some span; nil conditions match |
| Rules.RuleMatchesSpanInTrace | sample/rules.go:159-185 | The loops decide whether one span meets every condition; nil conditions match, and empty ones need a span |
| Rules.SpanScopeIsStronger | sample/rules.go:136-185 | A span-scope match is a trace-scope match, and for one condition or one span they are the same |
| Rules.MoreSpansStillMatch | sample/rules.go:136-185 | Neither more spans nor another order undoes a match |
| Rules.MoreSpansMatchNoLater | sample/rules.go:76-133 | A trace with more spans is decided by the same rule or an earlier one |
| Rules.DynamicRate | sample/dynamic.go:55-75 | The key is that of the trace's values and goes on the spans if configured; the rate is the library's answer for it, but at least 1; at rate 1 the trace is kept |
| Rules.RulesBasedSampler.Start | sample/rules.go:34-68 | There is a downstream sampler under a rule's text exactly when some rule so printed sets one of the three kinds |
| Rules.RulesBasedSampler.GetSampleRate | sample/rules.go:71-134 | The first matching rule decides rate, keep, reason and the key written on the spans, without one the trace is kept at rate 1; a kept trace has a rate of at least 1, and rate 1 drops only by a dropping rule |
| Rules.BadRuleIff | sample/rules.go:100-107 | If different rules print differently, a rule with a downstream section falls back to keeping everything exactly when the section sets none of the three kinds |
| TraceKey.Build | sample/trace_key.go:44-80 | The key is, for each field, its distinct non-empty values in order, and the span count if enabled |
| TraceKey.CollectField | sample/trace_key.go:51-57 | A field's turn adds its values over all spans to the collector and touches no other field |
| TraceKey.AppendField | sample/trace_key.go:60-73 | Sorting and collapsing emits each distinct non-empty value once, in order |
| TraceKey.CollapsedElements | sample/trace_key.go:63-70 | Collapsing a sorted list leaves its distinct non-empty elements, strictly sorted |
| TraceKey.KeyDependsOnValues | sample/trace_key.go:44-80 | The key depends only on the set of non-empty values of each field |
| TraceKey.KeyDeterminesValues | sample/trace_key.go:44-80 | If values hold neither separator, traces with the same key have the same non-empty values in every field |
| TraceKey.LengthKeyDeterminesValues | sample/trace_key.go:75-77 | The same with the span count at the end |
| TraceKey.KeyIgnoresSpanOrder | sample/trace_key.go:44-80 | Permuting the spans changes neither key nor span count |
| TraceKey.KeyIgnoresFieldOrder | sample/trace_key.go:18-27 | Any order of the configured fields gives the same key |
| SampledRuns.KeptHasRate | sample/rules.go:96-133 | No sampler keeps a trace at rate 0 |
| SampledRuns.MarkIsConfigured | sample/trace_key.go:31-41 | A sampler writes only to the field it is configured to add its key to, and the deterministic one to none |
| SampledRuns.SampledRates | collect/collect.go:816-858 | With the legacy cache and any mix of the samplers, every settled span is accounted for as in RatesApplyOnce, and carries a key only in a field to which a dynamic sampler in charge is configured to add it |
| SampledRuns.DeterministicOneFate | sample/deterministic.go:38-45 | With one deterministic sampler, dry run off and the legacy cache of any capacity, over the whole run a span is transmitted exactly when the hash of its trace ID is one the rate keeps |

## Left out

- Metrics, logging and the label extraction of `send` (collect/collect.go:665-789), which change no span.
- The map of samplers by dataset or environment and `GetSamplerKey`: the decision of a step is any function of the trace.
- Blocking `AddSpan` (`BlockOnAddSpan`); closed channels; spans handled between the start of Stop and its flush, and anything after it.
- The peer case of the inner select (collect/collect.go:506-512): a turn serves a non-empty peer queue first, so that case is the same step taken on a later turn.
- Configuration errors in reloadConfigs, negative capacities, a nil trace passed to Set; config loading and validation.
- Collector.InMemCollector.Tick: for impact eviction over the limit, asks for a trace timeout other than zero, by which the program divides (it panics otherwise); so do `NewCheckAlloc`, `CachedByImpact`, `SortByImpact` and `CollectorLoop.Collect`.
- CollectorEviction.ShrinkEvictsEarliest: floor(0.9 n) is computed exactly, as the program's float64 product does for any number of traces that fits in memory.
- Spans are values with a `uid` in place of the pointer, and `RootSpan` is a position in the span list; traces are heap objects. Two spans sharing one Data map are not modelled.
- Byte sizes, counts and impacts are unbounded integers; sample rates wrap at 64 bits and the overage is reinterpreted as signed, as in the program.
- Strings are sequences of characters with lexicographic order; rendering of values and numbers (fmt, strconv) is a parameter of the key.
- sha1, wyhash, the dynamic-sampling library and random draws are parameters; sorting peers, hashes and strings is a function that sorts; in the collector's model it is any sorted permutation, and its class has insertion sorts in place of sort.Slice; the LRU is its recency list; a cuckoo filter is the set of IDs inserted, without failed inserts, and with false positives only where the collector drives it.
- Conversion of events for the wire between peers: a forwarded event is taken to arrive with the same trace ID.
- Which condition a span's value meets (`conditionMatchesValue`, `compare`, nested JSON fields) is a parameter of rule matching.
- Re-export of log records that accumulate over batches; only the splitting is modelled, once for the three copies of the loop.
- HTTP, gRPC, Redis, DNS, OAuth and proxy dialling.
