# Remote-write inspector: a verified model

The repository is a bounded, best-effort inspector for Prometheus remote-write traffic, with a load
generator beside it. It answers questions about a stream with little memory: a sharded cache with
eviction and expiry remembers first values, a capture session hands out a limited number of log
records, a small table keeps the series with most findings, a histogram stands in for the list of
latencies. The model states what these approximations promise and proves it for all inputs, runs
and interleavings.

| file | what it models |
|---|---|
| Prelude.dfy | optional values, 64-bit words, sums over sequences |
| CacheModel.dfy | one cache shard as a value: slots, key map, free stack, high-water mark, cursor |
| Fifo.dfy | the order in which a shard evicts, in every run of lookups |
| ShardedRuns.dfy | runs of a sharded cache against a first-write-wins table with expiry |
| StateCache.dfy | the cache as it runs, in place, proved against CacheModel and ShardedRuns |
| MemoryBudget.dfy | from a byte budget to a number of slots |
| Strings.dfy, Sorting.dfy | bytewise string order; sorting by a comparator |
| Validation.dfy | the structural checks of a series' labels |
| Hashing.dfy | the canonical hash and the fingerprint |
| Detectors.dfy, Inspector.dfy | the two stateful detectors over runs; inspecting one request |
| Reference.dfy | a queue and a table that answer as the sharded cache does in every run |
| Retention.dfy | how long a key is remembered, and which duplicates are missed |
| Capture.dfy | deadline, budget and rate of a capture session |
| CaptureLoop.dfy, CaptureLedger.dfy | one inspection's loop over samples; any number of them interleaved |
| Interleaving.dfy | each inspection of an interleaved run is that loop |
| HeavyHitters.dfy, TopSeries.dfy | the counting table and its error; the collector as it runs |
| Admission.dfy | admitting, counting and releasing requests |
| LoadGen.dfy, Histogram.dfy | which series a numbered request carries; percentiles |
| LogSampler.dfy | which findings are logged |

`dafny verify dfyconfig.toml` checks the project.

Three conventions run through it. Code that works in place is a class or a method, tied by its
postconditions to a function or predicate on values, and the theorems are lemmas about those. Such
a function is not left to speak for itself: a lemma whose name ends in `Mean` or `Means`, or one that
gives an exact condition, says what it comes to without naming it.
Code shared by concurrent requests is a state machine: a run is any sequence of actions, so a
statement about every run is one about every interleaving. What the code gets from outside (clock
readings, decoded requests, the digest and the shard function, matchers, the log handler, map
iteration order) is a parameter or left arbitrary; in particular the cache and the session budget
are proved for clock readings in any order, unless an order is required explicitly.

Some natural statements are false of the code. For each there is the exact condition under which
the code meets it and, where that does not give one away, an input for which it does not:

- A full shard does not always evict the pair written longest ago: a key renewed after its time
  keeps its place in the queue. It does exactly if every key behind the victim at its last write has
  been renewed since (`EvictsOldestWrittenIff`, `RenewedKeyGoesFirst`). What it always evicts is the
  key admitted first (`LiveKeysAreLastInserted`).
- Not every duplicate with another value is reported. One is missed exactly if it comes later than
  the time to live allows, or if its key has left a queue that depends on the keys asked of its
  shard and on nothing else (`ConflictMissedIff`; `MissedConflict` is an input). With values and
  times, that queue and a table of last writes give every answer of the cache
  (`AnswersAreShelfAnswers`).
- Well-formed series with NUL bytes in label values can share a hash input whatever the digest
  (`NulBytesCollide`, `DifferentSeriesShareKey`); two lists share one exactly if they leave the same
  pieces when cut at NUL bytes (`SameStreamIffSamePieces`).
- The reason to which the capture shortcut charges the remaining samples is not always the one the
  full loop would find for each: it differs exactly if a later reading lies on the other side of
  the deadline (`ShortcutIsFullLoopUnlessReasonChanges`; `ReasonsCanDiffer` is an ordered run). That
  a terminal refusal is final rests on one inspection reading its clock in order, as the clock of a
  process provides; without that, the shortcut agrees with the full loop exactly unless the session
  opens again for a later reading (`ShortcutAgreesUnlessReopened`).
- A second can hold more attempts than twice the rate, because the clock is read outside the lock.
  If readings are late by at most D, it holds at most 2 * Rate + (Rate - 1) * ceil(D / 1s)
  (`RatePerSecond`, `LateReadingPassesTwiceTheRate`); in order, at most 2 * Rate.
- A series with almost all observations of a window can be missing from the top-series table,
  because a pruned key starts again from zero. With M rows and N observations a key with t > 0 of
  them can be missing exactly if t <= p * c and t + 25M * (p + c) <= N for some p, c >= 1
  (`MissingIff`). The metric's help text calls the series exact; that is true of their identity, not
  of the selection.
- The in-flight gauge can exceed the configured maximum for a moment (`GaugeCanPassLimit`),
  exactly while requests that have left the channel but not the gauge outnumber those still to enter
  it by more than the free places (`GaugeWithinLimitIff`).
- A cycle of load generator requests emits every series exactly if its products do not pass a
  multiple of 2^64 within it, or if 2^64 modulo the number of series is no more than the series a
  cycle emits twice (`CycleCoversIff`, `WrapMissesSeries`). It takes about 2^64 emitted series to get
  there.
- Caches built from a memory budget can exceed it when it does not pay for one entry in each
  (`CachesFitBudget` gives the exact condition).

## Model

| member | source | states |
|---|---|---|
| CacheModel.Fresh | internal/inspector/cache.go:97-108 | a new shard has the size and the time to live asked for and remembers nothing |
| CacheModel.RemoveSlot | internal/inspector/cache.go:176-187 | the representation invariant is kept and exactly the slot's key is forgotten; an unused slot changes nothing |
| CacheModel.Get | internal/inspector/cache.go:110-126 | a live entry is returned and nothing changes; otherwise the answer is a miss and exactly that key is gone |
| CacheModel.NextSlot | internal/inspector/cache.go:153-174 | with room an empty slot is handed out and no key is lost; without room the slot found is in use and exactly its key is lost |
| CacheModel.Put | internal/inspector/cache.go:128-147 | the invariant is kept; a known key is overwritten without eviction, a new one costs at most the one victim and every other key keeps its entry |
| CacheModel.GetOrPutHit | internal/inspector/cache.go:69-80 | a live key is answered with the stored value and the shard is left as it was, so hits renew nothing |
| CacheModel.GetOrPutMiss | internal/inspector/cache.go:69-80 | otherwise the pair is stored as a new key (the update branch of Put is never taken), and one other key is lost exactly when eviction is reported |
| CacheModel.FullExactlyWhenEvicting | internal/inspector/cache.go:153-174 | the length stays within the capacity, and an insertion evicts exactly when they are equal |
| CacheModel.RemoveSlotKeeps | internal/inspector/cache.go:176-187 | emptying a slot keeps the map a bijection with the used slots and the free stack a duplicate-free list of the unused ones |
| CacheModel.PutInFreeSlot | internal/inspector/cache.go:153-158 | filling the slot on top of the free stack keeps the invariant and adds one key |
| CacheModel.PutEvicting | internal/inspector/cache.go:164-173 | with all slots handed out and none free, overwriting the slot under the cursor keeps the invariant and replaces one key |
| Fifo.InsertEnqueues | internal/inspector/cache.go:128-174 | inserting an absent key appends it to the queue read from the cursor, and a full queue loses its head |
| Fifo.UpdateKeepsRing | internal/inspector/cache.go:128-135 | updating a stored key does not change its place in the queue |
| Fifo.RenewalInPlace | internal/inspector/cache.go:69-80 | dropping an expired entry and storing its key again uses the same slot and leaves the free stack empty |
| Fifo.CallOnQueue | internal/inspector/cache.go:69-80 | a lookup appends an absent key, at the cost of the head of a full queue, and otherwise leaves the queue as it is, hit or renewal |
| Fifo.RunIsQueue | internal/inspector/cache.go:69-80 | in every run, whatever expires, the slots read from the cursor are the last admitted keys in order |
| Fifo.RingHoldsLiveKeys | internal/inspector/cache.go:110-174 | the queue holds exactly the stored keys, each once |
| Fifo.LiveKeysAreLastInserted | internal/inspector/cache.go:69-80 | in every run the stored keys are the last maxEntries admitted ones, each once, the next admission evicts the one admitted first exactly when there is no room, and the free stack is empty between calls |
| Fifo.RunIsKeyQueue | internal/inspector/cache.go:69-80 | in every run the slots read from the cursor are a bounded queue of the keys asked for, defined without the cache |
| Fifo.StoredIffQueued | internal/inspector/cache.go:69-80 | a shard stores exactly the keys of that queue, and evicts its head exactly when it is full |
| Fifo.OnlyKeysMatter | internal/inspector/cache.go:69-80 | values, clock readings and the time to live have no influence on which keys are stored |
| Fifo.WriteIsAdmissionOrRenewal | internal/inspector/cache.go:69-80 | a lookup stores a pair exactly if it admits an absent key or renews an expired one |
| Fifo.AdmittedSince | internal/inspector/cache.go:69-80 | a key admitted at some call or later was last written then or later |
| Fifo.EvictsOldestWrittenIff | internal/inspector/cache.go:69-80 | the victim is the pair written longest ago exactly if every key behind it at its last write has been renewed since |
| Fifo.NothingBehindAdmission | internal/inspector/cache.go:128-147 | an admitted key stands last, so a victim never renewed is the pair written longest ago |
| Fifo.RenewedKeyGoesFirst | internal/inspector/cache.go:69-80 | a run of three lookups after which a renewed key is evicted before a live pair written earlier |
| Reference.StepAgrees | internal/inspector/cache.go:69-80 | a shard that agrees with a queue and a table of last writes gives their answer to a lookup, eviction included, and agrees with them afterwards |
| Reference.RunAgrees | internal/inspector/cache.go:69-80 | so they agree throughout every run |
| Reference.AnswersAreShelfAnswers | internal/inspector/cache.go:69-95 | every answer of the sharded cache, in every run, is that of the queue and table of the shard with index hash modulo the number of shards |
| Reference.BuiltCacheAnswers | internal/inspector/cache.go:40-95 | a cache built for a size, a time to live and a hash answers, in every run, as the queue and table of the key's shard do with that time to live |
| Reference.ShelfQueue | internal/inspector/cache.go:69-80 | that queue is the queue of the keys asked for |
| Reference.BuiltIsNew | internal/inspector/cache.go:40-63 | the store the constructor builds has empty queues for shards |
| Reference.ShardRun | internal/inspector/cache.go:69-95 | a run of the store, seen from one shard, is a run of that shard |
| Retention.StoredIffQueued | internal/inspector/cache.go:69-80 | a key is stored exactly if it is in the queue of the keys asked of its shard |
| Retention.StoredUntilPushedOut | internal/inspector/cache.go:69-80 | a key is stored, and in the queue of the keys asked for, exactly until its shard has admitted as many further keys as it has slots |
| Retention.LookupFindsLatestIff | internal/inspector/cache.go:69-80 | a lookup returns the value last written under its key exactly if it is within its time and the key is in the queue of the keys asked of its shard; otherwise it is a miss |
| Retention.ConflictMissedIff | internal/inspector/inspector.go:332-349 | a sample differing from the latest recorded one is reported, with both bit patterns, exactly unless it is too late or its key has left the queue of the keys asked of its shard |
| Retention.CollisionMissedIff | internal/inspector/inspector.go:351-368 | the same for paths |
| Retention.MissedConflict | internal/inspector/inspector.go:332-349 | one slot and samples of one series at timestamps 1, 2 and 1: the third differs from the first and nothing is reported |
| ShardedRuns.Step | internal/inspector/cache.go:69-80 | a call keeps every shard in order, its size and ttl, and keys only in their own shard |
| ShardedRuns.StepMeaning | internal/inspector/cache.go:69-80 | one call on the whole store as a partial map: answer, stored pair, lost key, and nothing else |
| ShardedRuns.Provenance | internal/inspector/cache.go:69-80 | whatever the store holds for a key, some call of the run stored it, and it has been neither lost nor replaced since |
| ShardedRuns.HitReturnsFirstWrite | internal/inspector/cache.go:69-80 | a hit returns the value first stored for the key since it was last dropped, stored at most ttl ago and not renewed by hits |
| ShardedRuns.StillStored | internal/inspector/cache.go:69-80 | a stored pair stays, unchanged, until its key is evicted or looked up after its time |
| ShardedRuns.KeptValueIsReturned | internal/inspector/cache.go:69-80 | until then it is the answer to every lookup of the key |
| ShardedRuns.FittingRunAgrees | internal/inspector/cache.go:69-80 | if no shard sees more distinct keys than it has slots, the store equals the unbounded table at every moment |
| ShardedRuns.FittingRunIsUnbounded | internal/inspector/cache.go:69-80 | and then nothing is evicted and every answer is that of the unbounded first-write-wins table |
| ShardedRuns.RestrictKeepsShard | internal/inspector/cache.go:93-95 | leaving out the calls for other shards leaves a shard's state as it was at every moment |
| ShardedRuns.ShardsAreIndependent | internal/inspector/cache.go:69-95 | an answer depends only on the calls for keys of the same shard |
| ShardedRuns.DifferentShardsCommute | internal/inspector/cache.go:69-95 | two calls on different shards commute, answers included |
| ShardedRuns.StepOccupancy | internal/inspector/cache.go:69-80 | a call changes the number of entries by misses less evictions less expiries |
| ShardedRuns.OccupancyIsConserved | internal/inspector/cache.go:69-91 | over any run the length is misses minus evictions minus expiries |
| ShardedRuns.LenNeverExceedsCapacity | internal/inspector/cache.go:65-91 | reading the shards' lengths one after another, at any moments of a run, adds up to at most the capacity |
| StateCache.CircularCache.constructor | internal/inspector/cache.go:97-108 | builds the fresh shard, with at least one slot |
| StateCache.CircularCache.Get | internal/inspector/cache.go:110-126 | moves the object as CacheModel.Get does; the branch for a mapped but unused slot is unreachable |
| StateCache.CircularCache.Put | internal/inspector/cache.go:128-147 | moves the object as CacheModel.Put does |
| StateCache.CircularCache.NextSlot | internal/inspector/cache.go:153-174 | moves the object as CacheModel.NextSlot does; eviction always finds a used slot |
| StateCache.CircularCache.RemoveSlot | internal/inspector/cache.go:176-187 | moves the object as CacheModel.RemoveSlot does |
| StateCache.StateCache.constructor | internal/inspector/cache.go:40-63 | builds min(64, size) new, unshared shards of the planned sizes, all with the time to live of the argument |
| StateCache.StateCache.GetOrPut | internal/inspector/cache.go:69-80 | moves the whole store as one step of a run, touching only the key's shard |
| StateCache.StateCache.Len | internal/inspector/cache.go:82-91 | undisturbed, the sum over the shards is the number of stored keys |
| StateCache.ShardSizesAddUp | internal/inspector/cache.go:40-63 | every shard has at least one slot and the shard sizes add up to the requested size |
| StateCache.FreshShardsAreBuilt | internal/inspector/cache.go:40-63 | the planned shards have the number, the sizes, the time to live and the hash that a cache of this size has to have |
| ShardedRuns.BuiltMeans | internal/inspector/cache.go:40-63 | in such a cache every shard has the time to live of the argument, size / count slots or one more, and nothing stored |
| StateCache.SumOfFirstShards | internal/inspector/cache.go:55-61 | the first n shards together have n times the base size plus one for each of the extra ones among them |
| MemoryBudget.CacheSizeFromMemoryBudget | internal/inspector/config.go:185-201 | the size is the largest whose entries in all active caches the budget pays for, 1 if it does not pay for one in each, and 0 without active caches |
| MemoryBudget.ActiveDetectorsMean | internal/inspector/config.go:165-174 | duplicates count unless switched off, paths unless switched off or without the field input_path |
| MemoryBudget.CachesFitBudget | internal/inspector/config.go:165-201 | 160 bytes for each slot of all active caches fit the budget exactly when it pays for one entry in each, and then one more in each would not fit |
| Strings.LessIsTotal | internal/inspector/hash.go:41-53 | bytewise order compares any two different strings |
| Strings.LessIsTransitive | internal/inspector/hash.go:41-53 | and is transitive |
| Strings.LessIsLexicographic | internal/inspector/hash.go:41-53 | a string precedes another exactly if it is a proper beginning of it or has the smaller byte at the first difference |
| Validation.NoReasonMeansWellFormed | internal/inspector/inspector.go:252-322 | no reason applies exactly to the lists that are nonempty, within limits, strictly increasing by name, with valid names, nonempty values and a valid metric name |
| Validation.NamesMean | internal/inspector/inspector.go:33-36 | label names are letters, digits and underscores without a digit in front; metric names may have colons |
| Validation.ListReasonsMean | internal/inspector/inspector.go:261-321 | the reasons about the whole list, each said on positions of labels |
| Validation.MetricReasonsMean | internal/inspector/inspector.go:294-302 | the reasons about the metric name, said on the labels |
| Validation.LabelReasonsMean | internal/inspector/inspector.go:282-306 | the reasons about other names and values, said on the labels; a label without a name gives no other |
| Validation.OrderByNeighbours | internal/inspector/inspector.go:273-276 | some name precedes its predecessor exactly when the names are not nondecreasing |
| Validation.DuplicatesByNeighbours | internal/inspector/inspector.go:277-279 | in an ordered list a name repeats exactly when neighbours share it |
| Validation.CheckLabel | internal/inspector/inspector.go:282-306 | the complaints about one label, with nothing further said about one without a name |
| Validation.HasRepeatedName | internal/inspector/inspector.go:308-317 | the set scan finds a repetition exactly when two positions share a name |
| Validation.ScanLabels | internal/inspector/inspector.go:269-307 | the main loop gathers exactly what the labels and their neighbours show |
| Validation.ValidateSeries | internal/inspector/inspector.go:252-322 | the reasons returned are exactly those the list has, each defined on the whole list |
| Sorting.SortSlice | internal/inspector/hash.go:72-77 | what sorting by a strict weak order promises: a sorted permutation, nothing about ties |
| Hashing.PairLessIsTotalOrder | internal/inspector/hash.go:72-77 | the comparator orders pairs totally, by name and then by value |
| Hashing.CanonicalOrderIsUnique | internal/inspector/hash.go:41-79 | there is one way to put given labels in canonical order |
| Hashing.CanonicalIgnoresOrder | internal/inspector/hash.go:21-35 | two lists have the same canonical form exactly when they hold the same labels |
| Hashing.CanonicalMeans | internal/inspector/hash.go:72-77 | in canonical order names go up bytewise, and values do at equal names |
| Hashing.SameStreamIffSamePieces | internal/inspector/hash.go:55-65 | two lists write the same bytes exactly when cutting them at NUL bytes leaves the same pieces |
| Hashing.PiecesAreNamesAndValues | internal/inspector/hash.go:55-65 | without NUL bytes the pieces are name and value of each label in turn |
| Hashing.SameInputIffSameLabels | internal/inspector/hash.go:21-65 | without NUL bytes the hash input is the same exactly for the same labels |
| Hashing.NulBytesCollide | internal/inspector/hash.go:55-65 | two different well-formed series with a NUL byte in a value have the same hash input |
| Hashing.LabelsInCanonicalOrder | internal/inspector/hash.go:41-53 | comparing neighbours decides whether the whole list is in canonical order |
| Hashing.HashLabels | internal/inspector/hash.go:55-65 | the digest of every name and value, each followed by a NUL byte, in order |
| Hashing.SortedPairs | internal/inspector/hash.go:67-79 | any sorting routine yields the one canonical list |
| Hashing.CanonicalHash | internal/inspector/hash.go:21-35 | the fast path and the sorting path hash the same bytes, those of the canonical list |
| Hashing.HexDigitsKeepOrder | internal/inspector/hash.go:37-39 | padded hexadecimal keeps order and equality of numbers |
| Hashing.FingerprintKeepsOrder | internal/inspector/hash.go:37-39 | comparing fingerprints as strings compares hashes as numbers |
| Hashing.FingerprintReads | internal/inspector/hash.go:37-39 | a fingerprint is 16 lower-case hexadecimal digits that read as the hash |
| Detectors.KeyMeans | internal/inspector/inspector.go:332-334 | two samples share a key exactly if the tenants of their identities, their series hashes and their timestamps agree |
| Detectors.HashIgnoresOrder | internal/inspector/inspector.go:187 | the same labels in any order have the same series hash |
| Detectors.EligibleMeans | internal/inspector/inspector.go:209-222 | a sample is compared exactly if its series is well formed and its timestamp neither before the cut-off nor beyond the skew |
| Detectors.FreshnessMeans | internal/inspector/inspector.go:324-330 | stale is older than the cut-off, future newer than the skew allows |
| Detectors.ReportedConflictIsReal | internal/inspector/inspector.go:209-228 | every conflict names the bits of an earlier sample of the same tenant, series hash and timestamp, from a clean series, neither stale nor future, at most ttl old, and they differ |
| Detectors.TenantsDoNotMix | internal/inspector/inspector.go:333 | samples whose identities name different tenants never share a key |
| Detectors.FirstOfTenantIsNotReported | internal/inspector/inspector.go:332-349 | a sample is not reported unless its own tenant has sent one of that series and timestamp before |
| Detectors.ConflictExactlyWhenBitsDiffer | internal/inspector/inspector.go:332-349 | while the first sample is neither evicted nor expired, a conflict is reported exactly when the bits differ from its bits |
| Detectors.FirstSampleDecides | internal/inspector/inspector.go:209-228 | with room for all keys and within the ttl, the first eligible sample of a key decides every later report |
| Detectors.VisitKeyMeans | internal/inspector/inspector.go:356 | two visits share a key exactly if the tenants of their identities and their series hashes agree |
| Detectors.VisitEligibleMeans | internal/inspector/inspector.go:198-202 | a series is compared exactly if it is well formed and its path known |
| Detectors.ReportedCollisionIsReal | internal/inspector/inspector.go:351-368 | every collision has an earlier clean series of the same tenant and hash over another known path |
| Detectors.FirstVisitOfTenantIsNotReported | internal/inspector/inspector.go:351-368 | a series is not reported unless its own tenant has sent it before |
| Detectors.CollisionExactlyWhenPathsDiffer | internal/inspector/inspector.go:351-368 | while the first path is remembered, a collision is reported exactly for other paths |
| Detectors.SamplesInParts | internal/inspector/inspector.go:182-228 | a run of samples finds and leaves what its parts find and leave one after the other |
| Detectors.VisitsInParts | internal/inspector/inspector.go:182-202 | the same for the visits of series |
| Detectors.DifferentSeriesShareKey | internal/inspector/inspector.go:332-334 | samples of those two series share a key in the cache, whatever the digest |
| Detectors.FindingsInParts | internal/inspector/inspector.go:209-228 | what is reported about the samples of a run, with the bits of each conflict, is what its parts report one after the other |
| Detectors.ProblemMeansReason | internal/inspector/inspector.go:209-228 | a sample makes a request bad exactly if something is reported about it |
| Inspector.Inspector.constructor | internal/inspector/inspector.go:109-118 | the caches exist exactly when their detectors can be asked, are new and share nothing, and have the size, time to live and hash asked for |
| Inspector.Inspector.DetectDuplicateSample | internal/inspector/inspector.go:332-349 | one cache access under the sample's key; the conflict is read off its answer |
| Inspector.Inspector.DetectCrossPathCollision | internal/inspector/inspector.go:351-368 | an unknown path touches nothing; otherwise one access, and a collision exactly for another remembered path |
| Inspector.Inspector.InspectSample | internal/inspector/inspector.go:209-228 | a sample is reported as stale, as future, or as a conflict with its two bit patterns, exactly when it is one, and the cache is asked only when it may be |
| Inspector.Inspector.InspectSamples | internal/inspector/inspector.go:209-228 | the samples of a series make the accesses of a run in order, each with its own findings, and bad means a problem in that run |
| Inspector.Inspector.InspectHistograms | internal/inspector/inspector.go:230-239 | each histogram is reported as stale or future exactly when it is |
| Inspector.InspectStructure | internal/inspector/inspector.go:192-198 | the structural reasons of a series are those its label list has, and there are none exactly for a well-formed one |
| Inspector.Inspector.VisitSeries | internal/inspector/inspector.go:198-202 | the path cache is asked for a clean series only, unless the detector is off |
| Inspector.SeriesNameMeans | internal/inspector/hash.go:81-88 | the name of a series is the first nonempty value of a metric name label |
| Inspector.LacksWriterMeans | internal/inspector/inspector.go:203-206 | a writer is missing for a well-formed series exactly if its name begins with a diagnostic prefix and the field writer_id is there without a known value |
| Inspector.Inspector.InspectLabels | internal/inspector/inspector.go:192-207 | the reasons reported about a series are its structural ones, a path collision and a missing writer, each exactly when it holds |
| Inspector.Inspector.InspectSeries | internal/inspector/inspector.go:192-239 | one series: its findings, those of its samples and histograms, both caches, and the verdict |
| Inspector.Inspector.InspectReceived | internal/inspector/inspector.go:172-244 | every finding about a request, series by series, sample by sample and histogram by histogram, is exactly what holds at that point of the run; the request is bad exactly when there is one, the total is the number of samples and histograms looked at, and the caches go through exactly its accesses in order |
| Capture.SessionCounts | internal/inspector/capture.go:185-204 | the fields of a session are the beginning of its window, the grants since then and all grants, each defined on the readings and grants alone |
| Capture.AnswerMeans | internal/inspector/capture.go:185-204 | in every run a reservation is refused for the deadline, the sample limit or the rate, in this order, exactly if its reading has reached the deadline, that many were granted before, or its window is less than a second old and has granted as many as the rate; otherwise it is granted |
| Capture.ReserveKeepsBudget | internal/inspector/capture.go:185-204 | a reservation at any clock reading keeps the windows a second apart and the attempts within them |
| Capture.AttemptsStayWithinBudget | internal/inspector/capture.go:185-204 | attempts are the granted reservations and never exceed min(MaxSamples, Rate * ceil(Duration / 1s)), whatever the order of readings |
| Capture.BudgetIsReached | internal/inspector/capture.go:185-204 | some run uses the whole budget, so the bound is exact |
| Capture.SpansHold | internal/inspector/capture.go:194-202 | where the grants in one second lie: windows begin a second apart, at most two of them in time for it, and those that begin after it but within the delay have their first grant outside |
| Capture.RatePerSecond | internal/inspector/capture.go:185-204 | if readings are late by at most D, any half-open second holds at most 2 * Rate + (Rate - 1) * ceil(D / 1s) reservations |
| Capture.LateReadingPassesTwiceTheRate | internal/inspector/capture.go:185-204 | with readings late by two nanoseconds a second can hold five attempts at a rate of two, the bound |
| Capture.TwiceTheRatePerSecond | internal/inspector/capture.go:194-202 | with ordered readings any half-open second holds at most 2 * Rate reservations |
| CaptureLoop.EverySampleIsAccounted | internal/inspector/capture.go:134-175 | both loops charge each sample exactly once, and truncated samples are among the captured |
| CaptureLoop.CountsAreByKind | internal/inspector/capture.go:134-180 | each count is the number of samples of its kind: refused for its reason, or granted and then captured, truncated, disabled or failed |
| CaptureLoop.AnswerIsReservation | internal/inspector/capture.go:134-136 | up to the first terminal refusal, a sample's answer is that of its reservation in its place among all reservations |
| CaptureLoop.FullLoopReserves | internal/inspector/capture.go:134-136 | the loop without early return makes the reservations of all its turns one after the other |
| CaptureLoop.TerminalMeansExhausted | internal/inspector/capture.go:185-193 | a terminal reason is given exactly past the deadline or at the sample limit, and leaves the session unchanged |
| CaptureLoop.RefusalIsPermanent | internal/inspector/capture.go:137-142 | after a terminal refusal every later reading is refused too, whatever others reserve in between |
| CaptureLoop.ShutLoop | internal/inspector/capture.go:185-193 | on a session that does not open again the full loop charges every sample to the terminal reason of its own reading |
| CaptureLoop.ShortcutAgreesUnlessReopened | internal/inspector/capture.go:134-145 | for readings in any order, the early return leaves session, captures, truncations and all other counts as the full loop would exactly unless the session, moved by others only, opens again for a later sample |
| CaptureLoop.ShortcutIsFullLoopUnlessReasonChanges | internal/inspector/capture.go:134-145 | and the two loops agree in the terminal reasons as well exactly if no later reading lies on the other side of the deadline |
| CaptureLoop.ShortcutMatchesFullLoop | internal/inspector/capture.go:134-145 | so with ordered readings the early return agrees in everything but the split of terminal reasons, and in that exactly unless it stops for the sample limit before a reading past the deadline |
| CaptureLoop.ReasonsCanDiffer | internal/inspector/capture.go:134-145 | an ordered run in which the shortcut charges two samples to the sample limit and the full loop one of them to the deadline |
| CaptureLoop.ShortcutNeedsOrder | internal/inspector/capture.go:134-145 | sessions that open again exist: readings of 10 and then 9 around a deadline of 10 |
| CaptureLoop.Matches | internal/inspector/capture.go:104-120 | every occurrence of a matcher's label satisfies it, and an absent label counts as empty |
| CaptureLoop.SatisfiesMeans | internal/inspector/capture.go:105-118 | a matcher holds if it accepts all values of its label, or the empty string if there are none |
| CaptureLoop.NewSampleCapture | internal/inspector/capture.go:50-70 | positive limits, a label limit of at least 2 and a selector that some label must satisfy give a new session from now; anything else the first error that applies |
| CaptureLoop.NoLabelsNoMatch | internal/inspector/capture.go:58-66 | a session that starts never matches a series without labels |
| CaptureLoop.SampleCapture.TryReserve | internal/inspector/capture.go:185-204 | moves the session as the reservation function does |
| CaptureLoop.SampleCapture.Inspect | internal/inspector/capture.go:122-176 | without a match nothing changes; otherwise session and this identity's counters move as the loop with early return says, and no other identity's do |
| CaptureLedger.LocalBalance | internal/inspector/capture.go:122-204 | every single step of an inspection moves amounts between counters and samples in flight and loses none |
| CaptureLedger.ApplyKeepsInv | internal/inspector/capture.go:122-204 | an action of any inspection keeps the ledger of every identity, the attempts and the budget |
| CaptureLedger.LedgerAlwaysBalances | internal/inspector/capture.go:122-204 | in every interleaving and for every identity matched = captured + skipped + in flight, truncated <= captured, and attempts = captured + log_disabled + log_error + reservations in progress |
| CaptureLedger.QuietLedger | internal/inspector/capture.go:122-204 | the same without the in-flight terms once no inspection is active |
| CaptureLedger.MatchedIsBegun | internal/inspector/capture.go:126-133 | in every run the samples counted as matched are those the inspections have begun with, less the ones still to be counted |
| CaptureLedger.BudgetHoldsUnderInterleaving | internal/inspector/capture.go:185-204 | the total budget holds in every interleaving and for readings out of order |
| CaptureLedger.SampleRun | internal/inspector/capture.go:134-175 | the steps of one sample, taken together, are one turn of the loop |
| CaptureLedger.ScriptFollowsLoop | internal/inspector/capture.go:134-175 | an inspection that is not disturbed takes session and counters where the sequential loop takes them |
| Interleaving.StepChargeIsCounted | internal/inspector/capture.go:122-180 | what a step of an inspection adds to its counts is what reaches the ledger |
| Interleaving.OwnStep | internal/inspector/capture.go:134-175 | each step of an inspection takes its place in the loop one step further, or ends the loop |
| Interleaving.OtherStep | internal/inspector/capture.go:185-204 | a reservation by another inspection becomes part of the turn that is under way or of the next one |
| Interleaving.InspectionIsLoop | internal/inspector/capture.go:133-175 | in every interleaving, from its first sample to its last an inspection moves the session and its counts as the loop with the early return, on turns that record its own readings and, in order, the reservations of all others in between |
| HeavyHitters.LostCountIsSmall | internal/inspector/metrics.go:247-267 | a dropped count times one more than the kept entries is at most all counts together |
| HeavyHitters.PruneForgets | internal/inspector/metrics.go:247-267 | a prune forgets at least one observation per entry it removes and adds none |
| HeavyHitters.StepKeepsInv | internal/inspector/metrics.go:179-207 | one observation keeps: stored plus pruned are the observations made, at most 50M entries, and few prunes |
| HeavyHitters.WindowKeepsInv | internal/inspector/metrics.go:179-207 | within a window no count is too high, a key never pruned has its true count, and P prunes need P * (25M + 1) observations |
| HeavyHitters.PruneErrorBound | internal/inspector/metrics.go:203-267 | a prune starts from 50M + 1 entries and keeps 25M; dropped counts are at most N / (25M + 1), and larger ones survive |
| HeavyHitters.CrowdSurvives | internal/inspector/metrics.go:247-267 | if as many keys as a prune keeps have a count of c, nothing below c is kept |
| HeavyHitters.StepPaysLoss | internal/inspector/metrics.go:179-207 | each prune that loses a key forgets 25M other observations besides, and leaves 25M keys with counts at least as high |
| HeavyHitters.UndercountBound | internal/inspector/metrics.go:179-267 | for every key, a stored count is below the observations by d <= p * c only, p being the prunes of the window, with d + 25M * (p + c) <= N if there were any |
| HeavyHitters.MissingKeyBound | internal/inspector/metrics.go:179-267 | for every M, a key observed t times of N that is not in the table was lost in p prunes of at most c observations, with t <= p * c and t + 25M * (p + c) <= N |
| HeavyHitters.MissingIff | internal/inspector/metrics.go:179-267 | the bound is exact: for every M, t > 0 and N some window leaves such a key out exactly if such p and c exist |
| HeavyHitters.AnchorsAreForced | internal/inspector/metrics.go:247-267 | in the windows that show it, the choice among equal counts matters only if the key is observed as often as each kept one |
| HeavyHitters.MajorityCanBeLost | internal/inspector/metrics.go:179-267 | for every M a key with p * c of p * c + 25M * (p + c) observations can be missing, a share as near to all as one likes |
| TopSeries.AheadIsWeakOrder | internal/inspector/metrics.go:222-230 | the report's comparator is a strict weak order |
| TopSeries.TieBreakIsByHash | internal/inspector/metrics.go:222-230 | at equal count and name, the fingerprint comparison is the comparison of hashes |
| TopSeries.ReportTiesAreByHash | internal/inspector/metrics.go:222-230 | rows of a report that agree in count and name stand in the order of their hashes |
| TopSeries.NotAheadMeans | internal/inspector/metrics.go:222-230 | the report's order is by falling count, then rising name, then rising hash |
| TopSeries.ReportMeans | internal/inspector/metrics.go:218-236 | said of a whole report and of the rows left out of it |
| TopSeries.FirstAreHighest | internal/inspector/metrics.go:252-265 | no row behind the first ones of any list sorted by count has a higher count than one of them |
| TopSeries.KeptTop | internal/inspector/metrics.go:247-267 | keeping the first rows of any list sorted by count is a prune in the sense of the error bound |
| TopSeries.PrunedRows | internal/inspector/metrics.go:203-267 | rows are lost only from 50M + 1, of which 25M stay; the count of a lost row times 25M + 1 is at most the observations, and no kept row falls below it |
| TopSeries.UndercountOfRow | internal/inspector/metrics.go:179-267 | the count shown for a key, zero without a row, obeys the same bound in the current window |
| TopSeries.MissingRowBound | internal/inspector/metrics.go:179-267 | a key observed in the current window without a row obeys the bound on missing keys |
| TopSeries.TopOfList | internal/inspector/metrics.go:218-236 | the first rows of a sorted list of all rows: real rows, each key once, and none left out is ahead of one shown |
| TopSeries.TableIsSound | internal/inspector/metrics.go:179-267 | the table has at most 50M entries and counts no key more often than it was observed in the window |
| TopSeries.RowsInSomeOrder | internal/inspector/metrics.go:218-221 | iterating the table lists each row once, in some order |
| TopSeries.TopSeriesCollector.ResetExpired | internal/inspector/metrics.go:239-245 | within the window nothing changes; after it the table is empty and a new window starts now |
| TopSeries.CountAndTrim | internal/inspector/metrics.go:190-206 | the key's row counts one more or is new; up to 50M rows all stay as they are, beyond that the rows lost are those the error bound allows |
| TopSeries.CountedMeans | internal/inspector/metrics.go:190-201 | the row of the key counts one more, or is new with a count of one, the name given and the fingerprint of the hash; the others are as they were |
| TopSeries.TopSeriesCollector.Observe | internal/inspector/metrics.go:179-207 | the window goes on by this observation, or starts with it; its table history grows by one table, and the rows are the counted ones, trimmed only as the error bound allows |
| TopSeries.TopSeriesCollector.Prune | internal/inspector/metrics.go:247-267 | an oversized table keeps its rows of highest count, unchanged |
| TopSeries.TopSeriesCollector.Collect | internal/inspector/metrics.go:213-237 | min(entries, M) rows, each key once, by falling count, at equal counts by rising name, and then by rising hash; no row left out has a higher count than one shown, nor at equal counts a smaller name, nor then a smaller hash |
| Admission.LocalBalance | internal/inspector/server.go:55-132 | every step changes channel, gauge and decode errors by as much as it changes what the request stands for |
| Admission.ApplyKeepsInv | internal/inspector/server.go:55-132 | an action of any request keeps the invariant |
| Admission.AdmissionHolds | internal/inspector/inspector.go:140-153 | in every interleaving occupancy = admitted and not released <= maximum, the gauge is off by exactly the updates still to come, and each result counter is the number of requests counted so |
| Admission.AdmittedIffRoom | internal/inspector/inspector.go:140-148 | at any moment of any run a request that starts is admitted exactly if it is a POST and fewer requests than places stand between entering and leaving the channel, and turned away exactly if it is a POST and the channel is full |
| Admission.OverloadedIffFull | internal/inspector/server.go:63-69 | a request is turned away, and then counted as overloaded, exactly if it met a full channel when it started |
| Admission.ResultIff | internal/inspector/server.go:76-129 | a request comes to each other result exactly if its handling finished that way: bad_data for a bad decoded body, empty for one without samples and series, ok for the rest, too_large and decode_error for the failures they name |
| Admission.GaugeWithinLimitIff | internal/inspector/inspector.go:140-153 | the gauge is never negative, and within the maximum exactly if requests out of the channel but not the gauge outnumber those still to enter it by no more than the free places |
| Admission.ReleaseFindsPlace | internal/inspector/inspector.go:150-153 | a release always finds an occupied place, so that it never waits |
| Admission.FinishedRequest | internal/inspector/server.go:55-132 | a finished request is counted exactly if it was a POST, with 204 exactly for overloaded, ok, bad_data and empty, 413 for too_large and 400 for decode_error |
| Admission.ResultsCountRequestsOnce | internal/inspector/server.go:55-132 | the result counters together count every counted request once |
| Admission.QuietAdmission | internal/inspector/server.go:71-74 | when every request is finished or has not begun, channel and gauge are at zero and decode errors agree with decode_error results |
| Admission.GaugeCanPassLimit | internal/inspector/inspector.go:140-153 | with one place the gauge can read two |
| LoadGen.GenerateRequest | cmd/rwi-loadgen/main.go:329-402 | the series of a request are consecutive from its start, modulo the active series, and its identity is by remainder and by cycle |
| LoadGen.SeriesIsRunningNumber | cmd/rwi-loadgen/main.go:335-337 | request n carries consecutive running numbers from n times its size on, set back by 2^64 each time the product has passed it |
| LoadGen.CycleCoversSeries | cmd/rwi-loadgen/main.go:335-337 | a cycle of consecutive requests whose products do not pass a multiple of 2^64 emits every series, however large they are |
| LoadGen.CrossingCovers | cmd/rwi-loadgen/main.go:335-337 | a cycle that passes one still does if 2^64 modulo the series is at most the series it emits twice |
| LoadGen.CrossingMisses | cmd/rwi-loadgen/main.go:335-337 | and otherwise it misses one |
| LoadGen.CycleCoversIff | cmd/rwi-loadgen/main.go:335-337 | so a cycle emits every series exactly under one of the two conditions |
| LoadGen.BlocksCoverPairs | cmd/rwi-loadgen/main.go:385-389 | pathCount consecutive aligned cycles emit every series on every path exactly if each of them emits every series |
| LoadGen.PathOfCycle | cmd/rwi-loadgen/main.go:387-388 | the requests of the c-th cycle all go to path c modulo the number of paths |
| LoadGen.WrapMissesSeries | cmd/rwi-loadgen/main.go:335-337 | cycles that miss a series exist: six series, two a request, around request 2^63 |
| Histogram.BucketOf | cmd/rwi-loadgen/main.go:521-526 | the first bucket whose bound the latency does not exceed |
| Histogram.RunningTotal | cmd/rwi-loadgen/main.go:622-625 | adding up buckets counts the latencies not beyond the last of them |
| Histogram.CountsAddUp | cmd/rwi-loadgen/main.go:609-612 | the buckets together count every observation once |
| Histogram.TargetWithinTotal | cmd/rwi-loadgen/main.go:617-620 | the rank is at least 1, and within the list exactly for percentiles up to 1 |
| Histogram.TargetIsLeastRank | cmd/rwi-loadgen/main.go:617-620 | the rank is the least one from 1 on that is no smaller than the percentile of the total |
| Histogram.BoundsAre | cmd/rwi-loadgen/main.go:499-516 | the bounds in nanoseconds |
| Histogram.RankedValueIsInBucket | cmd/rwi-loadgen/main.go:622-631 | the value of a rank in the sorted list lies in the bucket at which the running total reaches the rank |
| Histogram.PercentileAgreesWithSortedList | cmd/rwi-loadgen/main.go:608-633 | the label names the bucket of the nearest-rank value of the sorted latencies |
| Histogram.LabelBoundsRankedValue | cmd/rwi-loadgen/main.go:622-632 | the bound shown is not exceeded by the nearest-rank value while all smaller ones are, and the label beyond all bounds is shown exactly if the value exceeds them all |
| Histogram.NamedBoundIsLeast | cmd/rwi-loadgen/main.go:622-631 | the bound named is the least with enough latencies at or below it |
| Histogram.PercentileLabel | cmd/rwi-loadgen/main.go:608-633 | the label is that of the first bucket reaching the rank, and the fallback is reached exactly for percentiles above 1 |
| Histogram.FindBucket | cmd/rwi-loadgen/main.go:622-632 | the accumulating loop stops at the first bucket whose running total reaches the target, if any does |
| Histogram.Search | cmd/rwi-loadgen/main.go:522-524 | binary search finds the first index at which a monotone condition holds |
| Histogram.LatencyHistogram.constructor | cmd/rwi-loadgen/main.go:497-519 | 17 empty buckets for 16 bounds |
| Histogram.LatencyHistogram.Observe | cmd/rwi-loadgen/main.go:521-526 | the counts stay the histogram of all latencies observed |
| LogSampler.WindowIsByTimes | internal/inspector/diagnostics.go:36-41 | the sampler's window begins where the times of the calls say: at the start, and at each call a window or more after the beginning before it |
| LogSampler.SamplerFollowsWindow | internal/inspector/diagnostics.go:36-51 | the seen set is at every moment the set of the first examples of the window that the times define |
| LogSampler.ExamplesAreFirstDistinct | internal/inspector/diagnostics.go:36-51 | the first examples of a window are its first min(limit, distinct) distinct keys, in call order, once each |
| LogSampler.FirstExampleIff | internal/inspector/diagnostics.go:42-48 | a call is a first example exactly when its window has not asked for the key and the limit is not used up |
| LogSampler.OthersByChance | internal/inspector/diagnostics.go:50 | any other call is logged exactly by chance |
| LogSampler.OnlyExamplesWithoutRepeats | internal/inspector/diagnostics.go:50 | without chance repeats a window logs its first examples and nothing else |
| LogSampler.FindingLogSampler.constructor | internal/inspector/diagnostics.go:27-34 | a new sampler has seen nothing and its window starts now |
| LogSampler.FindingLogSampler.Decide | internal/inspector/diagnostics.go:36-51 | moves the sampler and decides as the function on values does |

## Left out

- HTTP, snappy, protobuf, signals and shutdown: a decoded request is data, and how decoding ends is an input of Admission.
- Prometheus registration, slog records and JSON: counters are integers; the log handler is disabled, fails, or takes the record.
- The digest, the shard functions, the PromQL selector parser and its matchers, which are arbitrary functions and predicates.
- Floating point: sample values are bit patterns, top-series counts integers, percentiles exact reals, and a chance repeat of a log line is an input.
- Machine integers: times, counts and `maxSeries * 50` are unbounded and clock subtraction does not saturate; only the load generator's product wraps as in the source, and cache sizes stay within its int.
- Sorting.SortSlice: stands for the library's sorting routine and promises what that promises; its own algorithm is not the library's.
- The classes are sequential. Locks appear as the atomic steps of the runs in ShardedRuns, CaptureLedger and Admission; the classes themselves are not shared between threads. The top-series collector and the log sampler hold one lock for a whole call, so their calls are in sequence anyway.
- Inspector.Inspector.InspectReceived: leaves out the call of the capture session (see CaptureLoop and CaptureLedger); findings are returned where the source passes them on to counters, the top-series table and the log, and the order in which the reasons of one series are observed is open.
- Inspector.Inspector.constructor: takes a normalised configuration; errors in it, the metrics registered, the admission channel (see Admission), the log sampler (see LogSampler) and the capture session (see CaptureLoop) are not part of the object.
- Admission.FinishedRequest: leaves out a handler that panics, for instance because a counter refuses a label value; its deferred release gives the place back and no result is counted.
- LoadGen.CycleCoversIff: is about configurations whose series and requests add up within the int of the source, and about request numbers that have not themselves passed 2^64.
- LoadGen.GenerateRequest: leaves out timestamps, values, ratios of bad samples and label texts.
- TopSeries.TopSeriesCollector.Observe: leaves out the label values and projections stored with a row; which of several rows with equal counts a prune keeps is open.
- TopSeries.TopSeriesCollector.Collect: says nothing about the order of rows that tie completely, and nothing about the metric values sent.
- Joining identity values into one key, resolving identities from headers, defaults and parsing of the configuration, bounded label arrays, limited reading, pacing and printed summaries: each is one loop or one branch and would add only easy members.
