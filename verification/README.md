# Verified models of unkey's stateful packages

A Dafny 4.11 project that models the packages of unkey whose correctness rests on arithmetic,
time or interleaving, and proves what they are for. `dafny verify dfyconfig.toml` checks all of it.

- `Base58.dfy`: the Base58 encoder. The carry loop over a buffer sized by 555/406 and the in-place
  alphabet pass, proved against "leading '1's, then the minimal digits", with both round trips.
- `CacheStore.dfy`: lookups, writes, `SWR`, `SWRMany` and `SWRWithFallback` on the cache's entries,
  and `SWRMany` against `SWR` key by key.
- `CacheStaleness.dfy`: how old an answer from the cache can be, over every interleaving.
- `CacheWorkers.dfy`: the revalidation queue, its workers, `inflightMu` and the in-flight set, over
  every interleaving: who owns a key, and the one way the pool gets stuck.
- `BatchProcessor.dfy`: producers, the bounded channel, consumers, timers and `Close`, over every
  interleaving; the consumer loop; the buffer object.
- `CircuitBreaker.dfy`: the breaker, with calls that overlap between preflight and postflight.
- `InstanceMeter.dfy`: the usage query as a function over checkpoint rows.
- `KeyPaging.dfy`: the key-last-used query, its composite cursor and the loop that drains a partition.
- `MemoryCounter.dfy`: the in-memory counter against one whose entries vanish when they expire.
- `CliParser.dfy`: the argument parser, and which rewritings of arguments keep its outcome.
- `CliMeaning.dfy`: how a parse ends, and that a command line is parsed to what its tokens mean.
- `Common.dfy`: `Option` and one sequence function.

Time is an integer, and a clock reading is a parameter wherever the code reads the clock. Origins,
operations on errors, flag value parsers and the key hash are function parameters. A concurrent
protocol is a step system: `Enabled` says when a step can be taken, `Apply` what it does, and a run
is any list of enabled steps. An object whose methods update fields is a class whose methods are
proved against functions on the old state; the properties are proved about those functions.

## Findings

Where a comment or an expectation asks for more than the code does, the model follows the code, a
lemma shows the difference, and where it could be had a lemma gives the exact condition.

- A `SWRWithFallback` caller that waits for room in a full queue holds the mutex every worker needs
  (`StuckReachable`, `StuckForever`); work can go on if and only if that is not the case (`Progress`).
  It takes a full queue, a job with every worker and the waiting caller: with fewer jobs under way it
  never happens, with as many it can (`NeverStuckIff`).
- `SWRMany` does not refresh stale nulls, and not at the very instant freshness ends; `SWR` does
  (`QueueingAgrees`, with the exact condition). An entry that is past its stale time but configured
  still fresh is served by `SWR` and deleted by `SWRMany` (`ManyRefinesEach`, with the exact condition).
- After an error-free fetch `SWR` reports Null for a key it did not cache exactly when the operation
  is Noop (`NoopReportsNull`). `Restore` re-stamps lifetimes and turns nulls into hits
  (`RestoreRestamps`).
- The age bound of an answer counts from the clock reading. When it is served it is younger than the
  lifetime plus the time since the reading (`BoundedStaleness`); it is always younger than the
  lifetime exactly when no time passes in between (`ServedInTimeIff`). A `Get` overtaken by a write
  of its key serves the older value (`CurrentIff`, `AllCurrentIff`). If it finds that older value
  expired it deletes the newer one (`LostWrite`; exactly when, in `ExpiredReadDeletes`).
- A tripped breaker has no minimum open time (`NoMinimumOpenTime`; exactly when it has, in
  `MinimumOpenTime`). A failed probe does not reopen it (`FailedProbeNeverReopens`). A failed probe
  is meant to keep it half-open until the next cycle; with overlapping calls it can close in the same
  counter window, failure included (`OverlapCloses`). Exactly calls that do not overlap rule that out
  (`FailureBlocksIff`). Probes are counted
  on completion, so more than maxRequests can be let through; a run of a new breaker reaches the bound
  (`ProbeBoundReached`).
- A counter value under the credit discipline goes negative when 64 bits overflow
  (`OverflowGoesNegative`; never negative if and only if no exact balance exceeds the largest integer).
- Two checkpoints in one millisecond with different counters lose the growth between them, and then
  losing one can raise the bill (`TieLosesGrowth`; exactly when, in `LosingCpuIff`). Losing a detached
  sample can raise billed egress, and losing a low gauge sample billed memory or disk (exactly when,
  in `LosingEgressIff` and `LosingGaugeIff`).
- A page that ends between two groups that share last use and key id loses the second for good
  (`TwinIsLost`), though its key id and time are those of the first, so no last use of a key is
  skipped (`SyncedShows`). A drain lists every group exactly when no page ends so
  (`DrainIff`), and for every page size exactly when no two groups share both (`EveryLimitIff`).
- `help <command>` is help on the current command (`HelpIsOwnHelp`). `--f=v` and `--f v` differ behind
  `--` (exactly when, in `SpellingsAfterSeparator`) and behind a flag that waits for its value
  (`SpellingsDiffer`, `DifferingCommand`), unless it refuses both (`SpellingsBehindFlag`).

## Model

| member | source | states |
|---|---|---|
| `Base58.CellsSuffice` | pkg/base58/encode.go:23-28 | The sizing inequality: 256^m < 58^(m*555/406 + 1) for every m |
| `Base58.ThirtyBytes` | pkg/base58/encode.go:26-28 | 256^30 <= 58^41, the ratio behind 555/406 |
| `Base58.CarryCell` | pkg/base58/encode.go:39-41 | The loop body: quotient and remainder by 58 exactly; the 32-bit carry and the byte narrowing lose nothing |
| `Base58.CarryStep` | pkg/base58/encode.go:38-42 | One digit of the multiplication by 256 keeps the carry relation, every digit below 58 and the carry at most 255 |
| `Base58.CarryStops` | pkg/base58/encode.go:38-43 | The loop never needs a cell left of the leading zeros, because the number fits |
| `Base58.MulAdd` | pkg/base58/encode.go:36-44 | The carry loop for one byte turns the number n in the buffer into 256*n + b, in bounds |
| `Base58.FillDigits` | pkg/base58/encode.go:25-44 | After all bytes the buffer holds the big-endian number of the input in base 58 |
| `Base58.CountZeros` | pkg/base58/encode.go:18-21 | Counts exactly the leading zero bytes |
| `Base58.AlphabetPass` | pkg/base58/encode.go:50-57 | The in-place pass yields the characters of the old digits from the gap on: no overwritten cell is read |
| `Base58.WriteDigits` | pkg/base58/encode.go:46-57 | Skipping the zero gap and writing characters turns the filled buffer into the Base58 string |
| `Base58.Encode` | pkg/base58/encode.go:15-58 | For every byte sequence the result is the Base58 string: one '1' per leading zero byte, then the minimal digits |
| `Base58.AlphabetDigits` | pkg/base58/alphabet.go:3-8 | The alphabet has 58 ASCII characters, and an independent digit table inverts it |
| `Base58.EncodingShape` | pkg/base58/encode.go:3-15 | The encoding has exactly one leading '1' per leading zero byte and denotes the same number |
| `Base58.ConvertInverse` | pkg/base58/encode.go:15-58 | Changing base and back is the identity on any numeral, leading zeros included |
| `Base58.DecodeEncode` | pkg/base58/encode.go:3-15 | A reference decoder recovers every byte sequence from its encoding |
| `Base58.EncodeDecode` | pkg/base58/encode.go:3-15 | Every string over the alphabet is the encoding of what it decodes to |
| `Base58.EncodeInjective` | pkg/base58/encode.go:3-15 | Different byte sequences have different encodings |
| `Cache.Cache.Get` | pkg/cache/cache.go:121-144 | Serves a usable entry, deletes an expired one, changes nothing else |
| `Cache.Cache.GetMany` | pkg/cache/cache.go:146-169 | Values and hits of exactly the requested keys; only expired requested entries are removed |
| `Cache.Cache.Set` | pkg/cache/cache.go:197-206 | Writes a hit with both lifetimes from now |
| `Cache.Cache.SetNull` | pkg/cache/cache.go:171-181 | Writes a null with both lifetimes from now |
| `Cache.Cache.SetMany` | pkg/cache/cache.go:208-219 | Writes every value of the map, in whatever order, and nothing else |
| `Cache.Cache.SetNullMany` | pkg/cache/cache.go:183-195 | Writes null for exactly the listed keys |
| `Cache.Cache.SWR` | pkg/cache/cache.go:315-378 | Fresh and stale entries are served, the stale one queued; otherwise the origin's answer is written as the operation says |
| `Cache.Cache.Classify` | pkg/cache/cache.go:389-419 | The loop with the seen set finds the distinct missing keys and the stale keys in order |
| `Cache.Cache.FillMissing` | pkg/cache/cache.go:430-464 | Store, values and hits are those of the specification, which `ManyPerKey` determines key by key |
| `Cache.Cache.SWRMany` | pkg/cache/cache.go:380-472 | Store, values, hits, error, queued keys and origin calls are those of the specification, which `ManyPerKey`, `RefreshedOnce` and `AskedOnce` determine |
| `Cache.Cache.SWRWithFallback` | pkg/cache/cache.go:474-540 | The first servable candidate is served; if stale and not in flight it is marked and its refresh queued; else the origin's value goes under its canonical key |
| `CacheModel.AskedOnce` | pkg/cache/cache.go:393-430 | The origin is asked at most once, for exactly the unusable requested keys, each once, in order of first occurrence |
| `CacheModel.RefreshedOnce` | pkg/cache/cache.go:393-419 | Queued for refresh are exactly the requested keys with a usable value past its fresh time, each once, in order of first occurrence |
| `CacheModel.ManyPerKey` | pkg/cache/cache.go:428-471 | For every origin and operation, per key: the entry it gets, its removal, its report and the error |
| `CacheModel.NoopCachesNothing` | pkg/cache/cache.go:462-468 | Under Noop the store only loses the expired requested entries, and every missing key is reported as Miss |
| `CacheModel.ManySettles` | pkg/cache/cache.go:386-471 | With an origin that finds or does not find, every requested key ends as its usable entry, the found value or null |
| `CacheModel.EachSettles` | pkg/cache/cache.go:315-357 | SWR on each of several distinct keys ends in the same way |
| `CacheModel.ManyRefinesEach` | pkg/cache/cache.go:386-471 | For a positive stale time: SWRMany leaves the store that SWR on each distinct key leaves, if and only if no requested entry is past stale while still fresh |
| `CacheModel.NoKeyLeftMiss` | pkg/cache/cache.go:428-464 | No requested key is reported as Miss, and each is reported with what the store now holds |
| `CacheModel.QueueingAgrees` | pkg/cache/cache.go:326-340 | SWR and SWRMany agree on queueing a refresh if and only if the entry is not a stale null and freshness does not end right now |
| `CacheModel.NoopReportsNull` | pkg/cache/cache.go:359-377 | After an error-free fetch SWR reports Null for a key that is not cached if and only if the operation for success is Noop |
| `CacheModel.ServedUntilStale` | pkg/cache/cache.go:315-378 | A value written at t is served until fresh ends, served and refreshed until stale ends, and then fetched; other keys are untouched |
| `CacheModel.NullUntilStale` | pkg/cache/cache.go:326-340 | A null likewise |
| `CacheModel.FoundUntilStale` | pkg/cache/cache.go:121-170 | Lookups serve it until stale ends and then drop it |
| `CacheModel.FallbackServesOne` | pkg/cache/cache.go:484-510 | With one candidate SWRWithFallback serves as SWR does, and refreshes when SWR does and none is under way |
| `CacheModel.FallbackFetchesOne` | pkg/cache/cache.go:516-539 | When it fetches, where it agrees with SWR and how it differs on Noop and on errors |
| `CacheModel.FallbackSkips` | pkg/cache/cache.go:484-514 | A first candidate that cannot be served counts for nothing but its removal |
| `CacheModel.RestoreRestamps` | pkg/cache/cache.go:258-262 | A restored entry is a hit with the same value, and equals the dumped one if and only if that was a hit with lifetimes from now; an expired one is not restored |
| `CacheStaleness.BoundedStaleness` | pkg/cache/cache.go:121-219 | In every run an answer is the most recent write to its key when looked up, and when served it is younger than its lifetime plus the time since the clock reading |
| `CacheStaleness.StepInv` | pkg/cache/cache.go:315-340 | Every step (write, evict, expired-read delete, refresh) keeps the store equal to the latest writes |
| `CacheStaleness.ServedInTimeIff` | pkg/cache/cache.go:321-340 | Runs whose answers are served at most d after their readings keep every served value younger than the lifetime if and only if d is 0 |
| `CacheStaleness.LateAnswer` | pkg/cache/cache.go:321-340 | For every d a run that serves a value of age lifetime - 1 + d |
| `CacheStaleness.CurrentIff` | pkg/cache/cache.go:121-138 | A served value is still the most recent write if and only if its key was not written between lookup and serving |
| `CacheStaleness.AllCurrentIff` | pkg/cache/cache.go:121-138 | Runs with at most m writes between lookup and serving serve only current values if and only if m is 0 |
| `CacheStaleness.ExpiredReadDeletes` | pkg/cache/cache.go:123-143 | A Get that finds its entry expired deletes the key; what it deletes is a newer write if and only if the key was written since the lookup |
| `CacheStaleness.LostWrite` | pkg/cache/cache.go:123-143 | A run without evictions in which the latest write of a key is gone |
| `CacheWorkers.MarkMany` | pkg/cache/cache.go:578-587 | Marks exactly the keys no one is refreshing, and lists each once |
| `CacheWorkers.UnmarkMany` | pkg/cache/cache.go:593-599 | Unmarks exactly the listed keys |
| `CacheWorkers.StepInv` | pkg/cache/cache.go:282-296 | Every step keeps the in-flight set the disjoint union of the owners' keys |
| `CacheWorkers.OneOwner` | pkg/cache/cache.go:498-507 | In every interleaving a key in flight has exactly one owner among waiting caller, queued fallback jobs and workers, any other key none |
| `CacheWorkers.UnmarkIsPrivate` | pkg/cache/cache.go:548-552 | Finishing a job unmarks no key of another worker or of a queued job |
| `CacheWorkers.NoDoubleRefresh` | pkg/cache/cache.go:282-290 | No two workers refresh the same key at once |
| `CacheWorkers.MarkRefreshes` | pkg/cache/cache.go:282-290 | A worker goes on to refresh exactly the keys of its job that no one is refreshing yet |
| `CacheWorkers.StartedInOrder` | pkg/cache/cache.go:91-97 | In every run jobs are started in the order they were sent |
| `CacheWorkers.QuietMeansUnmarked` | pkg/cache/cache.go:292-296 | With queue and workers idle nothing is marked |
| `CacheWorkers.Progress` | pkg/cache/cache.go:86-97 | Unfinished work can go on if and only if no caller holds the mutex at a full queue with every worker waiting for it |
| `CacheWorkers.EveryDrainEnds` | pkg/cache/cache.go:86-97 | When no calls arrive every order of the pool's steps is bounded, and where it can go no further the pool is stuck, or all is done and nothing is marked |
| `CacheWorkers.StuckForever` | pkg/cache/cache.go:499-507 | From that state no step is ever possible again |
| `CacheWorkers.StuckReachable` | pkg/cache/cache.go:499-507 | That state can be reached for every queue size and number of workers |
| `CacheWorkers.NeverStuckIff` | pkg/cache/cache.go:86-97 | Runs whose load (queued, with a worker or with the waiting caller) never exceeds q are never stuck if and only if q is at most queue size plus workers |
| `CacheWorkers.NoFallbackNeverStuck` | pkg/cache/cache.go:332-340 | Without SWRWithFallback callers it is never reached |
| `BatchProcessor.StepInv` | pkg/batch/process.go:130-170 | Every step of producers, channel, consumers, timers and Close keeps the invariant |
| `BatchProcessor.Conservation` | pkg/batch/process.go:130-170 | In every reachable state the accepted items are exactly those queued, pending and flushed, as multisets |
| `BatchProcessor.CloseFlushesAll` | pkg/batch/process.go:189-208 | When Close has returned, everything accepted has been flushed |
| `BatchProcessor.NothingAfterClose` | pkg/buffer/buffer.go:96-103 | After that no call changes anything: nothing is accepted or flushed |
| `BatchProcessor.FlushesInOrder` | pkg/batch/process.go:137-163 | Each flush has 1 to max(1, BatchSize) items, and a consumer's flushes list accepted items in order of acceptance |
| `BatchProcessor.SingleConsumerKeepsOrder` | pkg/batch/process.go:148-163 | With one consumer, flushed then pending then queued is the order of acceptance |
| `BatchProcessor.StepTowardsReturn` | pkg/batch/process.go:199-208 | Once Close is called, every step that changes anything lowers the measure |
| `BatchProcessor.CloseProgress` | pkg/batch/process.go:199-208 | Until Close returns such a step is possible |
| `BatchProcessor.EveryScheduleReturns` | pkg/batch/process.go:199-208 | Under every schedule Close returns after a bounded number of changes |
| `BatchProcessor.Process` | pkg/batch/process.go:130-170 | The loop over any sequence of selects computes the turns whose flushes `FlushesAtCuts` determines |
| `BatchProcessor.TurnsKeepAll` | pkg/batch/process.go:137-169 | The loop flushes or holds exactly what it received, in order, in allowed batches, and holds nothing at its end |
| `BatchProcessor.FlushesAtCuts` | pkg/batch/process.go:140-167 | From the selects alone: it flushes exactly where the timer fires, the channel is seen closed or the batch gets full, each time the items since the last such cut, and holds those since |
| `BatchProcessor.ConsumerRefines` | pkg/batch/process.go:130-170 | In every interleaving each consumer is what the loop makes of what its selects yield |
| `BatchProcessor.FlushesInEveryRun` | pkg/batch/process.go:130-170 | So in every run of producers, consumers, timers and Close each consumer has flushed exactly at those cuts |
| `BatchProcessor.TickFlushes` | pkg/batch/process.go:166-167 | The timer of a consumer that holds items makes them its next flush |
| `BatchProcessor.ConsumersStay` | pkg/batch/process.go:89-122 | As many consumers as configured, at least one, run throughout |
| `BatchProcessor.ProducerLedger` | pkg/buffer/buffer.go:96-121 | In every run each item that enters is accepted, waiting or dropped, and dropped only if configured |
| `BatchProcessor.NeverDropsWithRoom` | pkg/buffer/buffer.go:108-116 | Whenever an item is dropped the channel is full |
| `Buffer.Buffer.Buffer` | pkg/buffer/buffer.go:96-121 | Accepts while open if a consumer waits or there is room; else closed, dropped or blocking; the channel keeps items in order |
| `Buffer.Buffer.Receive` | pkg/buffer/buffer.go:142-144 | Takes the oldest item; reports the end only when closed and empty |
| `Buffer.Buffer.Close` | pkg/buffer/buffer.go:171-180 | Closes once and keeps what is queued |
| `CircuitBreaker.CB.constructor` | pkg/circuitbreaker/lib.go:173-184 | A closed breaker with both deadlines from its two clock readings |
| `CircuitBreaker.CB.Preflight` | pkg/circuitbreaker/lib.go:221-251 | New state and verdict are those of the specification, which `WhatArrivalsMeet` determines |
| `CircuitBreaker.CB.Postflight` | pkg/circuitbreaker/lib.go:254-281 | New state is that of the specification |
| `CircuitBreaker.CB.ShouldTrip` | pkg/circuitbreaker/lib.go:286-294 | By count, or by ratio after minRequests |
| `CircuitBreaker.CB.Do` | pkg/circuitbreaker/lib.go:207-218 | A whole call, with any steps of other calls while its function runs: postflight exactly when admitted |
| `BreakerModel.RunTurns` | pkg/circuitbreaker/lib.go:207-218 | The steps of calls, whoever takes them, are the runs the other results are about |
| `BreakerModel.RunInvariant` | pkg/circuitbreaker/lib.go:221-281 | Over every run the five counters are what they are named after, and the state deadline never lies more than timeout ahead, nor of the trip while open |
| `BreakerModel.WhenStateChanges` | pkg/circuitbreaker/lib.go:268-294 | On a completion half-open closes exactly when the last maxRequests outcomes of the window succeeded, closed opens exactly when too many failed |
| `BreakerModel.WhatArrivalsMeet` | pkg/circuitbreaker/lib.go:221-251 | Over every run, from state, outcomes and deadlines: exactly when an arrival is refused as tripped or as one too many, otherwise admitted, and the state and deadlines it leaves |
| `BreakerModel.NeverTrippedLate` | pkg/circuitbreaker/lib.go:235-244 | In any run a call more than timeout after the latest trip is not answered ErrTripped |
| `BreakerModel.ProbeBound` | pkg/circuitbreaker/lib.go:247-257 | With at most k overlapping calls, requests plus calls in flight stay within maxRequests + k - 1 while half-open after a reset |
| `BreakerModel.ProbeBoundReached` | pkg/circuitbreaker/lib.go:247-257 | For every k some run of a new breaker trips, probes and reaches that bound; cyclic period not negative, ratio at most 1 as WithFailureRatio ensures |
| `BreakerModel.Tripping` | pkg/circuitbreaker/lib.go:121-129 | Every breaker with a ratio of at most 1 can be tripped |
| `BreakerModel.SequentialTransitions` | pkg/circuitbreaker/lib.go:42-45 | Without overlap, closing needs maxRequests requests and no failure in the window; in count mode a success never trips |
| `BreakerModel.FailedProbeBlocksClosing` | pkg/circuitbreaker/lib.go:42-45 | Without overlap, after a failed probe the breaker stays half-open until the counters reset, whatever the later calls do |
| `BreakerModel.FailureBlocksIff` | pkg/circuitbreaker/lib.go:42-45 | Over all runs with at most k calls in flight, a failed probe keeps the breaker half-open until the counters reset if and only if k is at most 1 |
| `BreakerModel.OverlapCloses` | pkg/circuitbreaker/lib.go:247-279 | A run of a new breaker in which one of two overlapping probes fails and the breaker closes in the same window, with that failure counted |
| `BreakerModel.Recovery` | pkg/circuitbreaker/lib.go:225-279 | From any idle state past both deadlines, maxRequests successes within one period end in Closed |
| `BreakerModel.NoMinimumOpenTime` | pkg/circuitbreaker/lib.go:50-51 | A breaker that trips at 59 admits a call at 61 with a timeout of 60 |
| `BreakerModel.MinimumOpenTime` | pkg/circuitbreaker/lib.go:235-238 | It rejects for the whole timeout after a trip if and only if its deadline was set at the time of the trip |
| `BreakerModel.FailedProbeNeverReopens` | pkg/circuitbreaker/lib.go:275-278 | No outcome takes half-open to open |
| `InstanceMeter.ContainerTotal` | pkg/clickhouse/instance_meter.go:133-139 | However containers interleave, each is billed for its own consecutive pairs only |
| `InstanceMeter.UsageByContainer` | pkg/clickhouse/instance_meter.go:101-140 | A resource is billed the sum of its containers' own bills, for every meter |
| `InstanceMeter.LastSampleFree` | pkg/clickhouse/instance_meter.go:94-99 | The last sample is never billed against the column defaults |
| `InstanceMeter.TwoSamples` | pkg/clickhouse/instance_meter.go:118-127 | What two samples bill on each meter, from their fields |
| `InstanceMeter.BillAdds` | pkg/clickhouse/instance_meter.go:94-99 | A bill is the sum of its parts and the pair between them |
| `InstanceMeter.GapIsFree` | pkg/clickhouse/instance_meter.go:62-66 | More than two minutes, or nothing, between samples separates two bills, for every meter |
| `InstanceMeter.FallIsFree` | pkg/clickhouse/instance_meter.go:119-125 | So does a falling counter, or a detached sample for egress |
| `InstanceMeter.GaugeBetween` | pkg/clickhouse/instance_meter.go:79-82 | A gauge between lo and hi bills between lo and hi times the time covered |
| `InstanceMeter.ConstantLevel` | pkg/clickhouse/instance_meter.go:79-82 | A constant gauge bills its level times the time covered, without gaps from first to last sample |
| `InstanceMeter.WhereIff` | pkg/clickhouse/instance_meter.go:129-132 | Selected are the rows from start on and before end, of the requested workspaces |
| `InstanceMeter.WorkspaceFilter` | pkg/clickhouse/instance_meter.go:131-137 | Asking for some workspaces leaves out the others and changes no one's bill |
| `InstanceMeter.CpuTelescopes` | pkg/clickhouse/instance_meter.go:68-70 | Billed CPU never exceeds last minus first, and equals it if and only if no growth falls into a dropped pair |
| `InstanceMeter.LosingIff` | pkg/clickhouse/instance_meter.go:94-99 | For any nonnegative charge on pairs: losing samples never raises the sum if and only if skipping from a sample to a later one costs no more than going step by step |
| `InstanceMeter.LosingCpuIff` | pkg/clickhouse/instance_meter.go:94-99 | Losing any set of samples never raises the CPU bill if and only if samples of one millisecond agree or stand alone |
| `InstanceMeter.LosingEgressIff` | pkg/clickhouse/instance_meter.go:71-78 | Nor the egress bill, if and only if the counter stands still across detached samples and ties within the gap |
| `InstanceMeter.LosingGaugeIff` | pkg/clickhouse/instance_meter.go:79-82 | Nor the memory or disk bill, if and only if no level that counts is below both ends of a stretch within the gap |
| `InstanceMeter.TieLosesGrowth` | pkg/clickhouse/instance_meter.go:97-99 | Three samples, two of one millisecond, where losing one raises the bill |
| `InstanceMeter.EgressNeverOvercharges` | pkg/clickhouse/instance_meter.go:71-78 | Whatever detached samples report, billed egress never exceeds the true growth |
| `InstanceMeter.EgressTelescopes` | pkg/clickhouse/instance_meter.go:68-78 | It equals the true growth if and only if none falls into a dropped pair or one with a detached sample |
| `InstanceMeter.CutUsage` | pkg/clickhouse/instance_meter.go:128-139 | Cutting the window loses exactly the straddling pairs, for every meter, so the parts never bill more |
| `InstanceMeter.StraddlingIsOnePair` | pkg/clickhouse/instance_meter.go:133-137 | Per container that is the one pair of its last row before and first row after the cut |
| `InstanceMeter.PartsNeverExceedWhole` | pkg/clickhouse/instance_meter.go:128-139 | However often the window is cut |
| `KeyPaging.FilterFirst` | pkg/clickhouse/key_last_used.go:34-42 | Filtering by time before taking the maximum selects the same groups as filtering after |
| `KeyPaging.LaterIff` | pkg/clickhouse/key_last_used.go:34-42 | From the stored rows: a group is due if and only if this is its latest row, in the partition and after the cursor |
| `KeyPaging.StringLessIff` | pkg/clickhouse/key_last_used.go:42-43 | Key ids compare at their first difference |
| `KeyPaging.HasListing` | pkg/clickhouse/key_last_used.go:43-43 | Every set of groups can be listed once each, sorted by (last_used, key_id), ties in some order |
| `KeyPaging.EngineExists` | pkg/clickhouse/key_last_used.go:34-44 | For every table some engine answers every cursor so |
| `KeyPaging.ListingUnique` | pkg/clickhouse/key_last_used.go:43-43 | Without ties there is one such list |
| `KeyPaging.PageResumes` | pkg/clickhouse/key_last_used.go:15-20 | The cursor at a page's last row leaves what the page did not show, without the groups that tie with that row |
| `KeyPaging.Drain` | svc/ctrl/worker/keylastusedsync/partition_service.go:121-173 | Whatever the order of ties: the pages are by time and key id, each row the last use of its group, no group twice, every key due shown with its last use; and they list every later group if and only if no page ends between two groups that tie |
| `KeyPaging.Pages` | svc/ctrl/worker/keylastusedsync/partition_service.go:121-173 | The loop lists exactly the pages of the specification, and ends |
| `KeyPaging.DrainIff` | svc/ctrl/worker/keylastusedsync/partition_service.go:121-173 | The same of the pages as a function, for every table, cursor and page size |
| `KeyPaging.SyncedShows` | pkg/clickhouse/key_last_used.go:15-20 | Ties or not, every key id with its last use after the cursor is on some page |
| `KeyPaging.EveryLimitIff` | svc/ctrl/worker/keylastusedsync/partition_service.go:121-173 | Every page size lists every later group if and only if no two of them share last use and key id |
| `KeyPaging.PartitionsCover` | pkg/clickhouse/key_last_used.go:30-39 | Every group is in exactly one partition |
| `KeyPaging.TwinIsLost` | pkg/clickhouse/key_last_used.go:40-43 | Two groups that tie, pages of one row: every drain lists only one of them |
| `MemoryCounter.Counter.Increment` | pkg/counter/memory.go:32-48 | Entry and answer of the lazy specification |
| `MemoryCounter.Counter.Decrement` | pkg/counter/memory.go:80-96 | Entry and answer of the lazy specification |
| `MemoryCounter.Counter.Get` | pkg/counter/memory.go:50-60 | Answer of the lazy specification; a dead entry is removed |
| `MemoryCounter.Counter.MultiGet` | pkg/counter/memory.go:62-78 | The loop answers for every key and removes the dead ones, duplicates included |
| `MemoryCounter.Counter.DecrementIfExists` | pkg/counter/memory.go:98-115 | Decrements only a live value that is large enough |
| `MemoryCounter.Counter.SetIfNotExists` | pkg/counter/memory.go:117-133 | Writes only where no live entry is |
| `MemoryCounter.Counter.Delete` | pkg/counter/memory.go:135-141 | Removes the entry |
| `CounterModel.StepRefines` | pkg/counter/memory.go:14-16 | Each operation answers as eager expiry does and leaves the same live entries |
| `CounterModel.LazyRefinesEager` | pkg/counter/memory.go:23-30 | Over every sequence of operations with a nondecreasing clock the answers match |
| `CounterModel.Conservation` | pkg/counter/memory.go:32-133 | After every run a value is initial plus increments minus effective decrements, modulo 2^64 |
| `CounterModel.LifetimeBalance` | pkg/counter/memory.go:32-133 | The same from operations and answers alone, as long as a key lives; its expiry stays |
| `CounterModel.BalanceSinceCreation` | pkg/counter/memory.go:32-133 | And from the operation that created the key, until the expiry it was created with |
| `CounterModel.AnswersByClock` | pkg/counter/memory.go:14-133 | In clock readings: up to the expiry it was created with a key answers every operation with its balance, and after it as one that was never there |
| `CounterModel.DeleteForgets` | pkg/counter/memory.go:135-141 | A deleted key answers as one that was never there |
| `CounterModel.CreditNeverNegative` | pkg/counter/memory.go:98-133 | Under the credit discipline no value is ever negative if and only if no exact balance exceeds the largest integer |
| `CounterModel.ExactBalance` | pkg/counter/memory.go:32-133 | Under that discipline every value is, throughout the run and at its end, exactly initial plus increments minus effective decrements, if and only if no balance ever exceeds the largest integer |
| `CounterModel.ExactLifetime` | pkg/counter/memory.go:32-133 | The same for one key from operations and answers alone, as long as it lives; the value is then not negative |
| `CounterModel.ExactSinceCreation` | pkg/counter/memory.go:32-133 | And from the operation that created the key |
| `CounterModel.OverflowGoesNegative` | pkg/counter/memory.go:45-47 | Two increments by the largest integer give -2 |
| `Cli.InitFlagMap` | pkg/cli/parser.go:189-197 | The map finds for each name the last flag of that name |
| `Cli.ParseFlag` | pkg/cli/parser.go:135-187 | State, error and moved index of the specification, at any index |
| `Cli.ValidateRequiredFlags` | pkg/cli/parser.go:199-227 | The first error of the specification |
| `Cli.ReadArguments` | pkg/cli/parser.go:20-101 | The loop keeps the outcome of the whole parse until it ends, is used up or hands over |
| `Cli.ParseCommand` | pkg/cli/parser.go:12-131 | The loop with its moved index and recursion into subcommands computes the parse, and terminates |
| `CliModel.ValidateIff` | pkg/cli/parser.go:199-227 | Validation passes if and only if required flags are set and exactly one flag of each group |
| `CliMeaning.HowItEnds` | pkg/cli/parser.go:103-131 | With all arguments read: a stray positional, the first unset required flag or the first bad group decides, and only without them the command runs |
| `CliMeaning.ParseMeans` | pkg/cli/parser.go:20-101 | A line of flags, switches, words and subcommands, in whatever spelling, is parsed to what its tokens mean |
| `CliMeaning.ParseMeansUpToSeparator` | pkg/cli/parser.go:23-33 | Up to a `--`, behind which all are positionals |
| `CliMeaning.FlagsAndWords` | pkg/cli/parser.go:66-101 | Then the positionals are the words in order and each flag has been given exactly its own values, in order |
| `CliMeaning.MissingValue` | pkg/cli/parser.go:175-183 | A flag that takes a value and comes last is an error |
| `CliModel.ParseInTwo` | pkg/cli/parser.go:20-101 | Parsing a list is parsing a first part and going on from where it leads, also behind a flag that awaits its value |
| `CliModel.SpellingsAgree` | pkg/cli/parser.go:148-186 | `--f=v` and `--f v` have the same outcome anywhere a flag is read, for a flag that takes a value |
| `CliModel.SpellingsAfterSeparator` | pkg/cli/parser.go:23-33 | Behind `--` they have the same outcome if and only if positionals do not show in it |
| `CliModel.SpellingsBehindFlag` | pkg/cli/parser.go:175-183 | Behind a flag that awaits its value `--f=v` is that value, or else `--f` is and `v` is read next; the outcomes are equal if it refuses both |
| `CliModel.SpellingsDiffer` | pkg/cli/parser.go:175-183 | They differ whenever it takes both and `v` is a positional too many |
| `CliModel.DifferingCommand` | pkg/cli/parser.go:175-183 | Such a command and argument list |
| `CliModel.FlagsCommute` | pkg/cli/parser.go:66-101 | Without subcommands a `--f=v` and a neighbouring positional may change places before `--` |
| `CliModel.AfterSeparator` | pkg/cli/parser.go:23-33 | Behind `--` every argument is a positional |
| `CliModel.HelpIsOwnHelp` | pkg/cli/parser.go:35-64 | `help`, `-h` and `--help` show the current command's help, whatever follows |
| `CliModel.VersionIsShown` | pkg/cli/parser.go:41-50 | `-v` and `--version` show the version of a command that has one |

## Left out

- Floating point: the failure ratio and the meters are exact; division by 1e6, 3600 and 1024^3 and Float64 rounding are not modelled.
- Metrics, timing, logging, tracing, contexts and cancellation: no effect on the modelled state.
- Cache eviction policy and real-time TTL of the underlying store: eviction is an arbitrary removal.
- Dump, and the JSON encoding of Dump and Restore: only what Restore does with one decoded entry is modelled.
- Background refreshes write like foreground ones: in CacheStaleness they are writes, in CacheWorkers only their keys matter.
- A queue of capacity zero in CacheWorkers: the source's capacity is 1000; `Progress`, `StuckReachable` and `NeverStuckIff` ask for at least one.
- CacheModel.ManyRefinesEach: does not cover a stale time of zero or less, with which an overdue entry may by chance equal the one SWRMany writes.
- BreakerModel.ProbeBoundReached: does not cover a negative cyclic period, with which every arrival resets the counters.
- BreakerModel.FailureBlocksIff: nor does it; for such a period only its direction for k at most 1 is proved, in `BlockedRun`.
- InstanceMeter.LosingEgressIff: covers traces whose attached samples do not fall, as LosingCpuIff covers counters that do not fall; a counter reset ends a trace.
- The backing array that the consumer loop reuses after a flush: a flush function is taken to keep no reference to its batch.
- Scan and driver errors of the two queries, and the crash recovery of the drain loop's cursor.
- Types of flag values, environment defaults, help texts and actions in the parser: a flag is a partial update of its state, and an outcome says only that the action is reached. After a refused value the outcome holds the states before it.
- Redis counter, generated database wrappers, other ClickHouse queries, configuration tags, assertion helpers: wrappers or tables that would only add easy members.
