# Verified model of webdav-video-proxy

The proxy serves byte ranges of video files from a WebDAV upstream: it cuts a range into cache blocks, fetches
them over several connections, hands them out in order, keeps them in a bounded block cache, and preloads what
comes next. This project models that logic in Dafny and proves what the player relies on.

`dafny verify dfyconfig.toml` checks everything.

## How it is organised

| file | what it models |
|---|---|
| `Blocks.dfy` | block arithmetic, the offset loop of Fetch, dealing blocks to workers |
| `Reader.dfy` | the ordered reader: its fields as a class, one pass of Read as a function |
| `Stream.dfy` | Fetch as a step machine: puts, failures, timeouts, closes and reads in any order |
| `Fallback.dfy` | the whole-file fallback, as a loop and as a run of the same machine |
| `FetchBlock.dfy` | one block from the cache or from the upstream, with retries |
| `Handler.dfy` | range clamp, all-hit check and flush of cached blocks; the three paths compared |
| `Oldest.dfy`, `Store.dfy`, `Cache.dfy` | oldest-first listings, the blocks table, the cache with its two evictors |
| `CacheRuns.dfy` | all users of the cache interleaved: pins, size bound, agreement with the files |
| `Scheduler.dfy`, `PreloadRuns.dfy` | the preload slots, and all preload tasks interleaved |
| `NatOrder.dfy`, `Preloader.dfy` | natural order of names, stable sort, next episode, readahead |
| `Assessor.dfy`, `AssessorRuns.dfy` | sub-source profiles, plans, workers and runs of the throttle loop; the same with reads and writes interleaved |
| `Marker.dfy`, `Prune.dfy` | the slow mark in folder names, the bounded metadata map |

Code that changes state step by step is a class or a method with loops, proved against functions on values. The
step machines apply the same functions, one critical section, channel operation or SQL statement at a time, and
the lemmas about whole runs quantify over every sequence of enabled steps.

## What the proofs found

* A cache hit can give the wrong bytes. Blocks are clamped to the request that fetched them and stored under
  their index all the same, so the cache holds prefixes of blocks; and the cut of the last segment compares a
  position that forgets the shift of the first. `Handler.FlushExactlyWhen` gives the exact condition for the
  requested bytes. A range inside one block, behind its first byte, whose block goes on behind it has too many
  bytes handed to Write, which refuses them as a whole because they go beyond Content-Length: the response is
  empty (`Handler.FlushOverruns`, `Handler.OverrunExample`).
* The statement in `web/guide/degradation.md` that a hit never gives fewer bytes than Content-Length does not hold
  of the code: the client gets that many if and only if it gets exactly the requested bytes, that is, if and only
  if the blocks are servable (`Handler.NeverShortExactlyWhen`). It fails for every such overrun, from full blocks
  too, and after a request for byte 0 alone (`CacheRuns.OneByteHits`).
* The same short blocks make the ordered reader slice out of bounds, exactly when the probe block stops short of
  the range (`Stream.FirstReadPanicsExactlyWhen`). A fetch that starts in the block where an earlier one ended does
  so if and only if it starts more than one byte behind that end (`CacheRuns.NextFetchPanicsExactlyWhen`): after a
  request for byte 0 (`CacheRuns.OneByteProbePanics`), and by readahead alone
  (`CacheRuns.ReadAheadPanicsExactlyWhen`, `CacheRuns.ReadAheadPanicExample`). A range behind the end of a whole
  body panics exactly in the case of `Fallback.WholeFilePanicsExactlyWhen`.
* A Read that times out can fail at a byte that was supplied, when the block comes in between the timer and the
  lock: `Stream.TimeOutAtGapExactlyWhen`, with `Stream.TimeOutHidesData` and `Stream.SecondReadWaits` for the run.
* Nothing in the code ever stores the outcome of the friendliness probe, so a fresh installation never plans more
  than one connection: `Assessor.ParallelNeverPlanned`, `AssessorRuns.ParallelNeverPlannedInRaces`.
* A throttle mark can be lost between the two statements of RecordSample (`Assessor.MarkLostInRace`) or of a probe
  mark; it lasts if and only if none of these is under way with a row read before it
  (`AssessorRuns.MarkStaysExactlyWhen`). It does not cut plans made before it once it has expired
  (`Assessor.OldPlansAreCutExactlyWhen`).
* Readahead, described as two blocks, touches three unless the file ends in its first or second block:
  `Preloader.ReadAheadTouchesTwoExactlyWhen`, `Preloader.ReadAheadExample`.
* A folder name that ends in `·slow` or contains the mark is not restored: `Marker.MarkRoundTripExactlyWhen`.

## Model

| member | source | states |
|---|---|---|
| Blocks.RangeBlocksExact | internal/fetcher/fetcher.go:44-52 | a request's offsets are exactly the aligned blocks that meet it, increasing, `end/bs - start/bs + 1` of them, the first holding `start` and one holding `end` |
| Blocks.SplitRange | internal/fetcher/fetcher.go:44-52 | the split loop computes that list for every start and end, also when the range is empty |
| Blocks.HandSize | internal/fetcher/fetcher.go:92-96 | worker `w` of `n` gets a quotient's worth of blocks, and one more if `w` is below the remainder |
| Blocks.HandMembers | internal/fetcher/fetcher.go:92-96 | worker `w` of `n` gets, in increasing order, exactly the blocks whose place in the list is `w` modulo `n` |
| Blocks.Deal | internal/fetcher/fetcher.go:92-96 | the round-robin loop gives every worker its hand |
| Blocks.DealPartition | internal/fetcher/fetcher.go:88-96 | the hands increase, are disjoint, together are all remaining blocks, and differ in size by at most one |
| Reader.OrderedReader.Put | internal/fetcher/seekable.go:34-41 | a put changes the buffer at that offset and nothing else |
| Reader.OrderedReader.Fail | internal/fetcher/seekable.go:43-49 | a failure records the error and closes, keeping what is buffered |
| Reader.OrderedReader.Read | internal/fetcher/seekable.go:80-120 | one critical section of Read behaves as `Pass` and leaves the caller's buffer untouched behind the delivered bytes |
| Reader.OrderedReader.WaitExpired | internal/fetcher/seekable.go:96-101 | a timeout reports the recorded error, or an unexpected end of file, and remembers it |
| Reader.OrderedReader.Close | internal/fetcher/seekable.go:122-128 | closing keeps every other field |
| Reader.PanicsExactlyWhenShort | internal/fetcher/seekable.go:105-107 | a pass panics if and only if the block at hand ends before the read position |
| Reader.OutcomeExactlyWhen | internal/fetcher/seekable.go:83-104 | Read ends the stream, waits, fails or goes on to deliver exactly by the read position, the block buffered there and whether the reader is closed; it fails with the recorded error, else with an unexpected end of file |
| Reader.TakesAllThereIs | internal/fetcher/seekable.go:105-118 | a returning Read takes as many bytes as fit into the buffer and are there before the end of the block and of the range, and drops the block, and no other, once its last byte is read |
| Stream.ReadKeeps | internal/fetcher/seekable.go:80-120 | a Read of any size keeps the stream invariant and cannot panic under it |
| Stream.RunKeeps | internal/fetcher/fetcher.go:80-129 | every interleaving of puts, failures, closes and reads, and of timeouts of a waiting Read whatever was put since it began to wait, keeps the invariant |
| Stream.OrderedStreamSafety | internal/fetcher/seekable.go:36-128 | over all interleavings the bytes read are a prefix of the requested range, `nextOff` counts them, no slice is out of bounds, and a block leaves the buffer only after its last byte was read |
| Stream.SuppliedAsPut | internal/fetcher/fetcher.go:98-117 | over all interleavings a worker has put the first blocks dealt to it, as many as it has made puts, each with the data of its put, and no other one of its blocks is supplied |
| Stream.PutsExactlyWhen | internal/fetcher/fetcher.go:98-117 | after any run a worker can put if and only if it is not through, and any bytes of the file from the start of its next block on, at most a block of them, short blocks included |
| Stream.FailedWorkerStops | internal/fetcher/fetcher.go:103-111 | after its failure a worker neither puts nor fails again |
| Stream.FailedBlockNeverComes | internal/fetcher/fetcher.go:103-111 | a block its worker has not put when it fails is never supplied |
| Stream.EndsExactlyWhen | internal/fetcher/fetcher.go:98-127 | after any run the background goroutine can close the reader if and only if every worker has failed or put all blocks dealt to it; the caller can close at any moment; a worker can fail if and only if it is not through |
| Stream.FirstReadPanicsExactlyWhen | internal/fetcher/seekable.go:105-107 | the first Read panics if and only if the probe block stops short of `start` |
| Stream.ErrorsOnlyAtGaps | internal/fetcher/seekable.go:80-120 | a pass over the buffer fails or waits only at a byte no block supplied; any error, a timeout's included, is a worker's once one has failed and an unexpected end of file otherwise; and no Read starts to wait once anything has closed the reader |
| Stream.TimeOutAtGapExactlyWhen | internal/fetcher/seekable.go:56-78 | a Read that times out stands at a byte no block supplied if and only if the buffer lacks that byte when it has the lock again |
| Stream.TimeOutHidesData | internal/fetcher/seekable.go:96-101 | whenever a Read waits for a block a worker is about to put, it can still time out after the put, with the byte it waited for in the buffer |
| Stream.SecondReadWaits | internal/fetcher/seekable.go:56-78 | every fetch of two whole blocks over one connection comes to such a moment |
| Stream.SettledOutcome | internal/fetcher/fetcher.go:98-127 | a run without failures ends with end-of-stream if and only if every byte was supplied, otherwise with an unexpected end of file at the first missing byte |
| Stream.CleanRunsAreShort | internal/fetcher/fetcher.go:98-127 | in a run without failures, puts and reads that return with room in the buffer use up a measure, so there are no more of them than it counts at the start |
| Stream.CleanRunsCanComplete | internal/fetcher/fetcher.go:98-127 | however far a run without failures has come with full blocks, it can go on, puts, close and reads in turn, until exactly the requested range is delivered |
| Stream.FetchCanComplete | internal/fetcher/fetcher.go:80-129 | a fetch whose probe block is full can be completed from its start |
| Stream.FetchIsComplete | internal/fetcher/fetcher.go:80-129 | with full blocks Read never fails, and a settled stream is exactly the range, `end-start+1` bytes as Content-Length declares, then end-of-stream |
| Stream.CompleteOnlyIfFull | internal/fetcher/fetcher.go:80-129 | a settled stream of full length used only full blocks |
| Fallback.FetchWholeFile | internal/fetcher/fetcher.go:204-244 | chunk `i` goes to the cache under index `i` with the body's bytes from `i * blockSize` up to the next block or the body's end; the chunks together are the body, or what came before the turn that found the context cancelled; the closed reader holds the same blocks and no others; the error is the cancellation's, else that of a broken body, else none; without a body there is an error and nothing is put |
| Fallback.PutsRun | internal/fetcher/fetcher.go:217-241 | the loop's puts are a run of the stream machine that leaves the reader as the method does |
| Fallback.WholeFileRefinesRange | internal/fetcher/fetcher.go:204-244 | whatever reads interleave, the fallback delivers the range as far as the body goes, nothing if the body ends before the block the range starts in, then end-of-stream if the body holds byte `end` and an unexpected end of file if not |
| Fallback.WholeFileSafety | internal/fetcher/fetcher.go:204-244 | over every interleaving of the fallback with failures, timeouts, closes and reads the bytes read are a prefix of the requested range, `nextOff` counts them, no slice is out of bounds and a block leaves the buffer only after its last byte, for a range that does not start behind the body's end in the block the body ends in |
| Fallback.WholeCanSettle | internal/fetcher/fetcher.go:217-241 | however far a run of the fallback has come, it can go on until it has settled |
| Fallback.WholeFilePanicsExactlyWhen | internal/fetcher/seekable.go:105-107 | a range behind the body panics if and only if the body ends inside the block the range starts in |
| FetchBlock.FetchBlock | internal/fetcher/fetcher.go:160-201 | the answer is the cached block or the first decisive attempt of at most three, always a prefix of the file's block; a body that broke off after some bytes is taken; a 200 answer is not retried; after three failures the error is the last one's; the sub-source is marked if and only if a 429 or 503 came in |
| Handler.ResolvedRange | internal/server/handler_get.go:37-52 | for a satisfiable request the clamped range lies in the file and holds exactly the positions section 2.1 of RFC 7233 gives it |
| Handler.CheckCached | internal/server/handler_get.go:54-73 | the check asks for the blocks Fetch would, none behind the file, in order up to the first miss, keeps what each Get gave, and reports a full hit if and only if every Get hit; the blocks it renews are those of its hits |
| Handler.FlushCachedBlocks | internal/server/handler_get.go:123-143 | the flush loop hands the segments to the response writer in order, of which what stays within the declared Content-Length arrives, or panics on a bad slice before it has written anything |
| Handler.FlushTail | internal/server/handler_get.go:124-139 | from a block at or behind `start` on, what is handed to Write is right exactly when every block reaches its end or the range's, and never too long |
| Handler.FlushInside | internal/server/handler_get.go:124-139 | what a range inside one block behind its first byte hands to Write |
| Handler.SentInside | internal/server/handler_get.go:78-138 | what the client of such a range gets: the bytes up to the data's end, none once the data goes on behind the range, a panic if it stops before it |
| Handler.FlushExactlyWhen | internal/server/handler_get.go:89-99 | a hit hands exactly the requested bytes to Write if and only if its blocks are servable |
| Handler.NeverShortExactlyWhen | internal/server/handler_get.go:78-138 | the client of a hit gets at least the `end-start+1` bytes of Content-Length if and only if the blocks are servable, and then exactly the requested ones; it never gets more |
| Handler.FlushOverruns | internal/server/handler_get.go:134-138 | every range inside a block, behind its first byte and before the data's end, hands more bytes than declared to one Write and gets an empty response |
| Handler.OverrunExample | internal/server/handler_get.go:134-138 | bytes 1 and 2 of a full four-byte block: three bytes are handed to Write, none arrives |
| Handler.ThreePathsAgree | internal/server/handler_get.go:89-112 | settled range fetch, settled whole-file fallback and what a flush of servable blocks gets through are the same `end-start+1` bytes |
| Oldest.ListOldest | internal/store/store.go:205-222 | a listing is the oldest keys, oldest first, without repetition, as many as the limit allows |
| Store.TotalRemove | internal/store/store.go:244-251 | the total is the sum of the sizes, whichever row is taken out first, and zero of nothing |
| Store.Store.PutBlock | internal/store/store.go:156-164 | an upsert replaces data and time of one row |
| Store.Store.GetBlock | internal/store/store.go:166-182 | a hit returns the data and renews only the time of that row; a miss changes nothing |
| Store.Store.ListExpiredBlocks | internal/store/store.go:224-242 | only rows used before the cutoff, oldest first |
| Store.Store.CacheTotalSize | internal/store/store.go:244-251 | the sum over all rows |
| Cache.RefKeysMatch | internal/cache/cache.go:18-36 | pinning and evicting a block use the same reference key, and different blocks can share one |
| Cache.RefKeysApart | internal/cache/cache.go:18-36 | two blocks of one version of one file never do |
| Cache.RowsApart | internal/cache/cache.go:18-26 | two blocks share a row if and only if sub-source, path, version and index agree |
| Cache.Cache.Get | internal/cache/cache.go:57-59 | a Get gives what the block's row holds and changes what no block's Get gives |
| Cache.Cache.Put | internal/cache/cache.go:65-84 | nothing is stored at or above one and a half times the limit; otherwise a Get of the same block gives the data, cut to size, a Get of any other block what it gave before, and the evictor is woken |
| Cache.Cache.Acquire | internal/cache/cache.go:86-91 | one more reference under the block's key, and a handle not yet released |
| Cache.Cache.Release | internal/cache/cache.go:92-102 | the first release takes one reference back, later ones nothing |
| Cache.Cache.TryEvict | internal/cache/evict.go:80-92 | a block with a positive reference count stays and is reported so, any other is deleted |
| Cache.Cache.EvictOnce | internal/cache/evict.go:30-55 | below the high watermark nothing changes; otherwise blocks go one by one, each the least recently used unpinned one and each while the total was not below the low watermark, until it is or the oldest sixteen are pinned; without references it always gets below; survivors keep their rows |
| Cache.EvictStep | internal/cache/evict.go:43-50 | deleting the next unpinned row of a listed batch is a needed deletion of the least recently used unpinned row, also in the order of the whole run |
| Cache.JustUsedGoesLast | internal/store/store.go:156-182 | a block read or written after all others is taken by an eviction run only if nothing but pinned blocks is left |
| Cache.EvictionStopsEarly | internal/cache/evict.go:31-55 | a run that deletes leaves at least the low watermark less a block |
| Cache.FewPinsReachLow | internal/cache/evict.go:37-54 | with fewer than sixteen pinned rows only pinned ones can keep the total up |
| Cache.Cache.EvictExpired | internal/cache/evict.go:57-78 | the sweep ends, deletes only unpinned expired blocks, and leaves expired ones only behind a pinned batch of thirty-two, none without references; no TTL, no change |
| Cache.FewPinsNoneExpired | internal/cache/evict.go:63-77 | with fewer than thirty-two pinned rows no unpinned expired block survives |
| CacheRuns.PinStep | internal/cache/cache.go:86-103 | every step keeps each count equal to the unreleased handles under its key, entries existing only while positive |
| CacheRuns.HeldBlockStays | internal/cache/evict.go:80-92 | no step removes a block with an unreleased handle, colliding keys included |
| CacheRuns.PinSafety | internal/cache/evict.go:80-92 | both hold after every interleaving of all cache users |
| CacheRuns.StoredUntilReleased | internal/cache/cache.go:86-103 | over all interleavings from the empty cache, a block that is stored when it is acquired stays stored until that handle is released |
| CacheRuns.EvictedOnceReleased | internal/cache/evict.go:80-92 | and once every handle under its reference key has been released, an eviction removes the block and nothing else |
| CacheRuns.PinnedExactlyWhenHeld | internal/cache/evict.go:80-92 | a block is pinned if and only if some unreleased handle has its reference key |
| CacheRuns.SizeBound | internal/cache/cache.go:65-84 | with at most `k` puts between check and write the total stays at or below one and a half times the limit, less one, plus `k` blocks |
| CacheRuns.Agreement | internal/fetcher/fetcher.go:107-114 | every stored block is a prefix of the file's block of its index, over all fetches, fallbacks, re-puts and evictions |
| CacheRuns.FetchedIsStep | internal/fetcher/fetcher.go:107-112 | whatever FetchBlock gives for a block of a range, the put of it under `off/blockSize` is a step of those runs |
| CacheRuns.ChunkIsStep | internal/fetcher/fetcher.go:225-231 | so is every put of the whole-file fallback, as a step that brings in a whole block of the body |
| CacheRuns.AloneLikePut | internal/cache/cache.go:68-84 | uninterrupted, check and write are the method Put |
| CacheRuns.HitServedExactlyWhen | internal/server/handler_get.go:64-99 | in any run, with writes and evictions between the Gets, what the check gathers reaches the client as exactly the requested bytes if and only if it is servable, and as fewer than Content-Length declares, or a panic, if not |
| CacheRuns.OneByteStored | internal/fetcher/fetcher.go:161-165 | a request for byte 0 alone leaves a one-byte block 0 in the cache |
| CacheRuns.OneByteHits | internal/server/handler_get.go:64-99 | after it, every longer range in that block is a hit that gives one byte, none, or a panic |
| CacheRuns.OneByteProbePanics | internal/fetcher/fetcher.go:62-89 | after it, a range that starts behind byte 1 of block 0 and ends behind the block is not a full hit, and whatever its fetch gets for the probe block makes the first Read panic |
| CacheRuns.PutsStore | internal/fetcher/fetcher.go:102-114 | with room below the hard limit, a fetch leaves each of its blocks in the cache, the last one clamped to its end, and the file's other blocks as they were |
| CacheRuns.NextFetchPanicsExactlyWhen | internal/fetcher/fetcher.go:62-89 | a fetch that starts in the block where an earlier one ended panics at its first Read if and only if it starts more than one byte behind that end |
| CacheRuns.ReadAheadPanicsExactlyWhen | internal/preloader/preloader.go:48-85 | so do two readaheads of one file |
| CacheRuns.ReadAheadPanicExample | internal/preloader/preloader.go:48-85 | behind bytes 2 and 20 of a hundred in blocks of eight the second readahead panics |
| Scheduler.Scheduler.TryAcquire | internal/preloader/scheduler.go:28-55 | both slots if and only if the global channel has room and the sub-source has fewer than two, otherwise, after back-off, none |
| Scheduler.Scheduler.Release | internal/preloader/scheduler.go:57-60 | both slots go back, provided neither receive would block |
| PreloadRuns.SlotsStep | internal/preloader/scheduler.go:40-60 | every channel operation keeps the counts equal to the tasks that hold a slot and within capacity |
| PreloadRuns.SlotsConserved | internal/preloader/preloader.go:57-66 | over all interleavings counts match holders, at most two a sub-source, one live task a key, and all free when no task lives |
| PreloadRuns.BeginsExactlyWhen | internal/preloader/preloader.go:57-60 | in every reachable state a task begins if and only if no live task has its key |
| PreloadRuns.NeverBlocks | internal/preloader/scheduler.go:57-60 | every live task can take its next step, receives included, and each brings it nearer its end |
| PreloadRuns.AloneLikeTheMethods | internal/preloader/scheduler.go:40-60 | uninterrupted, a task's steps are the methods TryAcquire and Release, and it gets to run if and only if both channels have room |
| Preloader.Preloader.BeginTask | internal/preloader/preloader.go:133-141 | a key is taken once and refused while it is live |
| Preloader.Preloader.EndTask | internal/preloader/preloader.go:143-147 | the key is free again, others stay |
| Preloader.ReadAheadExactly | internal/preloader/preloader.go:48-56 | there is readahead if and only if the next block starts inside the file, and then from there to two blocks on or the last byte |
| Preloader.ReadAheadTouchesTwoExactlyWhen | internal/preloader/preloader.go:48-56 | readahead lies behind the read position and inside the file, touches at most three blocks, and at most two if and only if the file ends in the block it starts in or the next |
| Preloader.ReadAheadExample | internal/preloader/preloader.go:48-56 | behind byte 2 of fourteen, in blocks of four, it touches three |
| NatOrder.NumIsTrueValue | internal/preloader/preloader.go:194-202 | a digit run is read as its true value if and only if that fits in 64 bits |
| NatOrder.NumWraps | internal/preloader/preloader.go:194-202 | and in any case as the signed 64-bit integer that differs from it by a multiple of 2^64 |
| NatOrder.ReadNum | internal/preloader/preloader.go:194-202 | the whole digit run is read, its value wrapped to 64 bits |
| NatOrder.NatLess | internal/preloader/preloader.go:168-190 | the loop decides the lexicographic order of the names' tokens |
| NatOrder.StrictWeakOrder | internal/preloader/preloader.go:168-190 | irreflexive, transitive, incomparability is equality of tokens and transitive |
| NatOrder.DigitsDecide | internal/preloader/preloader.go:171-181 | names that first differ in a run of digits that fits in 64 bits are ordered by its value, and at equal values by what comes behind |
| NatOrder.CharactersDecide | internal/preloader/preloader.go:182-188 | names that first differ in characters that are not both digits, outside a digit run, are ordered by their codes |
| NatOrder.PrefixFirst | internal/preloader/preloader.go:189 | a name comes before every longer one that it begins, unless that goes on within a digit run |
| NatOrder.EpisodeNumbers | internal/preloader/preloader.go:168-190 | "E2" comes before "E10"; "E02" and "E2" are equal in order |
| Preloader.SortedOk | internal/preloader/preloader.go:156-159 | the sorted names are the given ones, in natural order, equals in their given order |
| Preloader.StableSortUnique | internal/preloader/preloader.go:156-159 | order and stability determine the list, so any stable sort gives it |
| Preloader.NextEpisode | internal/preloader/preloader.go:154-166 | the answer is the name behind the first occurrence of the current one in the sorted list |
| Preloader.NextOfStranger | internal/preloader/preloader.go:160-165 | a name not listed has no next episode |
| Preloader.NextEpisodeExample | internal/preloader/preloader.go:154-166 | of "E10" and "E2", "E2" is followed by "E10" and that by nothing |
| Preloader.EpisodeWalk | internal/preloader/preloader.go:154-166 | from the first file on, repeated NextEpisode visits every file exactly once in natural order and then gives the empty name |
| Assessor.LastWordExactlyWhile | internal/assessor/assessor.go:43-71 | whatever came before and whatever happens to other sub-sources, a profile shows the last sample or mark on its own sub-source while that is at most the configured age, and an unknown sub-source with one connection from then on |
| Assessor.Assessor.RecordSample | internal/assessor/assessor.go:73-101 | the sample is appended; the bandwidth is the median of the latest ones; the sub-source is slow if and only if more than half of those are; friendliness is kept, a blank one becomes unknown, and the suggestion follows it |
| Assessor.SampleWrites | internal/assessor/assessor.go:76-93 | with all samples given, the row gets the median of the newest ones, as many as configured; it is slow if and only if more than half of those are; friendliness stays, a blank or missing one becomes unknown; only a friendly sub-source is suggested more than one connection |
| Assessor.MedianBelowExactlyWhen | internal/assessor/assessor.go:116-123 | the median is below a threshold if and only if more than half of the samples are |
| Assessor.Assessor.MarkThrottled | internal/assessor/assessor.go:103-114 | the row is throttled with one connection, its bandwidth kept |
| Assessor.Assessor.EnsureProfile | internal/assessor/probe.go:13-44 | only a missing row, or an expired one past the probe interval, is renewed |
| Assessor.PlanBounds | internal/fetcher/plan.go:25-51 | a plan asks for 1 to max(1, configured) connections, more than one only from a friendly sub-source, and Fetch starts 1 to that many workers |
| Assessor.ConnectionsExactly | internal/fetcher/plan.go:31-41 | a plan asks a friendly sub-source for the suggested number up to the configured one and any other for one; a fetch keeps it, up to the number of blocks, for a sub-source friendly or unknown, and uses one otherwise |
| Assessor.ThrottleIsSticky | internal/fetcher/fetcher.go:57-78 | once marked, no run of assessor operations lets a later plan or fetch use a second connection |
| Assessor.OldPlansAreCutExactlyWhen | internal/fetcher/fetcher.go:147-158 | an earlier plan is cut to one worker if and only if the mark has not expired |
| Assessor.ParallelNeverPlanned | internal/assessor/assessor.go:73-114 | from a store without friendly rows, every plan after every run asks for one connection |
| Assessor.MarkLostInRace | internal/assessor/assessor.go:79-93 | a mark between the read and the write survives if and only if the row read was throttled already |
| AssessorRuns.MarkStaysExactlyWhen | internal/assessor/assessor.go:73-114 | over all interleavings of reads and writes a mark lasts, whatever comes, if and only if no sample or probe mark of the sub-source is under way with a row read before it |
| AssessorRuns.ParallelNeverPlannedInRaces | internal/assessor/assessor.go:73-114 | from a store without friendly rows no such interleaving ever leads to a plan with more than one connection |
| AssessorRuns.AloneLikeTheMethods | internal/assessor/assessor.go:73-114 | a read and its write without interference are one operation of the class |
| Marker.MarkedNamesApart | internal/marker/marker.go:60-67 | two folders whose names neither contain the mark nor end in `·slow` are shown under the same marked name only if they are the same folder at the same bandwidth, and never one marked under the other's unmarked name |
| Marker.MarkedNameIs | internal/marker/marker.go:62-67 | the folder of a source that is not slow keeps its name, a slow one's is followed by `·slow·`, the bandwidth and `MBps` |
| Marker.CutAtFirstMark | internal/marker/marker.go:74-76 | a segment is cut if and only if it has the mark but does not begin with it, and then before the first one |
| Marker.StripMarker | internal/marker/marker.go:69-81 | the first segment with a mark behind its first character is cut there |
| Marker.UnmarkedExactlyWhen | internal/marker/marker.go:69-81 | a path is unchanged if and only if no segment can be cut |
| Marker.SplitJoin | internal/marker/marker.go:73-77 | splitting undoes joining for segments without a slash |
| Marker.MarkRoundTripExactlyWhen | internal/marker/marker.go:60-81 | marking a folder and stripping the path restores the path if and only if the name is not empty, has no mark in it and no `·slow` at its end, and no earlier segment can be cut |
| Prune.MetaCache.PruneMeta | internal/server/server.go:202-225 | over the limit, exactly `cap - cap/4` entries stay, and they are the newest |
| Prune.MetaCache.Remember | internal/server/server.go:139-142 | no insertion leaves more entries than the limit |

## Left out

- HTTP transport, header parsing and XML: an upstream call is an attempt with an outcome, and a 206 body is a prefix of the requested bytes.
- Range headers that are not of the form `first-last` or `first-`, or not satisfiable.
- SQLite: the blocks and profile tables are maps with the statements' effects; SQL errors do not occur, and a zero-length blob counts as stored data, whatever the driver hands back for it.
- Widths of offsets and sizes: they are unbounded integers, since files end far below 2^63; only digit runs in names wrap.
- Timers, back-off sleeps and goroutine scheduling: a timeout, a clock value and the choice of the next step are free.
- Reader.OrderedReader.Read: stands for one pass between taking the lock and returning or waiting; a waiting call is a pass that gives `Blocked`, followed by another pass or, if the timer has fired, whatever was put since, by WaitExpired.
- Cache.Cache.EvictOnce: the least-recently-used and watermark statements are about a run without interference; CacheRuns lets single evictions interleave with everything else.
- Handler.FlushCachedBlocks: the response writer is Go's net/http, which is not part of the repository; of it only the refusal of a Write that goes beyond the declared Content-Length (`http.ErrContentLength`) is modelled, not buffering, a lost connection, or what a client makes of a short body.
- Handler.CheckCached: what its Gets find is given, since other requests come between them; what a hit does to the row is Store.Store.GetBlock's contract and the `Used` step of CacheRuns.
- Assessor.Assessor.RecordSample: samples are real numbers, not floats; in runs a sample comes with an arbitrary median, which only allows more; the throughput of the active probe is not modelled.
- The watermarks are given integers; their computation from floating-point fractions is not modelled.
- FetchBlock.FetchBlock: an error text that merely happens to contain "status 429" counts as no answer.
- Names are sequences of characters; how invalid UTF-8 decodes is not modelled.
- Version lookup by HEAD, directory listings, file invalidation and the second prune function, which repeats the first.
