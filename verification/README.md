# Verified model of the video cache core

This project models, in Dafny, the Rust core of a caching video proxy, and proves what that core
is for. `dafny verify dfyconfig.toml` checks everything.

The system in its own terms:

- **Download pool.** Players ask for byte ranges; each becomes a task in one ordered list. A
  submission is dropped when its cache entry is already queued, or replaces lower-priority tasks of
  that entry. A *scheduling round* sorts the list by priority, pauses downloads beyond the pool
  size, and claims waiting tasks. Workers download, pause, fail and finish between the locks.
- **Workers.** A worker resumes from what an earlier run left in a `.tmp` file, sends a `Range`
  header, appends or truncates, and moves the file into place.
- **Two cache tiers.** An LRU memory tier over an LRU index of files. Files can vanish.
- **Serving.** A request is answered by stitching grid-aligned segments together, after a
  `content-length` has been promised. A bounded lookahead asks for the next segments.
- **Keys and grid.** Cache keys are canonical URLs; precache, serving and removal share a grid.
- **HLS.** Playlists are split into lines and read by two independent parsers, one of which feeds a
  registry of segments; two mutually recursive procedures walk the registry to prefetch.

## How the model is laid out

| files | what they hold |
|---|---|
| `PoolSpec`, `PoolRound`, `PoolRepeats`, `PoolOutcomes`, `PoolMachine`, `DownloadPool`, `Slots` | the pool as value functions; theorems about one round and one submission; what tasks listed twice do to a round; what submissions, removals and failures come to; the interleaved machine and its invariant; the mutable classes, tied to the functions; lists that keep slots of other lists |
| `Assembly` | one worker's attempts, the alignment of counter and file, the worker class |
| `LruSpec`, `LruFacts`, `LruCaches`, `TwoTierCache`, `CacheLimits`, `CacheSingleton` | both tiers as values; consistency, exact eviction and recency; the mutable classes; the two tiers as one map; their limits; the facade with purge and removal |
| `RangeServing`, `RangeResponse`, `Lookahead`, `SegmentGrid` | the reassembly loop; the promised length; the lookahead loop; the grid |
| `Text`, `Decimal`, `RangeHeader`, `CacheKeys` | text operations; decimal text; the `Range` header both ways; canonical keys |
| `HlsRegistry`, `HlsWalk`, `HlsPrefetch` | the segment registry; the prefetch walk as a step relation with its measure; the two recursive methods |
| `HlsLines`, `HlsPlaylist`, `PlaylistRanges` | the line splitter; the two playlist readers; the ranges they give to playlist text |

Where the source updates objects or runs a loop, there is a class or a method with a loop, whose
`ensures` equates the new state with a specification function; the theorems are about those
functions, over all inputs or all runs. URLs, file contents and the network enter as values and
function parameters: `fetch`, `writer`, `arrivals` and the like may answer anything their contracts
allow, so a theorem over them is a theorem over every behaviour of the outside world.

## Findings

Properties that turned out false in general are stated with the exact condition under which the code
meets them, and with an input, or a construction from any input outside the condition, that breaks them.

1. **Tasks listed twice.** The list holds shared handles, and the check and the addition in `submit` are
   not atomic, so one task can sit in several slots; claiming it fills them all at once. For a list in
   priority order, over all tables and pool sizes:
   a round never leaves a waiting task before a downloading one exactly when the slots of each task stand
   side by side (`PoolRepeats.NeverInvertsExactly`);
   it leaves a task waiting only if `pool_size` tasks download exactly when no task listed twice is
   followed by the first slot of another (`PoolRepeats.WorkConservedExactly`);
   and the code's own count of downloading slots stays within `pool_size` exactly when no task is listed
   twice (`PoolRepeats.SlotsWithinExactly`). The list `[0, 1, 0]` breaks all three
   (`PoolRepeats.RepeatedTaskInverts`). At most `pool_size` *tasks* download in any case
   (`PoolRound.RoundRestoresCapacity`), and a free *slot* never coexists with a waiting task
   (`PoolRound.RoundFillsSlots`).
2. **Stale steps.** Adding a task keeps the pool safe exactly when it is not a download from outside the
   list that finds no place free or its entry busy (`PoolMachine.AddIsSafeExactly`). A claim whose checks
   are stale keeps it safe exactly when the task cannot be claimed any more, has left the list, or finds a
   place free and its entry idle (`PoolMachine.ClaimIsSafeExactly`); two overlapping rounds break that
   (`PoolMachine.OverlappingRoundsOvercommit`).
3. **A stream or send error while resuming** deletes the `.tmp` file and keeps the counter, and the next
   attempt completes with bytes missing (`Assembly.BrokenResumeLosesBytes`); the same counter is kept when
   a finished file cannot be moved or read back. The exact condition is
   `Assembly.AttemptKeepsAlignedExactly`, and the harm is lasting: the next completing attempt saves what was
   wanted exactly when the attempt before it was harmless (`Assembly.HarmIsExact`). Nor does the worker look
   at whether a resumption was answered with a part or with the whole file: from an origin that ignores
   `Range` it saves what was wanted exactly when it resumed nothing and wanted everything
   (`Assembly.CompletionIsWholeExactly`, instance `Assembly.IgnoredRangeRepeatsBytes`).
4. **The promised length** of a bounded range is kept exactly when the range ends inside the file, since
   that path does not clamp: `RangeResponse.ParseStreaming`; past the end the answer is always short
   (`RangeResponse.PastEndIsShort`). When such a range does not begin on the grid and ends within its first
   segment, in Default mode, cutting the answer panics and the client gets nothing; exactly then, and when a
   range begins past the end of the file or ends before it begins (`RangeServing.ServingPanicsExactly`).
5. **Lookahead windows are two segments wide.** In Default mode serving asks for such a key exactly when
   the file ends one segment after the window's start. In MP4 mode, which clamps the last request, exactly
   when the file ends within that segment and the request runs to the end of the file
   (`Lookahead.WindowIsServedKeyExactly`, for a request that touches the window's first segment; no other
   request asks for it).
6. **Overwriting a resident memory entry** moves the youngest slot into its place, because of `swap_remove`.
   Recency order survives the put exactly when the key was one of the two youngest, or the trim that ends
   the put evicts past that place (`LruFacts.OverwriteKeepsRecencyExactly`, broken by
   `LruFacts.OverwriteBreaksRecency`).
7. **A path shared by two keys.** After a storage trim every indexed file exists exactly when no survivor
   shares its path with an evicted slot (`LruFacts.TrimmedFilesExistExactly`, broken by
   `LruFacts.TrimLosesSharedFile`). Worse, the cache may then answer with another key's bytes
   (`TwoTierCache.SharedPathAnswersWrongly`), and it answers wrongly only then
   (`TwoTierCache.WrongAnswerNeedsSharedPath`). Content-length files do share paths: their name comes from
   the directory, which ignores the custom cache host, while their entry does not.
8. **A late promotion.** A promotion that read its bytes before other operations and stores them afterwards
   leaves the cache faithful exactly when they are still the bytes last completed, or do not fit in memory;
   otherwise it brings a purged key, or the bytes before a newer completion, back
   (`TwoTierCache.LatePromotionIsFaithfulExactly`, instance `TwoTierCache.LatePromotionResurrects`). Likewise a
   content length that reaches memory but not storage, because its file could not be written: the cache stays
   faithful exactly when storage holds nothing older for the key; otherwise the older length answers once
   memory has let go of the new one (`TwoTierCache.MemoryStoredIsFaithfulExactly`, instance
   `TwoTierCache.OlderBytesAnswer`).
9. **Ranges of one URL share a cache key** exactly when the URL carries `startRange`, or an `endRange`
   that is a decimal integer, or one of the two names is to be ignored: `CacheKeys.RangesApartExactly`.
10. **A URL listed in two playlists** lets the prefetch walk come back to where it was, for ever. With
    distinct URLs every walk is bounded. For given playlists, over all states of their segments and
    whichever of them are left, no walk ever returns exactly when no URL is in two of them
    (`HlsWalks.WalksNeverReturnExactly`); in a particular state distinct URLs are sufficient only. Registration keeps URLs distinct exactly as
    `HlsRegistries.RegisterKeepsWellFormedExactly` says.
11. **The two playlist readers disagree.** `parse_media` follows RFC 8216; the rewriter, whose ranges are the
    ones downloaded, looks only at the line before a URI and takes a blank line there for the URI. They
    give the same segments and ranges exactly when no blank line directly follows EXTINF or BYTERANGE, each
    URI directly follows its BYTERANGE tag, or an EXTINF tag when it has none, and each range without an
    offset starts where the lengths without offsets so far add up to
    (`PlaylistRanges.ReadersAgreeExactly`; `PlaylistRanges.TagOrderMatters` is the order BYTERANGE, EXTINF).

12. **Retries bound nothing.** A failure uses up a retry, but a round refills an Idle task that has none, so a
    task that fails every time goes round for ever (`PoolOutcomes.RetriesNeverRunOut`). A claimed download
    that fails is failed for good exactly when it was claimed from a pause without retries
    (`PoolOutcomes.FailsForGoodExactly`), or when the origin has no bytes left to send
    (`Assembly.AttemptLeaves`).

## Model

| member | source | states |
|---|---|---|
| PoolRound.SortIsStable | rust/src/download/download_scheduler.rs:86 | the sort is a permutation in descending priority that keeps the order within each priority |
| PoolRound.StableSortIsUnique | rust/src/download/download_scheduler.rs:86 | any two such arrangements of a list are the same, so the sort is characterised |
| PoolRound.PreemptedExactly | rust/src/download/download_scheduler.rs:87-97 | exactly the downloading tasks at or past the pool size end up paused without a token |
| PoolRound.RoundRestoresCapacity | rust/src/download/download_scheduler.rs:81-134 | from any pool contents, at most `pool_size` distinct tasks are Downloading after a round |
| PoolRound.RoundFillsSlots | rust/src/download/download_scheduler.rs:103-107 | while a slot is free by the code's own count, no Idle or Paused task is left without its entry downloading, from any pool contents |
| PoolRepeats.RoundConservesWork | rust/src/download/download_scheduler.rs:99-133 | fewer than `pool_size` tasks downloading means no task is left waiting, when only the last task of the sorted list may be listed twice |
| PoolRepeats.WorkConservedExactly | rust/src/download/download_scheduler.rs:99-133 | that holds for every table and pool size if and only if no task listed twice is followed by another's first slot |
| PoolRepeats.SlotsWithinExactly | rust/src/download/download_scheduler.rs:103-107 | the count of downloading slots stays within the pool size for every table and pool size if and only if no task is listed twice |
| PoolRound.NoPriorityInversion | rust/src/download/download_scheduler.rs:81-134 | when the slots of each task stand side by side in the sorted list, no waiting task precedes a downloading one |
| PoolRound.NoRepeatsNoInversion | rust/src/download/download_scheduler.rs:81-134 | so too on any list without repeated tasks |
| PoolRepeats.NeverInvertsExactly | rust/src/download/download_scheduler.rs:81-134 | for every table and pool size there is no inversion if and only if the slots of each task stand side by side |
| PoolRepeats.RepeatedTaskInverts | rust/src/download/download_scheduler.rs:81-134 | the list [0, 1, 0] with two places: an inversion, and a task left waiting while one task downloads |
| PoolRound.RoundKeepsEntriesDistinct | rust/src/download/download_scheduler.rs:108-116 | a round never makes two distinct tasks download one entry |
| PoolRound.RoundChangesLittle | rust/src/download/download_scheduler.rs:81-134 | field by field: downloads listed at or past the pool size become Paused without a token, others stay; Idle and Paused tasks may become Downloading, an Idle one without retries with three; nothing else changes |
| PoolRound.SubmitPerEntry | rust/src/download/download_scheduler.rs:27-56 | after a submission the incoming entry has the newcomer alone if it outranked, else what it had or the newcomer; other entries are untouched |
| PoolRound.SubmitKeepsOnePerEntry | rust/src/download/download_scheduler.rs:27-56 | an undisturbed submission keeps at most one task per entry |
| PoolOutcomes.SubmitIs | rust/src/download/download_scheduler.rs:27-56 | the whole list after an undisturbed submission: when a task of the entry has a lower priority all of the entry leave, the others stay in order, and the newcomer comes last if none of its entry is left |
| PoolOutcomes.SubmitTokens | rust/src/download/download_scheduler.rs:27-43 | exactly the tasks that leave lose their tokens |
| PoolOutcomes.WithoutIdsIs | rust/src/download/download_pool.rs:54-62 | removal by id keeps exactly the other slots, in order |
| PoolOutcomes.FailuresUseRetries | rust/src/download/download_pool.rs:387-411 | with n retries, n failures without a claim in between leave a task Idle, the next is final; a cancelled task stays as it is |
| PoolOutcomes.FailsForGoodExactly | rust/src/download/download_scheduler.rs:117-127 | a claimed download that fails is failed for good if and only if it was claimed from a pause without retries |
| PoolOutcomes.RetriesNeverRunOut | rust/src/download/download_scheduler.rs:123-125 | an Idle task that is claimed and fails any number of times is Idle again, its retries refilled each time they are used up |
| PoolMachine.NextKeepsInv | rust/src/download/download_scheduler.rs:18-134 | every sub-step of a round, submission, user command and worker write preserves the safety invariant |
| PoolMachine.EveryRunIsSafe | rust/src/download/download_scheduler.rs:18-59 | in every reachable state at most `pool_size` pool tasks are Downloading, with distinct entries, under every interleaving |
| PoolMachine.AddIsSafeExactly | rust/src/download/download_scheduler.rs:45-56 | when adding a task keeps that: if and only if it is not a download from outside that finds no free slot or its entry busy |
| PoolMachine.ClaimIsSafeExactly | rust/src/download/download_scheduler.rs:117-127 | a claim with stale checks keeps safety if and only if the task is not claimable, or not listed, or finds a place and an idle entry |
| PoolMachine.OverlappingRoundsOvercommit | rust/src/download/download_scheduler.rs:103-127 | two rounds that have both passed the checks claim one slot twice |
| PoolMachine.UndisturbedRoundIsAtomic | rust/src/download/download_scheduler.rs:81-134 | the sub-steps run back to back are the atomic round |
| PoolMachine.UndisturbedSubmitIsAtomic | rust/src/download/download_scheduler.rs:27-56 | the two halves of a submission run back to back are the atomic one |
| PoolMachine.RemovalTakesIds | rust/src/download/download_pool.rs:54-62 | a removal takes exactly the tasks with those ids out of the list |
| PoolMachine.WritesAreLimited | rust/src/download/download_pool.rs:96-116 | what each write of a user or worker does to status, retries and token of a task |
| PoolMachine.WritesTouchOneTask | rust/src/download/download_pool.rs:96-116 | and that it touches that task alone |
| DownloadPools.DownloadPool.RunDownloadPoolRound | rust/src/download/download_scheduler.rs:81-134 | on shared objects, the list and all fields become what the round function gives |
| DownloadPools.DownloadPool.PreemptOverflow | rust/src/download/download_scheduler.rs:87-97 | the pre-emption loop |
| DownloadPools.DownloadPool.ClaimWaiting | rust/src/download/download_scheduler.rs:103-133 | the claim loop over a snapshot |
| DownloadPools.DownloadPool.ClaimUnlessActive | rust/src/download/download_scheduler.rs:108-127 | one claim: only Idle or Paused, refilling retries of an Idle task at 0, and never over a busy entry |
| DownloadPools.DownloadPool.Submit | rust/src/download/download_scheduler.rs:18-59 | replacement of outranked tasks, then addition unless the entry is present |
| DownloadPools.DownloadPool.ReplaceOutranked | rust/src/download/download_scheduler.rs:27-43 | the locked half of a submission: all tasks of the entry go and lose their tokens |
| DownloadPools.DownloadPool.CancelTasks | rust/src/download/download_pool.rs:64-74 | every listed task loses its token and nothing else changes |
| DownloadPools.DownloadPool.UpdateTaskById | rust/src/download/download_pool.rs:96-116 | the first task with the id changes status, losing its token on pause or cancel; terminal statuses drop the id from the list |
| DownloadPools.DownloadPool.RemoveTasksByIds | rust/src/download/download_pool.rs:54-62 | exactly the tasks with those ids leave the list and lose their tokens; statuses stay |
| DownloadPools.DownloadPool.RemoveEvicted | rust/src/parser/hls_concurrent_orchestrator.rs:33-42 | tasks with one of the URLs leave the pool and lose their tokens, with those of the same ids and no others |
| DownloadPools.DownloadPool.FailPoolDownload | rust/src/download/download_pool.rs:387-411 | a cancelled task is left alone, a retry makes it Idle, the last failure drops it |
| DownloadPools.DownloadPool.ResumeTaskById | rust/src/download/download_manager.rs:120-133 | the task becomes Idle and is submitted again |
| Assembly.AttemptKeepsAlignedExactly | rust/src/download/download_pool.rs:155-347 | an attempt that leaves the task in the pool keeps counter and `.tmp` prefix aligned if and only if it began from nothing or did not fail after the request went out |
| Assembly.CompletionIsWhole | rust/src/download/download_pool.rs:345-385 | from an origin that honours Range, an attempt that completes from an aligned state saves exactly the wanted bytes |
| Assembly.CompletionIsWholeExactly | rust/src/download/download_pool.rs:127-347 | from any state, a completing attempt saves the wanted bytes if and only if the state was aligned; from an origin that ignores Range, if and only if nothing was resumed and the whole origin was wanted |
| Assembly.HarmIsExact | rust/src/download/download_pool.rs:155-385 | after any harmless run and one more attempt, the next completing attempt saves the wanted bytes if and only if that attempt was harmless |
| Assembly.IgnoredRangeRepeatsBytes | rust/src/download/download_pool.rs:249-266 | a resumption answered with the whole file, whose first byte is saved twice |
| Assembly.RunStaysAligned | rust/src/download/download_pool.rs:155-347 | alignment over any run of pauses, resumptions, harmless failures and user writes |
| Assembly.EveryCompletionIsWhole | rust/src/download/download_pool.rs:155-385 | after any such run the completing attempt saves origin[start..=end] |
| Assembly.TotalIsWanted | rust/src/download/download_pool.rs:236-247 | whatever the counter says, an announced total is the length of the wanted bytes, and nothing else writes it |
| Assembly.TotalIsStable | rust/src/download/download_pool.rs:236-247 | so over every run, harmful failures included, it never changes once announced |
| Assembly.TotalIsSavedLength | rust/src/download/download_pool.rs:236-247 | after a run without harmful failures it is the length of what the completing attempt saves |
| Assembly.BrokenResumeLosesBytes | rust/src/download/download_pool.rs:302-310 | a stream error at a non-zero counter, after which a completed file lacks its first byte |
| Assembly.ResponseAnswersHeader | rust/src/download/download_pool.rs:127-152 | the modelled response is what the header sent asks for, read by the proxy's own parser |
| Assembly.AttemptLeaves | rust/src/download/download_pool.rs:155-411 | what each kind of attempt makes of status and retries; a cancelled task stays cancelled unless it completes or a pause is seen |
| Assembly.FilesLeft | rust/src/download/download_pool.rs:200-366 | which attempts touch the `.tmp` and the finished file, and how they leave them |
| Assembly.ProgressShown | rust/src/download/download_pool.rs:268-326 | the progress after an attempt is the counter plus the bytes received |
| Assembly.PoolWorker.RunPoolDownload | rust/src/download/download_pool.rs:155-347 | the worker's fields and files after one attempt |
| Assembly.PoolWorker.ReceiveChunks | rust/src/download/download_pool.rs:265-347 | the chunk loop, stopped at any chunk for any reason |
| Assembly.PoolWorker.StopAt | rust/src/download/download_pool.rs:269-316 | what each way of leaving the loop does to counter, file and status |
| Assembly.PoolWorker.Finish | rust/src/download/download_pool.rs:349-385 | the old file goes, the `.tmp` file takes its place, an empty result fails |
| LruSpec.EvictionIsExact | rust/src/cache/lru_cache_memory.rs:22-43 | the eviction loop stops at the longest suffix that fits |
| LruFacts.StorageStaysConsistent | rust/src/cache/lru_cache_storage.rs:28-171 | index and recorded sizes have the same keys, each once, in every reachable state, whatever files vanish |
| LruFacts.StorageTrimIsExact | rust/src/cache/lru_cache_storage.rs:94-114 | survivors of a trim: the longest suffix, after dropping missing files, whose real sizes fit |
| LruFacts.TrimmedFilesExistExactly | rust/src/cache/lru_cache_storage.rs:71-114 | every survivor's file exists with its recorded size if and only if no survivor shares a path with an evicted slot |
| LruFacts.TrimLosesSharedFile | rust/src/cache/lru_cache_storage.rs:94-114 | two slots with one path, whose trim leaves a slot without a file |
| LruFacts.UnsharedTrimIsTrue | rust/src/cache/lru_cache_storage.rs:71-152 | with one path per slot, a trim leaves a true index |
| LruFacts.MemoryTrimIsExact | rust/src/cache/lru_cache_memory.rs:22-43 | survivors in memory are the longest suffix that fits |
| LruFacts.StorageOrderIsRecency | rust/src/cache/lru_cache_storage.rs:28-171 | the storage order is true recency order over every run |
| LruFacts.OverwriteKeepsRecencyExactly | rust/src/cache/lru_cache_memory.rs:64-79 | a put, its trim included, keeps recency order if and only if the key is not resident or one of the two youngest, or the trim evicts past its place |
| LruFacts.OverwriteBreaksRecency | rust/src/cache/lru_cache_memory.rs:64-79 | three one-byte slots whose eldest is overwritten |
| LruFacts.MemoryOrderIsRecency | rust/src/cache/lru_cache_memory.rs:48-110 | the memory order is recency order throughout a run if and only if all its puts are of that kind, as promotions are |
| LruCaches.LruCacheMemory.Get | rust/src/cache/lru_cache_memory.rs:48-62 | a hit returns the value and moves it to the young end |
| LruCaches.LruCacheMemory.Put | rust/src/cache/lru_cache_memory.rs:64-79 | the whole new map, with the running size equal to the sum of the lengths |
| LruCaches.LruCacheMemory.Remove | rust/src/cache/lru_cache_memory.rs:81-91 | exactly that slot goes, the others keep their order |
| LruCaches.LruCacheMemory.TrimToSizeLocked | rust/src/cache/lru_cache_memory.rs:22-43 | the loop reaches the trim function, and its panic is unreachable |
| LruCaches.LruCacheMemory.TrimToSize | rust/src/cache/lru_cache_memory.rs:97-104 | a negative bound empties the tier |
| LruCaches.LruCacheMemory.Resize | rust/src/cache/lru_cache_memory.rs:106-110 | new bound, then trim |
| LruCaches.LruCacheStorage.RemoveEntry | rust/src/cache/lru_cache_storage.rs:45-69 | slot, recorded size and file go together; the running size stays the sum, so the clamp to 0 never fires |
| LruCaches.LruCacheStorage.RepairSize | rust/src/cache/lru_cache_storage.rs:71-92 | only slots with files stay, with real sizes |
| LruCaches.LruCacheStorage.TrimToSizeLocked | rust/src/cache/lru_cache_storage.rs:94-114 | repair, then eviction from the eldest |
| LruCaches.LruCacheStorage.Get | rust/src/cache/lru_cache_storage.rs:119-138 | a hit moves to the young end, a missing file drops its slot |
| LruCaches.LruCacheStorage.Put | rust/src/cache/lru_cache_storage.rs:140-152 | the whole new index after the trim |
| LruCaches.LruCacheStorage.Restore | rust/src/cache/lru_cache_storage.rs:28-36 | index without a trim, replacing an old slot without deleting its file |
| LruCaches.LruCacheStorage.Resize | rust/src/cache/lru_cache_storage.rs:167-171 | new bound, then trim |
| TwoTierCache.EveryAnswerIsLast | rust/src/parser/segment_resolver.rs:89-104 | over every run of completions, content lengths put in memory over nothing older, resolves, purges, resizes, clears and lost files, a resolve yields nothing or the bytes last stored for the key |
| TwoTierCache.WrongAnswerNeedsSharedPath | rust/src/cache/cache_key.rs:109-111 | without any assumption on paths, a wrong answer implies a path used for two keys |
| TwoTierCache.SharedPathAnswersWrongly | rust/src/parser/segment_resolver.rs:23-46 | a file completed under one key that another key then answers with |
| TwoTierCache.LatePromotionIsFaithfulExactly | rust/src/parser/segment_resolver.rs:98-101 | a promotion stored late keeps the cache faithful if and only if its bytes are still the remembered ones or do not fit; else the next resolve answers with them |
| TwoTierCache.PurgedMeansGone | rust/src/parser/segment_resolver.rs:106-109 | and nothing right after a purge |
| TwoTierCache.AnswerIsKept | rust/src/parser/segment_resolver.rs:89-104 | what was answered is answered again, even with its file lost, if it fits memory or was there already |
| TwoTierCache.CompletedIsFound | rust/src/download/download_pool.rs:356-383 | with one key per path, a completion is found at once if it fits memory or storage, and not at all otherwise |
| TwoTierCache.MemoryStoredIsFaithfulExactly | rust/src/parser/segment_resolver.rs:28-41 | a put in memory alone keeps the cache faithful if and only if storage has no file of the key or the same bytes in it; else the older bytes answer once memory is cleared |
| TwoTierCache.OlderBytesAnswer | rust/src/parser/segment_resolver.rs:28-41 | a length that could not be written over an older one |
| TwoTierCache.LatePromotionResurrects | rust/src/parser/segment_resolver.rs:98-101 | a promotion interrupted by a purge undoes it |
| CacheLimits.NextStaysWithin | rust/src/cache/lru_cache_memory.rs:22-110 | no operation takes memory or recorded storage beyond its limit |
| CacheLimits.RunStaysWithin | rust/src/cache/lru_cache_storage.rs:94-171 | so over any run, with any non-negative limits |
| CacheLimits.ClearsAll | rust/src/cache/lru_cache_storage.rs:94-114 | clearing a tier empties it, and clearing storage deletes every indexed file |
| CacheSingletons.LruCacheSingleton.StorageGetBytes | rust/src/cache/lru_cache_singleton.rs:66-72 | the bytes of the indexed file, if it can be read |
| CacheSingletons.LruCacheSingleton.ReadBytesFromCache | rust/src/parser/segment_resolver.rs:89-104 | memory, then storage with promotion, on both tiers at once |
| CacheSingletons.LruCacheSingleton.PurgeCacheEntry | rust/src/parser/segment_resolver.rs:106-109 | the key leaves both tiers |
| CacheSingletons.LruCacheSingleton.FinishDownload | rust/src/download/download_pool.rs:376-382 | file, memory and storage after a completion |
| CacheSingletons.LruCacheSingleton.ReadContentLength | rust/src/parser/segment_resolver.rs:56-86 | the cached length, migrating a legacy entry |
| CacheSingletons.PurgeSeqIsExact | rust/src/cache/cache_removal.rs:116-119 | a series of purges takes exactly the slots of the named keys out of both tiers, and exactly their files |
| CacheSingletons.RemovalIsComplete | rust/src/cache/cache_removal.rs:58-114 | afterwards no full-file, metadata, probe or directory key is left, nor any cell precache could have filled for the cached length |
| CacheSingletons.RemovalClearsTasks | rust/src/cache/cache_removal.rs:58-114 | the same of the entries cache_key computes for the url's full-file, metadata and precache tasks |
| CacheSingletons.RangeIsPurgedExactly | rust/src/cache/cache_removal.rs:82-112 | a range's entry is purged if and only if it is a cell of the cached length or the probe, or comes up as a directory, registry or file name, for a hash that keeps the URLs concerned apart |
| CacheSingletons.PurgeHashExists | rust/src/cache/cache_removal.rs:82-112 | for every removal there is such a hash |
| CacheSingletons.ContentLengthIsARun | rust/src/parser/segment_resolver.rs:56-86 | reading and migrating a content length is a run of the cache machine, and a sensible one when cached metadata parses |
| CacheSingletons.ContentLengthIs | rust/src/parser/segment_resolver.rs:56-86 | the answer is the metadata slot's bytes parsed, else the legacy slot's, else nothing |
| CacheSingletons.MigrationMoves | rust/src/parser/segment_resolver.rs:68-86 | a migration leaves nothing under the legacy key; without one only the resolves happen |
| CacheSingletons.ContentLengthIsKept | rust/src/parser/segment_resolver.rs:56-86 | the next read answers the same, as long as its text fits memory and a migrated one parses back |
| CacheSingletons.RemovalFindsTheCells | rust/src/cache/cache_removal.rs:58-145 | when the metadata or legacy slot holds the length n, the removal clears the file, its metadata and every cell that begins before n from both tiers |
| CacheSingletons.LruCacheSingleton.RemoveSingleEntry | rust/src/cache/cache_removal.rs:58-145 | the tiers end up as the length lookup followed by exactly those purges in order and the deletion of the directory's files |
| SegmentGrid.GridPartitionsFile | rust/src/parser/precache_orchestrator.rs:88-114 | each byte of the file lies in exactly one of the first ceil(L/seg) cells, and each of those begins inside the file |
| SegmentGrid.CellsAreGridRanges | rust/src/parser/precache_orchestrator.rs:109-113 | cells are what serving asks for, without gap or overlap |
| SegmentGrid.RequestsAreCells | rust/src/parser/range_responder.rs:383-398 | conversely, a request of serving is the cell of its first byte, cut to the end of the range in MP4 mode only, and every cell that touches the range is one |
| SegmentGrid.ClampedSegmentsAre | rust/src/parser/precache_orchestrator.rs:88-100 | as many cells are wanted as asked for, and no more than the file takes when its length is known |
| SegmentGrid.SegmentsCached | rust/src/parser/precache_orchestrator.rs:21-54 | true if and only if every wanted cell is resident; with enough segments that covers the file |
| RangeServing.LoopEnds | rust/src/parser/range_responder.rs:374-456 | in both modes the bytes written are a prefix of the request, all of it unless retries or the client gave out; requests are exactly the cells of the range, the last clamped in MP4 mode, at most cells + 2 of them |
| RangeServing.IteratedInv | rust/src/parser/range_responder.rs:386-454 | the invariant of the serving loop after any number of iterations |
| RangeServing.ServeSegments | rust/src/parser/range_responder.rs:374-456 | the same of the method |
| RangeServing.ServeLoop | rust/src/parser/range_responder.rs:386-454 | the loop runs through the iteration function and ends by the measure (cells left, retries) |
| RangeServing.GridIsMultiples | rust/src/parser/range_responder.rs:383-385 | grid positions are exactly the multiples of the segment size |
| RangeServing.ChunkPanicsExactly | rust/src/parser/range_responder.rs:431-444 | cutting a segment panics if and only if it begins before the range and the file ends before the range, or within the segment before the range's end, or the range ends before it begins |
| RangeServing.ServingPanicsExactly | rust/src/parser/range_responder.rs:386-454 | serving panics if and only if its first segment does and some request is answered |
| RangeResponse.ParseStreaming | rust/src/parser/range_responder.rs:128-235 | which answer each kind of request gets, with and without its headers written, and the length announced in every case; that length is the body's if and only if a bounded range ends inside the file |
| RangeResponse.PastEndIsShort | rust/src/parser/range_responder.rs:155-186 | a bounded range that ends past the file is answered with fewer bytes than announced |
| RangeResponse.AnnouncedIsHeld | rust/src/parser/range_response.rs:147-159 | the clamped length of any range of a file of known length is what the file has of it |
| RangeResponse.SmoothServingIsDone | rust/src/parser/range_responder.rs:386-454 | when every request inside the file is answered, serving runs to its end |
| RangeResponse.BufferSlice | rust/src/parser/range_response.rs:71-105 | the buffered body is never empty, matches its reported bounds, and is the request when that starts inside |
| Lookahead.Concurrent | rust/src/parser/range_responder.rs:262-341 | at most 256 iterations and two submissions, each with one more task of the url in the pool even when it loses a race; windows are non-empty, inside a known file, a positive multiple of the segment size ahead; every window looked at ends up queued or was cached, and no cached one is submitted; windows are two segments wide unless the file ends before, no segment is passed over, and only 128 windows in a row that are queued or cached end the walk early |
| Lookahead.AdditionKeepsOnePerEntry | rust/src/download/download_scheduler.rs:45-56 | a submission of the lookahead never gives an entry a second task |
| Lookahead.WindowIsServedKeyExactly | rust/src/parser/range_responder.rs:300-311 | in Default mode a window is a request of a range that touches it if and only if the file ends one segment after its start; in MP4 mode if and only if the file ends within that segment and the range runs to its end |
| Lookahead.UnknownLengthWindowsAreNotServed | rust/src/parser/range_responder.rs:304-311 | while the length is unknown it never is |
| Decimal.ParseToText | rust/src/parser/range_response.rs:40-48 | parsing the printed form of any 64-bit integer gives it back |
| Decimal.ParsesExactly | rust/src/parser/range_response.rs:40-48 | the parser accepts exactly an optional sign before at least one digit, when the value fits 64 bits |
| Decimal.ToTextInjective | rust/src/cache/cache_key.rs:128-138 | distinct integers print differently |
| RangeHeader.SentRangeIsRead | rust/src/download/download_pool.rs:127-152 | the header is absent if and only if nothing is cached, start is 0 and there is no end; else the proxy's parser reads (start + cached, end) from it, rejecting it exactly when the end comes first; user headers pass through unless named Host or Range |
| RangeHeader.RangeTextParses | rust/src/parser/range_response.rs:31-55 | the same of the header's text |
| RangeHeader.ReadsLoosely | rust/src/parser/range_response.rs:31-55 | blanks anywhere and a missing unit do not matter; a missing last number leaves the range open; a missing first one, a reversed range and anything else are rejected |
| RangeHeader.DashIsNeeded | rust/src/parser/range_response.rs:39 | a text without a dash is rejected |
| RangeHeader.SentHeadersAre | rust/src/download/download_pool.rs:127-152 | nothing is sent but the range and the user's headers other than Host and Range |
| CacheKeys.ComputeCacheUri | rust/src/cache/cache_key.rs:114-152 | the step-by-step rewriting gives the canonical URL |
| CacheKeys.SortedKeysAscend | rust/src/cache/cache_key.rs:139-140 | keys come out strictly ascending |
| CacheKeys.QueryRoundTrip | rust/src/cache/cache_key.rs:141-148 | joining pairs free of delimiters and parsing the query back is the identity |
| CacheKeys.CacheQueryIs | rust/src/cache/cache_key.rs:123-149 | rendering, parsing again and filtering comes to rendering the kept parameters |
| CacheKeys.SameKeyExactly | rust/src/cache/cache_key.rs:114-152 | two tasks share the key text if and only if the parameters that count are the same map |
| CacheKeys.SameUriExactly | rust/src/matchers/url_matcher_configurable.rs:43-64 | two tasks have the same canonical URL if and only if authority, path and the parameters that count agree: all whose lower-cased name is not to be ignored, or startRange and endRange when no name is |
| CacheKeys.PairsOfParts | rust/src/cache/cache_key.rs:126-130 | a query is taken apart at every `&` |
| CacheKeys.PairsOfPiece | rust/src/cache/cache_key.rs:126-130 | an empty piece is nothing, a piece without `=` a name without value |
| CacheKeys.LeExactly | rust/src/cache/cache_key.rs:139-140 | keys are sorted by code points, first difference first |
| CacheKeys.OrderDoesNotMatter | rust/src/cache/cache_key.rs:123-145 | permuting pairs with distinct keys changes nothing |
| CacheKeys.IgnoredDoesNotMatter | rust/src/matchers/url_matcher_configurable.rs:43-64 | a parameter whose name is to be ignored, or any but the range when none is, may have any value or be absent |
| CacheKeys.RangeIsRecoverable | rust/src/cache/cache_key.rs:127-138 | the range can be read back from the key of a URL that carries none of its own |
| CacheKeys.RangesApartExactly | rust/src/cache/cache_key.rs:127-138 | every range of a URL has its own key if and only if neither range parameter is to be ignored and the URL carries no startRange and no decimal endRange |
| CacheKeys.MetadataIsApart | rust/src/cache/cache_key.rs:70-80 | the content-length slot is nobody's byte range, and shared exactly by tasks with the same whole-file key, for a hash that keeps the URLs concerned apart |
| CacheKeys.EntriesFollowRanges | rust/src/cache/cache_key.rs:62-67 | hashed entries of one URL are equal exactly when the ranges are, for a hash that keeps the two canonical URLs apart |
| CacheKeys.HashExists | rust/src/cache/cache_key.rs:62-67 | for any set of up to 10^32 URLs there is a hash to 32 characters that keeps them apart |
| HlsRegistries.RegisterIsOrderedDedupe | rust/src/parser/hls_registry.rs:40-59 | registration keeps what was there in place, lists every new URL once under the forced key, and nothing else |
| HlsRegistries.RegisteredIs | rust/src/parser/hls_registry.rs:40-59 | the list grows by exactly the segments whose URL is neither listed nor comes earlier, in order, as they are but for the forced key |
| HlsRegistries.RegisterKeepsWellFormedExactly | rust/src/parser/hls_registry.rs:40-59 | URLs stay distinct over the whole registry if and only if no new one is listed under another key |
| HlsRegistries.HlsRegistry.AddSegment | rust/src/parser/hls_registry.rs:40-45 | one list changes, unless it has the URL |
| HlsRegistries.HlsRegistry.RegisterSegments | rust/src/parser/hls_registry.rs:47-59 | the loop over new segments |
| HlsRegistries.HlsRegistry.FindByUrl | rust/src/parser/hls_registry.rs:61-67 | a registered segment with the URL, if there is any, in whatever order the hash map is searched |
| HlsRegistries.HlsRegistry.UpdateStatus | rust/src/parser/hls_registry.rs:73-80 | the first match in some list changes status, or nothing does |
| HlsRegistries.HlsRegistry.EvictionCandidate | rust/src/parser/hls_registry.rs:107-116 | past eight playlists there is one under another key than the kept one, so the fallback never applies |
| HlsRegistries.HlsRegistry.PrefetchBegin | rust/src/parser/hls_registry.rs:210-223 | the position moves, and past eight playlists another one goes, whose segments are returned |
| HlsRegistries.HlsRegistry.ActiveSegment | rust/src/parser/hls_registry.rs:119-124 | the segment last played in the playlist, or the hint |
| HlsRegistries.HlsRegistry.NextPrefetchSegment | rust/src/parser/hls_registry.rs:127-138 | the one after it |
| HlsRegistries.NextIsBehind | rust/src/parser/hls_registry.rs:127-138 | that is the segment right behind the one played last, or nothing at the end of its playlist |
| HlsRegistries.DownloadsCounts | rust/src/parser/hls_registry.rs:82-91 | the count is of the segments that are Downloading |
| HlsRegistries.FirstIdleIsFirst | rust/src/parser/hls_registry.rs:93-99 | the Idle segment found has none before it |
| HlsWalks.MarksEverywhere | rust/src/parser/hls_registry.rs:73-80 | with distinct URLs, marking rewrites exactly the segment with the URL |
| HlsWalks.LoopStepDecides | rust/src/parser/hls_concurrent_orchestrator.rs:23-102 | with two segments of the playlist Downloading the walk stops; otherwise the caches decide between a download and going on, with which status |
| HlsWalks.LoopStepStops | rust/src/parser/hls_concurrent_orchestrator.rs:44-46 | for a segment no longer registered it stops |
| HlsWalks.CompleteStepDecides | rust/src/parser/hls_concurrent_orchestrator.rs:181-209 | the segment is marked; then comes the one behind the position, or the first Idle one of some playlist, or that playlist goes, or the walk ends |
| HlsWalks.StepDecreases | rust/src/parser/hls_concurrent_orchestrator.rs:23-209 | every step of the walk keeps the registry sound, only settles statuses or drops playlists, and goes down in (playlists left, Idle segments elsewhere, segments ahead, phase) |
| HlsWalks.EveryWalkIsBounded | rust/src/parser/hls_concurrent_orchestrator.rs:23-209 | no walk is longer than an explicit bound, whatever the caches answer and the random picks choose |
| HlsWalks.WalkStaysSound | rust/src/parser/hls_concurrent_orchestrator.rs:181-209 | over a whole walk, what stays registered differs only by statuses set to Completed or Downloading |
| HlsWalks.OutcomeIsExact | rust/src/parser/hls_concurrent_orchestrator.rs:23-209 | how a walk from a registered segment ends; when all is cached and nothing was downloading, with every playlist evicted |
| HlsWalks.WalksNeverReturnExactly | rust/src/parser/hls_registry.rs:61-80 | for given playlists, no walk over any states of their segments returns to where it was if and only if no URL is in two of them |
| HlsWalks.SharedUrlReturns | rust/src/parser/hls_registry.rs:61-80 | any URL in two playlists gives a walk that returns |
| HlsPrefetch.HlsConcurrentLoop | rust/src/parser/hls_concurrent_orchestrator.rs:23-102 | terminates, what it does to the registry is a walk to its outcome, and the URLs it takes out of the pool are those of the playlists that went when a position moved |
| HlsPrefetch.HlsConcurrentComplete | rust/src/parser/hls_concurrent_orchestrator.rs:181-209 | the same of its partner |
| HlsPrefetch.PickAnother | rust/src/parser/hls_concurrent_orchestrator.rs:197-208 | a random playlist's first Idle segment, or that playlist is dropped |
| HlsLines.ReadLines | rust/src/parser/hls_playlist_resolver.rs:180-209 | the lines, each with a line feed, spell the input with carriage-return runs shortened to one, and a final line feed only if a non-empty input lacked it |
| HlsLines.LinesAreDetermined | rust/src/parser/hls_playlist_resolver.rs:180-209 | no other list of lines does that |
| HlsPlaylists.ParseMedia | rust/src/parser/hls_parser.rs:71-119 | the loop is the fold of its line step |
| HlsPlaylists.MediaStepIs | rust/src/parser/hls_parser.rs:76-113 | how each line moves the reader on, a malformed BYTERANGE tag included |
| HlsPlaylists.ByterangeIsRead | rust/src/parser/hls_parser.rs:121-138 | a length, or a length and an offset around the only `@`; anything else is no range |
| HlsPlaylists.SegmentsFromPlaylist | rust/src/parser/hls_playlist_rewriter.rs:27-34 | the media segments of the playlist are those of the fold that RewriterCollects gives a meaning to |
| HlsPlaylists.RewriteInner | rust/src/parser/hls_playlist_rewriter.rs:36-171 | the loop lists auxiliary URIs, if asked to, and media segments in the order of their lines |
| HlsPlaylists.RewriteStepIs | rust/src/parser/hls_playlist_rewriter.rs:93-163 | a line is collected if and only if it is no tag and the line before begins with one of three |
| HlsPlaylists.RangeAfterIs | rust/src/parser/hls_playlist_rewriter.rs:129-152 | the range that line gives, zero lengths and numbers that overflow included |
| HlsPlaylists.FindsLeftmost | rust/src/parser/hls_playlist_rewriter.rs:45 | the tag is found leftmost, with the whole number behind it and the offset behind an `@` |
| HlsPlaylists.AuxOnIs | rust/src/parser/hls_playlist_rewriter.rs:56-90 | an auxiliary line begins with one of three tags and names a URI |
| HlsPlaylists.AuxIsApart | rust/src/parser/hls_playlist_rewriter.rs:13-34 | the media segments are the same with and without auxiliary URIs, and those are the URIs of the KEY, MEDIA and MAP lines in order |
| PlaylistRanges.MediaTiles | rust/src/parser/hls_parser.rs:71-138 | on the text of any playlist of tags, blank lines and URIs, parse_media gives each segment the range of its last BYTERANGE tag, starting it where the previous one ended unless it has an offset |
| PlaylistRanges.MediaFollowsRfc | rust/src/parser/hls_parser.rs:71-138 | with at most one BYTERANGE tag a segment these are the ranges of section 4.3.2.2 of RFC 8216 |
| PlaylistRanges.RewriterCollects | rust/src/parser/hls_playlist_rewriter.rs:93-163 | without stray blank lines, the rewriter collects the URIs right after EXTINF or BYTERANGE, and starts a range without an offset after the lengths without offsets so far |
| PlaylistRanges.StrayIsCollected | rust/src/parser/hls_playlist_rewriter.rs:93-98 | a blank line right after EXTINF or BYTERANGE becomes a segment of its own |
| PlaylistRanges.TiledIsCollectedExactly | rust/src/parser/hls_playlist_rewriter.rs:129-163 | the two rules give the same ranges if and only if each URI follows its tag and offset-less ranges start at that sum |
| PlaylistRanges.ReadersAgreeExactly | rust/src/parser/hls_parser.rs:71-138 | the readers give the same segments and ranges for a playlist text if and only if it has no stray blank line and that holds |
| PlaylistRanges.TagOrderMatters | rust/src/parser/hls_parser.rs:163-180 | BYTERANGE before EXTINF, where they differ |
| PlaylistRanges.UniformPlaylistsAgree | rust/src/parser/hls_playlist_rewriter.rs:129-163 | with each URI right after its one tag, they agree with each other and the RFC when no range, or every range, has an offset; without offsets the ranges tile the file |

## Left out

- The HTTP client and server, sockets, TLS, timers, debouncing, broadcast channels and logging: they are parameters or nondeterministic events.
- Mutexes are not modelled: each event or method runs with the locks it needs. Two places that lock one task twice are therefore not examined: rust/src/download/download_pool.rs:383 locks the finished task while the list's own handle of it is locked, and the comparison at rust/src/download/download_scheduler.rs:86 locks both of its handles, so a round that compares a repeated task with itself may never return.
- PoolRound.NoPriorityInversion, PoolRepeats.WorkConservedExactly, PoolRepeats.SlotsWithinExactly: of lists with repeated tasks they speak about rounds that return; the sort of the list [0, 1, 0] of `PoolRepeats.RepeatedTaskInverts`, all of one priority, need not compare a task with itself.
- URL parsing, percent-encoding, base64, regular expressions in general and MD5: URLs are structured, query text is taken as already decoded and needing no escape, the hash is any function to 32 characters that keeps apart the URLs a result is about, and `CacheKeys.HashExists` shows that there are such functions.
- 64-bit overflow of offsets, sizes and sums: integers are unbounded, except where decimal text is parsed.
- The configuration and a task's cache entry are constant while the task lives.
- Rounds started while another round runs: one round at a time is assumed, and `PoolMachine.OverlappingRoundsOvercommit` shows why.
- PoolMachine.EveryRunIsSafe: a worker's writes are single field updates here; the bytes it moves are in `Assembly`, with one worker per task.
- Assembly.PoolWorker.RunPoolDownload: an origin that honours Range answers 416 when no bytes remain; one that ignores it sends the whole file; status changes by others fall between attempts or at the stops of the chunk loop.
- Assembly.RunStaysAligned, Assembly.TotalIsWanted: about origins that honour Range, since alignment and the announced length mean nothing for the others; `Assembly.CompletionIsWholeExactly` covers both.
- Assembly.EveryCompletionIsWhole: the events between attempts rewrite status, retries and token only, as the pool does.
- TwoTierCache.EveryAnswerIsLast: each cache operation is one step and each path belongs to one key; what is stored in memory alone meets the exact condition of `TwoTierCache.MemoryStoredIsFaithfulExactly`; a write that fails leaves the file it was to replace as it was.
- CacheSingletons.LruCacheSingleton.RemoveSingleEntry: the names and paths that the directory scan finds are parameters; the branch that removes several files for a playlist, and the start-up scan of `storage_init`, are left out.
- CacheSingletons.ContentLengthIsARun: the run is sensible when cached metadata is text that parses, as everything stored there is.
- RangeServing.ServeSegments: `fetch` stands for cache lookup and download together and answers with exactly the requested bytes, cut to the file, or nothing.
- Lookahead.Concurrent: nothing leaves the pool while it runs, and a task with the entry of one of the url's ranges is a task of that url.
- RangeHeader.SentRangeIsRead: header names are compared by ASCII case; no other letter lower-cases into `range` or `host`.
- CacheKeys.SameKeyExactly: keys of ignored parameters are lower-cased as ASCII; the custom cache host enters as the replaced authority.
- HlsPrefetch.HlsConcurrentLoop: ends at the submission of a download; waiting for its completion and the later, separate walk it starts are not part of the method, but that walk starts in a configuration the theorems cover. Taking the URLs it returns out of the pool is `DownloadPools.DownloadPool.RemoveEvicted`.
- HlsWalks.EveryWalkIsBounded: URLs are distinct across playlists and nobody registers segments during a walk; otherwise `HlsWalks.SharedUrlReturns` applies.
- HlsPlaylists.RewriteInner: the rewritten playlist body is left out; `resolve` and `uriOf` stand for making a line, and the URI attribute of a tag, an absolute URL.
- PlaylistRanges.ReadersAgreeExactly: BYTERANGE tags are well formed with positive lengths (with a zero length both readers reset their running offset, to different values), URI lines do not begin with `#`, neither tags nor URIs have blanks before them (one reader trims them, the other does not), and there is no EXT-X-STREAM-INF, which makes a master playlist.
- Master playlists, progress numbers, size formatting, proxy start and health checks: easy or plumbing.
