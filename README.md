# BO-scheduling libgomp: verified model of its integer core

This project models six small parts of an OpenMP runtime (a modified GNU libgomp) that schedules loops with optimised parameters. It also models one Go helper that ships in the same tree. Each is written in Dafny, and its properties are proved.

- **Task sort** (`TaskSort`, `libgomp/src/libgomp/loop.c:80-156`, copied in `offline_computation.cpp:23-84`).
  - `insertion` is an exchange sort. It swaps a weight array and an index map in lockstep.
  - `quicksort` falls back to it below 128 elements.
  - `sort` seeds the map with the identity and then sorts.
- **Static load balancers** (`Balance`, `loop.c:162-378`, copied in `offline_computation.cpp:86-233`).
  - BIN+LPT:
    - `compute_cummulativesum` computes exclusive prefix sums.
    - `compute_chunksizes` cuts the workload greedily into at most `nchunks` weight-bounded chunks.
    - `compute_chunks` computes each chunk's weight.
    - `binlpt_balance` places whole chunks, heaviest first, on the least loaded thread.
  - SRR (smart round robin):
    - `srr_balance` sorts the caller's workload in place and hands out mirrored pairs round-robin.
    - When the count is odd, it gives the smallest task to the least loaded thread.
- **Work-share set-up** (`LoopInit`, `loop.c:385-724` and `1047-1103`).
  - `gomp_loop_init` contributes its integer rules: the canonical end of an empty loop, the RAND and TRAP bounds, and the BINLPT chunk count.
  - It also builds the task map of the BINLPT and SRR schedules.
  - `GOMP_loop_runtime_start` contributes its choice of start routine, including the fallback to static scheduling for small loops.
- **Per-thread handout** (`ThirdParty`, `gcc/libgomp/thirdparty_schedules.h`).
  - `gomp_iter_binlpt_next` hands each thread its next maximal run of tasks in the task map.
  - `gomp_iter_hss_next` takes tasks greedily up to a weight target.
- **Chunk-size helpers and FAC2** (`Schedules`, `gcc/libgomp/schedules.h`).
  - `clip`, `clip_ull`, `css_chunk_size(_ull)` and `fss_transform_range` are modelled.
  - `bo_iter_fac2_next` is modelled as a sequential state machine: batches of `R/2/P` iterations per thread, with the end of each batch as a barrier.
- **Schedule predicates** (`BoScheduling`, `gcc/libgomp/bo_scheduling.h`).
- **Go-import discovery** (`Discovery`, `AsciiText`, `gcc/libgo/go/cmd/go/internal/get/discovery.go`).
  - `parseMetaGoImports` collects `<meta name="go-import">` records from a token stream, and then runs its two mode-dependent passes.
  - `attrValue` and `charsetReader` are modelled too.

`WorkShares.WorkShare` is a class that holds the fields of `struct gomp_work_share` that these routines read and write. The imperative routines are methods over it or over arrays. Every method is proved against a specification function, and the properties of that function are proved as lemmas.

Behaviour of the code that its own comments or structure suggest was meant otherwise. The model follows the code as written:

- `parseMetaGoImports` drops records whose VCS is "mod" during the scan (`discovery.go:62-64`). Yet the two passes after it (`discovery.go:73-91`), and their comments, expect "mod" records in the list. The `PreferMod` pass can therefore never find one, and both modes return the same list.
- The "go-import" value of the `name` attribute is compared exactly (`discovery.go:54`). Only the attribute key is matched case-insensitively (`attrValue`, `discovery.go:95-103`), so `name="GO-IMPORT"` gives no record.
- `srr_balance` hands every mirrored pair out twice. Each pass of its loop serves both sorted position `i` and its mirror `ntasks - (i - k) - 1` (`loop.c:194-195`), so half the passes would cover every task. But `i` runs over the whole range (`loop.c:192`), and the loads therefore count each pair twice. The loads also index the sorted array with original indices (`loop.c:200`).
- The second recursive call of `quicksort` passes `map`, where `map + i` is evidently meant, as for the weights `a + i` beside it (`loop.c:141`, `offline_computation.cpp:70`).

## Model

| member | source | states |
|---|---|---|
| BoScheduling.BoSchedules | gcc/libgomp/bo_scheduling.h:19-22 | `is_bo_schedule` holds exactly for BO_FSS, BO_CSS and BO_QSS |
| BoScheduling.ParameterizedSchedules | gcc/libgomp/bo_scheduling.h:24-27 | `is_parameterized` holds exactly for those three and FS_CSS |
| BoScheduling.BoIsParameterized | gcc/libgomp/bo_scheduling.h:19-27 | every BO schedule is parameterized; FS_CSS is the only parameterized schedule that is not a BO one |
| BoScheduling.OthersNeither | gcc/libgomp/bo_scheduling.h:19-27 | every other schedule (BO_TSS, BO_TAPE, FS_FAC2 and all GFS_*) satisfies neither predicate |
| WorkShares.WorkShare.constructor | libgomp/src/libgomp/loop.c:387 | the class's own constructor, standing for the `struct gomp_work_share *ws` that `gomp_loop_init` receives (the struct's allocation is not part of this model): the cursor array is fresh, zeroed and has one entry per thread; the calloc at `loop.c:723` is modelled by `LoopInit.BalanceTasks` |
| Schedules.Clip | gcc/libgomp/schedules.h:24-33 | below `low` gives `low`; above `hi` gives `hi`; otherwise gives `x`; with `low <= hi` the result lies in `[low, hi]` |
| Schedules.ClipUll | gcc/libgomp/schedules.h:11-22 | the unsigned clamp agrees with the signed one on naturals |
| Schedules.ClipIdempotent | gcc/libgomp/schedules.h:24-33 | clamping twice is clamping once |
| Schedules.ClipMonotone | gcc/libgomp/schedules.h:24-33 | clamping preserves order |
| Schedules.CssChunkSize | gcc/libgomp/schedules.h:44-50 | the exponent `2/3` is integer 0, so the chunk size is 1 for every `N >= 1`, whatever the parameter |
| Schedules.CssChunkSizeUll | gcc/libgomp/schedules.h:36-42 | the unsigned variant is 1 for `N >= 1` and 0 for `N == 0` |
| Schedules.FssTransformRange | gcc/libgomp/schedules.h:52-56 | the identity on the parameter |
| Schedules.RefreshBarrier | gcc/libgomp/schedules.h:86-126 | a refresh at the barrier keeps `next`, gives a chunk size of at least 1 and puts the new barrier between `next` and `end`; a chunk size of 1 means the last batch, which runs to `end` |
| Schedules.Fac2StepValid | gcc/libgomp/schedules.h:79-144 | a call with work left keeps the FAC2 state valid; it moves `next` strictly forward and never past `end` |
| Schedules.Fac2Covers | gcc/libgomp/schedules.h:79-144 | under sequential execution the chunks of successive calls are non-empty and adjacent, and they cover `[next, end)` exactly |
| Schedules.Fac2Next | gcc/libgomp/schedules.h:64-145 | returns false exactly when `next == end`, and then changes nothing; otherwise it refreshes at the barrier, hands out `[next, nend)`, sets `next := nend` and keeps the state valid |
| ThirdParty.FirstOwned | gcc/libgomp/thirdparty_schedules.h:283-290 | the first index from the cursor on that is mapped to the thread, or the map's length when there is none |
| ThirdParty.RunEnd | gcc/libgomp/thirdparty_schedules.h:294-298 | the end of the thread's run: every index before it maps to the thread, and it is the map's end or an index of another thread |
| ThirdParty.NextRunAfter | gcc/libgomp/thirdparty_schedules.h:283-300 | the next run starts strictly after the previous one ended, so successive handouts are disjoint and increasing |
| ThirdParty.BinlptNext | gcc/libgomp/thirdparty_schedules.h:270-305 | true exactly when the thread has a task at or after its cursor; then it returns `[loop_start+i, loop_start+j)` for the first such task `i` and the end `j` of its run, and moves only that thread's cursor, to `j`; when false, no cursor changes |
| ThirdParty.HssTarget | gcc/libgomp/thirdparty_schedules.h:329-331 | the target weight is raised to at least `chunk_size` |
| ThirdParty.ScannedFrom | gcc/libgomp/thirdparty_schedules.h:335-357 | the selection loop takes tasks until the first position where a stop rule fires, or until the tasks run out |
| ThirdParty.Scanned | gcc/libgomp/thirdparty_schedules.h:334-357 | a call with tasks left takes at least one and at most all the remaining tasks; no stop rule fires before its count; one fires at it unless the tasks ran out |
| ThirdParty.HssScan | gcc/libgomp/thirdparty_schedules.h:334-357 | the loop takes exactly `Scanned` tasks, and `chunkweight` is their total weight |
| ThirdParty.HssNext | gcc/libgomp/thirdparty_schedules.h:307-371 | `*pstart` is the old `loop_start` and `*pend` is `loop_start + k + 1`, one beyond the `k` tasks taken, while `loop_start` advances only by `k` and `wremaining` drops by their weight; returns false exactly when `loop_start` was `__ntasks` |
| TaskSort.Swap | libgomp/src/libgomp/loop.c:85-86 | exchanges two positions and keeps every other |
| TaskSort.SwapPermutes | libgomp/src/libgomp/loop.c:85-86 | an exchange keeps the multiset |
| TaskSort.ExchangePermutes | libgomp/src/libgomp/loop.c:102-106 | a conditional exchange keeps the multisets of both the weights and the map |
| TaskSort.ExchangeTracks | libgomp/src/libgomp/loop.c:102-106 | swapping map and weights together keeps `a[k] == orig[map[k]]` |
| TaskSort.PullFromMinimum | libgomp/src/libgomp/loop.c:99-107 | after the inner loop, slot `i` holds a least weight of the rest of the window |
| TaskSort.InsertionFromSorts | libgomp/src/libgomp/loop.c:97-108 | the outer loop from a settled prefix leaves the weights sorted |
| TaskSort.InsertionSorts | libgomp/src/libgomp/loop.c:91-109 | `insertion` sorts the weights, permutes both arrays, and keeps map and weights in lockstep |
| TaskSort.SortIsCorrect | libgomp/src/libgomp/loop.c:147-156 | after `sort`, `a` is sorted and a permutation of its input; `map` is a permutation of `0..n-1` with `a[k] == old_a[map[k]]` |
| TaskSort.SortMapIsPermutation | libgomp/src/libgomp/loop.c:152-155 | the map `sort` returns has distinct entries that cover every position |
| TaskSort.InsertionSort | libgomp/src/libgomp/loop.c:91-109 | the in-place `insertion` on array windows leaves exactly the contents of the specification and touches nothing outside the windows; for `n == 0` the wrapped bound `n - 1` runs UINT_MAX passes that change nothing |
| TaskSort.Sort | libgomp/src/libgomp/loop.c:147-156 | in place, `a[0..n)` and `map[0..n)` become the sorted weights and their original indices; the rest of both arrays is unchanged |
| TaskSort.ScanUpFrom | libgomp/src/libgomp/loop.c:130-131 | the first index from `i` whose weight is not below the pivot |
| TaskSort.ScanDownFrom | libgomp/src/libgomp/loop.c:132-133 | the last index up to `j` whose weight is not above the pivot |
| TaskSort.PartitionStep | libgomp/src/libgomp/loop.c:128-138 | a partition round stays inside the window; when the scans meet, the window is split at `i` with `0 < i`; otherwise the exchange keeps it bracketed |
| TaskSort.Partition | libgomp/src/libgomp/loop.c:127-138 | the partition loop splits the window at some `0 < i < n` (no weight on the left exceeds one on the right), and permutes weights and map |
| TaskSort.Quicksort | libgomp/src/libgomp/loop.c:114-142 | the weight window ends sorted and permuted, and the map window permuted; below 128 elements both are exactly what `insertion` makes |
| TaskSort.SortHalves | libgomp/src/libgomp/loop.c:140-141 | the two recursive calls, the second given the first's map window, sort the split window and keep both multisets |
| Balance.CummulativeSum | libgomp/src/libgomp/loop.c:239-251 | `sum[0] = 0`, and `sum[i]` is the total of `a[0..i)` |
| Balance.WindowWeight | libgomp/src/libgomp/loop.c:284 | the difference of two prefix sums is the weight of the tasks between them |
| Balance.CutIsFirstExcess | libgomp/src/libgomp/loop.c:282-286 | the chunk search stops at the first `j` where the weight from `i` exceeds the chunk weight, or at `ntasks` |
| Balance.SizesFromTotal | libgomp/src/libgomp/loop.c:276-292 | the chunk sizes from `i` on add up to the tasks left |
| Balance.ChunkSizesShape | libgomp/src/libgomp/loop.c:262-298 | at least one and at most `nchunks` chunks are formed, each of size at least 1; the unused slots stay 0; the sizes sum to `ntasks` |
| Balance.ChunkRule | libgomp/src/libgomp/loop.c:273-291 | each chunk starts where the previous one ends; except in slot `nchunks-1`, it is the shortest run weighing more than `total / nchunks`, else the rest; slot `nchunks-1` takes all remaining tasks |
| Balance.FillChunkSizes | libgomp/src/libgomp/loop.c:276-292 | the chunk loop writes the specified sizes into the zeroed buffer |
| Balance.ChunkSizes | libgomp/src/libgomp/loop.c:262-298 | `compute_chunksizes` returns exactly the specified sizes |
| Balance.BlockSumsAt | libgomp/src/libgomp/loop.c:312-320 | chunk `c` weighs the tasks of the `c`-th consecutive block, which ends within `ntasks` |
| Balance.BlockSumsTotal | libgomp/src/libgomp/loop.c:303-323 | the chunk weights add up to the weight of the tasks they cover |
| Balance.Chunks | libgomp/src/libgomp/loop.c:303-323 | `compute_chunks` returns the block sums of the chunk sizes |
| Balance.ArgMinIsLeast | libgomp/src/libgomp/loop.c:359-364 | the scanned thread carries the least load, and every thread before it a strictly greater one |
| Balance.LeastLoaded | libgomp/src/libgomp/loop.c:211-216 | the scan returns the lowest-indexed least-loaded thread among the first `nthreads` |
| Balance.LayoutAt | libgomp/src/libgomp/loop.c:366-367 | task `j` of chunk `c` sits at `chunkoff[c] + j` and gets the chunk's thread |
| Balance.FillBlock | libgomp/src/libgomp/loop.c:366-367 | the inner loop writes `tid` into the chunk's `len` entries and nothing else |
| Balance.LptStepPlaces | libgomp/src/libgomp/loop.c:351-368 | a chunk of no weight is skipped; any other goes to the lowest-indexed least-loaded thread, which takes on its weight |
| Balance.LptOwnersAreThreads | libgomp/src/libgomp/loop.c:351-368 | every chunk owner is a thread id below `nthreads` |
| Balance.LptConservesWork | libgomp/src/libgomp/loop.c:351-368 | the thread loads add up to the weight of the chunks placed so far |
| Balance.LptSkipsEmpty | libgomp/src/libgomp/loop.c:356-357 | a chunk of weight 0 keeps owner 0 |
| Balance.BinlptMapIsAssignment | libgomp/src/libgomp/loop.c:328-378 | the task map has one entry per task, each a thread id below `nthreads` |
| Balance.BinlptChunkOnOneThread | libgomp/src/libgomp/loop.c:366-367 | every task of a chunk runs on that chunk's thread |
| Balance.BinlptEmptyChunkOnThreadZero | libgomp/src/libgomp/loop.c:339-357 | the tasks of a chunk of weight 0 stay on thread 0 of the zeroed map |
| Balance.BinlptHandsOutAllWork | libgomp/src/libgomp/loop.c:351-369 | the final thread loads add up to the weight of all tasks |
| Balance.PlaceChunk | libgomp/src/libgomp/loop.c:351-369 | one pass of the placement loop advances loads and task map by one step of LPT |
| Balance.ChunkTables | libgomp/src/libgomp/loop.c:344-346 | the chunk sizes, chunk weights and chunk offsets are the specified ones; the offsets are the prefix sums of the sizes |
| Balance.SortedChunks | libgomp/src/libgomp/loop.c:349-351 | placing the chunks in the order `sort` leaves them, from the last (heaviest) down, gives the specified BIN+LPT map |
| Balance.PlaceAll | libgomp/src/libgomp/loop.c:351-369 | the placement loop builds the layout of the LPT owners over the chunks |
| Balance.BinlptBalance | libgomp/src/libgomp/loop.c:328-378 | `binlpt_balance` returns exactly the specified BIN+LPT task map |
| Balance.TurnIsMod | libgomp/src/libgomp/loop.c:189-203 | the thread of pass `j` is `j % nthreads` |
| Balance.SrrPairsShareThread | libgomp/src/libgomp/loop.c:192-204 | a task and its mirror end on the same thread, the one of the later of their passes |
| Balance.SrrSmallestToLeastLoaded | libgomp/src/libgomp/loop.c:206-222 | with an odd count, the leftover task is a lightest one, and it goes to the lowest-indexed least-loaded thread |
| Balance.SrrLoadsDoubleCount | libgomp/src/libgomp/loop.c:192-204 | as written, the pairing loads add up to twice the total work, less twice the leftover entry it reads |
| Balance.SrrPairs | libgomp/src/libgomp/loop.c:188-204 | the pairing loop leaves the loads and the task map as the specification says, and does not assign the leftover task |
| Balance.SrrAssign | libgomp/src/libgomp/loop.c:180-222 | every task sorted to position `x` gets its SRR owner |
| Balance.SrrBalance | libgomp/src/libgomp/loop.c:171-225 | sorts the caller's `tasks` in place; each task gets its SRR owner via `sortmap`; every entry of the map is a thread id below `nthreads` |
| LoopInit.CDivBounds | libgomp/src/libgomp/loop.c:447-448 | C's division truncates toward zero: the remainder takes the sign of the dividend and is smaller than the divisor |
| LoopInit.ResolveThreads | libgomp/src/libgomp/loop.c:440-445 | `num_threads` when non-zero, else the team's count, else 1; always at least 1 |
| LoopInit.CanonicalEnd | libgomp/src/libgomp/loop.c:393-394 | the recorded end is `start` or `end` |
| LoopInit.CanonicalKeepsIterations | libgomp/src/libgomp/loop.c:392-394 | canonicalising the end keeps exactly the loop's iterations |
| LoopInit.CanonicalEmpty | libgomp/src/libgomp/loop.c:392-396 | a loop has no iterations exactly when its recorded end equals `start`, that is `next == end` |
| LoopInit.RandClamp | libgomp/src/libgomp/loop.c:452-453 | afterwards `1 <= randmin <= randmax` |
| LoopInit.RandClampRepairsOnly | libgomp/src/libgomp/loop.c:452-453 | the clamps change only a `randmin` below 1 (to 1) and a `randmax` below `randmin` (to `randmin + 1`) |
| LoopInit.RandInit | libgomp/src/libgomp/loop.c:446-453 | whatever the environment gives, RAND ends with `1 <= randmin <= randmax` |
| LoopInit.RandDefaultsNeedNoClamp | libgomp/src/libgomp/loop.c:447-448 | without environment values and with at least `100*P` iterations, the bounds are `range/(100P)` and `range/(2P)` unclamped |
| LoopInit.TrapStartSize | libgomp/src/libgomp/loop.c:626-634 | `TRAPSTART` replaces the computed `startsize` |
| LoopInit.TrapStartSizeBounds | libgomp/src/libgomp/loop.c:626 | the computed `startsize` is how many times `2P` fits in the range |
| LoopInit.TrapEndSize | libgomp/src/libgomp/loop.c:627-635 | the computed `endsize` is at least 1; `TRAPEND` replaces it, unclamped |
| LoopInit.TrapEndSizeBounds | libgomp/src/libgomp/loop.c:627-628 | for a range of at least `100P`, the computed `endsize` is how many times `100P` fits in it |
| LoopInit.BinlptChunkCount | libgomp/src/libgomp/loop.c:706-708 | the chunk count is `chunk_size`, except that 1 means one chunk per task |
| LoopInit.GompLoopInit | libgomp/src/libgomp/loop.c:385-724 | sets the canonical range, the chunk size, the RAND and TRAP fields and `__nchunks`; for BINLPT and SRR it builds the task map, `loop_start` and zeroed thread cursors; every other field stays as it was |
| LoopInit.InitFields | libgomp/src/libgomp/loop.c:387-645 | the fields common to every schedule, and those of RAND and TRAP |
| LoopInit.InitRand | libgomp/src/libgomp/loop.c:438-455 | RAND's `randmin` and `randmax` are the specified clamped bounds; other schedules leave them alone |
| LoopInit.InitTrap | libgomp/src/libgomp/loop.c:615-645 | TRAP sets `trapcounter = -1` and the specified `startsize`; other schedules leave them alone |
| LoopInit.BalanceTasks | libgomp/src/libgomp/loop.c:710-723 | BINLPT gets the BIN+LPT map over the unchanged workload; SRR sorts the workload in place into the SRR map; both set `loop_start` and zeroed cursors; other schedules change nothing |
| LoopInit.RuntimeStart | libgomp/src/libgomp/loop.c:1047-1103 | the routine chosen always exists, or the call aborts |
| LoopInit.SmallLoopsRunStatic | libgomp/src/libgomp/loop.c:1055-1059 | a loop with `end <= 2*nthreads` runs statically with the modifier as chunk size, whatever the runtime schedule |
| LoopInit.LargeLoopsFollowSchedule | libgomp/src/libgomp/loop.c:1061-1102 | otherwise the runtime schedule is used; `auto` becomes static with chunk size 0; a schedule without a start routine aborts, and only such a schedule does |
| AsciiText.ToLower | gcc/libgo/go/cmd/go/internal/get/discovery.go:21 | lower-cases every character and keeps the length |
| AsciiText.EqualFoldIsLowerEquality | gcc/libgo/go/cmd/go/internal/get/discovery.go:99 | case-insensitive equality is equality after lower-casing |
| AsciiText.FieldsAreFields | gcc/libgo/go/cmd/go/internal/get/discovery.go:57 | every field is non-empty and free of white space |
| AsciiText.FieldsOfJoin | gcc/libgo/go/cmd/go/internal/get/discovery.go:57 | splitting words joined by spaces gives the words back |
| Discovery.CharsetReader | gcc/libgo/go/cmd/go/internal/get/discovery.go:20-27 | succeeds exactly for "ascii" in any letter case, then with the input unchanged; otherwise the error names the charset |
| Discovery.AttrValueFirstMatch | gcc/libgo/go/cmd/go/internal/get/discovery.go:97-104 | the value of the first attribute whose name matches case-insensitively, and "" when none matches |
| Discovery.MetaTagRecord | gcc/libgo/go/cmd/go/internal/get/discovery.go:50-69 | a `meta` tag named "go-import" whose content is three fields gives those three fields, unless the second is "mod" |
| Discovery.NameValueIsCaseSensitive | gcc/libgo/go/cmd/go/internal/get/discovery.go:54 | a tag whose name value is "GO-IMPORT" gives no record |
| Discovery.ScanStopsAt | gcc/libgo/go/cmd/go/internal/get/discovery.go:37-49 | nothing after an error, a `<body>` or a `</head>` contributes |
| Discovery.ScanHasNoMod | gcc/libgo/go/cmd/go/internal/get/discovery.go:62-64 | the scan never collects a record whose VCS is "mod" |
| Discovery.ScanRecordsFromTokens | gcc/libgo/go/cmd/go/internal/get/discovery.go:36-71 | every collected record comes from a token before the first stop |
| Discovery.ModEntries | gcc/libgo/go/cmd/go/internal/get/discovery.go:78-83 | the first pass keeps only "mod" entries of its input |
| Discovery.Claimed | gcc/libgo/go/cmd/go/internal/get/discovery.go:80 | the prefixes marked are exactly those of "mod" entries |
| Discovery.Unclaimed | gcc/libgo/go/cmd/go/internal/get/discovery.go:87-91 | the second pass keeps only entries that are not "mod" and whose prefix is not marked |
| Discovery.ResolveWithoutMod | gcc/libgo/go/cmd/go/internal/get/discovery.go:73-92 | without "mod" records both passes together return their input, whatever the mode |
| Discovery.PreferModSupersedes | gcc/libgo/go/cmd/go/internal/get/discovery.go:76-91 | under `PreferMod`, no entry that is returned and is not "mod" shares its prefix with a "mod" entry |
| Discovery.ParseMetaGoImports | gcc/libgo/go/cmd/go/internal/get/discovery.go:31-93 | returns the records of the scan in scan order, the same for both modes, none of them "mod", and always a nil error |
| Discovery.ScanTokens | gcc/libgo/go/cmd/go/internal/get/discovery.go:36-71 | the loop collects exactly the scan's records; it keeps an error exactly when it stopped at a non-EOF error before any record |
| Discovery.TokenRecord | gcc/libgo/go/cmd/go/internal/get/discovery.go:50-69 | the loop body adds exactly the token's record |
| Discovery.ModPass | gcc/libgo/go/cmd/go/internal/get/discovery.go:74-84 | under `PreferMod`, the "mod" entries in order, with `have` marking exactly their prefixes; otherwise nothing |
| Discovery.NonModPass | gcc/libgo/go/cmd/go/internal/get/discovery.go:86-91 | appends the entries that are not "mod" and whose prefix is not marked; a missing key reads as false |

## Left out

- TaskSort.Quicksort: past 128 elements the map window is only known to be rearranged, not to follow the weights. That is because the second recursive call passes `map` rather than `map + i` (`loop.c:141`, `offline_computation.cpp:70`). `sort` never calls `quicksort`.
- Unsigned and `long` widths: counts, weights and loads are unbounded; wrap-around on overflow is not modelled. The exception is `insertion`'s `n - 1` for `n == 0`.
- Preconditions on thread counts and chunks: `nthreads >= 1` throughout, and `1 <= nchunks <= ntasks` for BIN+LPT. `sortmap` has `ntasks` slots, and `nchunks == 0` would divide by zero.
- SRR with an odd count: it needs `nthreads <= ntasks`, because its `load` array has `ntasks` slots.
- Concurrency: the team, the locks, and the compare-and-swap retries of `bo_iter_fac2_next` (`schedules.h:98-107, 112-122, 133-139`) are left out. FAC2 is modelled sequentially, assuming every compare-and-swap succeeds, with `incr > 0`. The `unsigned long long` FAC2 variant is not part of this model.
- Floating point:
  - `pow` in `css_chunk_size` drops out exactly.
  - The `ceil` target of `gomp_iter_hss_next` is an input.
  - TRAP's `big_n` and `decr_delta` are not part of this model.
  - The FACT, WFAC, AFAC, BOLD, TAPE and FSC set-up and iterators are not part of this model, and neither are the other float schedules of `gcc/libgomp/schedules.h` and `gcc/libgomp/loop.c`.
- The DYNAMIC overflow heuristic that sets `ws->mode` (`loop.c:415-432`) is not modelled; only `chunk_size *= incr` is.
- `getenv`, `strtod` and `atoi` (RANDMIN, RANDMAX, TRAPSTART, TRAPEND) are inputs that are already integers. The team's thread count is an input too. `printf` and the clocks are left out.
- `calloc` and `malloc` are modelled as fresh arrays; `calloc` gives zeroed ones.
- `omp_set_workload` is an input: `gomp_loop_init` takes the registered workload array as `tasks`.
- The binlpt namespace of `offline_computation.cpp` is the same code as `loop.c` with `nchunks` passed explicitly. `Balance.BinlptBalance` takes `nchunks` as a parameter and covers both. The quantiser, the statistics and `main` of that file are not part of this model.
- The XML tokenizer is the input token sequence, and running off its end stands for `io.EOF`. `strings.EqualFold`, `strings.ToLower` and `strings.Fields` are modelled for ASCII only. `%q` is modelled for charsets that need no escaping.
- The LPBO optimiser, file and JSON I/O, timing, thread-local recording, and the compiler test suites are not part of this model.
