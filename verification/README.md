# QVCache: a verified model

QVCache keeps sharded in-memory vector indexes in front of a slow backend. A query is answered from the shards if
its K-th distance is within a threshold learned for the region of the query; otherwise the backend answers and the
results are admitted to a shard in the background. These Dafny modules model the parts of the repository with the
most involved behaviour and prove what they are for, for all inputs, all runs and all interleavings. Every module is
one `.dfy` file; `dafny verify dfyconfig.toml` checks them together. Nothing was executed.

| group | modules |
|---|---|
| concurrent protocols, as step systems | SearchPool (parallel_for and its workers), InsertPool (background insertions), Tombstones (removes against admissions) |
| Vamana graph index | Neighbors, GreedySearch, Occlusion, Slots, Consolidation, Ranks, Compaction, VamanaIndex |
| answering a query from several shards | ResultMerge, MergeExactness, SearchStrategies, StrategyAgreement |
| admitting a miss | LruCache, Admission |
| learned thresholds | Regions (operations on values), ThresholdRuns (whole runs), L1Ball (the walk), Thresholds (the class) |
| k-means | Vectors, Clusters, Lloyd |
| building an index from shards | ShardMerge |
| ground truth of the refresh benchmark | ExactTopK, WordFiles, Truthset |
| shared | Base, Sorting (std::sort, known only by its contract: ordered, same elements) |

How the code is read:

- Distances and thresholds are exact reals, and a FLT_MAX that serves as "above every distance" is a value of its own
  (`None` or `Infinite`). Division of a distance by zero follows IEEE: a positive distance gives infinity, 0/0 is ignored by std::max.
- A step of a protocol is one atomic access, one futex call, one locked block, or the start or end of one job, on
  sequentially consistent memory. Ids and exceptions are recorded in logs that no step reads. The search pool's call
  mutex admits one caller at a time, so the model has one caller making any number of calls. The calls without workers
  or with n < 2 run inline and take no part in the protocol.
- Where std::sort or a hash map may order equal elements in any way, the contracts hold for every such order: a `tie`
  parameter, an `order` parameter, or a contract that fixes only what is fixed.
- The C++ marks an uninitialised threshold by an extreme float; here it is `Unset`. Reading a K that was never seeded
  creates a threshold of 0 for it, which counts as live.
- In copy_index.cpp the colons at lines 585 and 604 are read as typing errors. The entry point is the frozen slot,
  which is never deleted: the test at line 2103 that should look for an active replacement looks for a deleted one.

Findings, each stated by a member named in the table:

- wait_idle can block for ever although the pool is idle (`InsertPool.WakeupCanBeLost`), exactly when its test finds
  the pool busy (`InsertPool.LostIff`); an insert pool without threads does not drain its queue
  (`InsertPool.DestructorDrains`).
- The two search strategies can differ, in both directions, while a tombstoned id is still listed by a shard: the
  fallback to single shards hits where the merge misses (`StrategyAgreement.StrategiesCanDiffer`), and a tie for the
  last place is broken for a live tag in one merge and for a tombstoned one in the other
  (`StrategyAgreement.TiesCanDiffer`). `StrategyAgreement.StrategiesAgreeIff` says exactly when they must agree.
- The L1 walk is wrong when a bucket coordinate passes 255: it wraps in the byte (`L1Ball.ExactIff`).
- With a single mini-index that is full, ensure_admit_shard returns it although it has no free slot (`Admission.Cache.EnsureAdmitShard`).
- With fewer than K live vectors compute_exact_gt leaves its answer in the order of the ids (`ExactTopK.UnsortedAnswer`);
  it is sorted exactly if the distances happen to ascend in that order (`ExactTopK.SortedIff`).
- The ids 2^32 - 2 and 2^32 - 1 can be inserted but are never returned as a hit, because their tags are the two
  reserved values (`Tombstones.CanBeShownIff`).
- occlude_list picks nothing when alpha is below 1 (`Occlusion.PruningWorks`).
- The flag and the count that consolidate_deletes leaves are wrong in exactly two cases
  (`VamanaIndex.Index.ConsolidateDeletes`): nothing is deleted but holes are left from an earlier pass, or a deleted
  slot had been freed already. `VamanaIndex.HoleTakenForCompacted` runs into the first. Both need an earlier
  consolidate_deletes without compact_data; the method is protected, and consolidate always runs the two together,
  which keeps the invariant on every index compacted before (`VamanaIndex.Index.Consolidate`).
- The size test of load_live_groundtruth lets short files pass once the product wraps or turns negative; the reads that
  follow refuse them (`Truthset.HeaderPassesSizeTest`, `Truthset.Load`).

## Model

| member | source | states |
|---|---|---|
| SearchPool.Invariance | include/qvcache/search_thread_pool.h:84-188 | In every reachable state of any number of workers, calls and interleavings the protocol invariant holds: who still owes an answer, what arrived_ counts, which ids are claimed, running, finished or threw. |
| SearchPool.AtMostOnce | include/qvcache/search_thread_pool.h:112-187 | At every moment of every run no id of the current call has been started twice, although the epoch word wraps at 2^32. |
| SearchPool.ExactlyOnceAtReturn | include/qvcache/search_thread_pool.h:119-141 | When a call is about to return: only ids below n ran, each once, all have ended; if some worker caught nothing every id ran; an exception is rethrown exactly when a job threw, and it is the first one recorded. |
| SearchPool.JobOnlyWhileOpen | include/qvcache/search_thread_pool.h:115-131 | No worker holds the caller's job function except for the current call and while that call is open, so it is never touched after parallel_for returns. |
| SearchPool.EpochWordsAreExact | include/qvcache/search_thread_pool.h:145-164 | A live worker is at most one increment behind, so comparing 32-bit epoch words tells exactly whether it is behind, whatever the number of wrap-arounds. |
| SearchPool.StepMeasure | include/qvcache/search_thread_pool.h:84-188 | While the caller waits, every step of a worker that still owes an answer lowers a measure and no other step raises it. |
| SearchPool.AnswersAreBounded | include/qvcache/search_thread_pool.h:128-130 | The number of steps taken by owing workers in any schedule is bounded by that measure, however many spurious wake-ups and idle polls are mixed in. |
| SearchPool.NeverStuck | include/qvcache/search_thread_pool.h:84-93 | While an answer or an exit is missing, some worker that owes it can take a step: the spin on arrived_ and the join are never waiting on sleepers only. |
| InsertPool.Invariance | src/insert_thread_pool.cpp:9-76 | The task, worker and counter invariant of the background pool holds in every reachable state. |
| InsertPool.Conservation | src/insert_thread_pool.cpp:13-24 | At every step, submitted tasks = queued + in flight + done. |
| InsertPool.WaitIdleMeansDone | src/insert_thread_pool.cpp:61-66 | When wait_idle returns, every task submitted so far has run to its end, with all of its effects in order. |
| InsertPool.QueryLife | src/insert_thread_pool.cpp:40-55 | What a task has done at any moment is a prefix of: insertion, threshold update (if there is a callback and a query), free of the query copy (if there is one). |
| InsertPool.EachEffectOnce | src/insert_thread_pool.cpp:40-55 | A finished task has inserted once, updated the threshold once if there is a callback and a query and never otherwise, and freed the query once if there was one. |
| InsertPool.FirstInFirstOut | src/insert_thread_pool.cpp:13-21 | Tasks leave the queue in the order in which they were submitted. |
| InsertPool.FreedOnce | src/insert_thread_pool.cpp:45-54 | A query copy is freed at most once, never before its insertion and threshold update, and exactly once when the task is done. |
| InsertPool.DestructorDrains | src/insert_thread_pool.cpp:69-77 | After the destructor has joined, all tasks are done if and only if there was a worker or no task at all. |
| InsertPool.WakeupCanBeLost | src/insert_thread_pool.cpp:22-24 | There is a run after which a waiter is blocked although the pool is idle and no step of a worker is left that could wake it: decrement and notify happen outside the mutex. |
| InsertPool.LostIff | src/insert_thread_pool.cpp:22-66 | In every reachable state of a running pool, a caller about to test the predicate of wait_idle can be stranded by the pool's own steps, without a submission, a spurious wake-up or destruction, if and only if the pool has a worker and is not idle at that test. |
| InsertPool.StrandedForGood | src/insert_thread_pool.cpp:22-77 | A stranded waiter stays blocked on an idle pool through every run without a submission or a spurious wake-up of its own; the destructor does not wake it either. |
| Neighbors.InsertIntoPool | backends/Greator/include/greator/neighbor.h:109-145 | Inserts into the ordered list in place, moving the tail one place right; a neighbour already present is reported by K + 1 and nothing changes; the result is ordered. |
| Neighbors.Bisect | backends/Greator/include/greator/neighbor.h:121-127 | The halving loop ends next to the place where the distance belongs. |
| Neighbors.HasEqual | backends/Greator/include/greator/neighbor.h:130-138 | The scan among equally far neighbours finds an equal id exactly when the whole list has one. |
| GreedySearch.IterateToFixedPoint | backends/Greator/src/copy_index.cpp:602-715 | Terminates although the scan index moves back; the pool is ordered, holds exactly the L closest of everything visited, all of it expanded, with all out-neighbours visited; everything visited is reachable from the seeds; reported ids are the expanded ones (without the frozen start unless asked for), each distance comparison is counted once; an out-of-range edge is the only error. |
| GreedySearch.ExpandAt | backends/Greator/src/copy_index.cpp:645-710 | One expansion keeps the search invariant, and sets the scan index to the smallest place that changed. |
| GreedySearch.Expand | backends/Greator/src/copy_index.cpp:678-705 | Offering all unvisited out-neighbours keeps the list the L closest of the visited slots and reports the smallest changed place. |
| GreedySearch.Offer | backends/Greator/src/copy_index.cpp:690-703 | One candidate is inserted or skipped such that the list stays the L closest of the visited slots. |
| GreedySearch.ListSeeds | backends/Greator/src/copy_index.cpp:617-634 | The list starts with the first L different seeds, each once. |
| GreedySearch.SeedsAreFirst | backends/Greator/src/copy_index.cpp:617-634 | A slot is listed at the start if and only if fewer than L different ones come before its first occurrence among the seeds. |
| GreedySearch.Start | backends/Greator/src/copy_index.cpp:610-640 | After sorting, the list holds the closest of the seeds, in order, none expanded. |
| GreedySearch.NoBetterNeighbour | backends/Greator/src/copy_index.cpp:642-713 | At a fixed point no edge out of the result leads to a slot that belongs in it. |
| GreedySearch.ExactUnlessFull | backends/Greator/src/copy_index.cpp:642-713 | A result list that never filled up is exact: it is the set of slots reachable from the seeds. |
| Occlusion.OccludeList | backends/Greator/src/copy_index.cpp:761-796 | The in-place loops over the factors return exactly the greedy picks, in order, and terminate. |
| Occlusion.ShadeInPlace | backends/Greator/src/copy_index.cpp:781-791 | Picking a candidate raises the factors behind it as specified, in place. |
| Occlusion.PicksAreGreedy | backends/Greator/src/copy_index.cpp:771-795 | A list of positions is what the passes pick if and only if each is the first candidate free of occlusion by the picks before it, at the smallest alpha 1, 1.2, 1.44, ... up to the limit at which any candidate is free, and the list ends only at the degree or when nothing is free at any of them. It speaks of mutual distances only, not of factors or passes. |
| Occlusion.QuotientMeans | backends/Greator/src/copy_index.cpp:788-791 | Occluding at alpha a means being more than a times as far from the query as from the pick; at distance 0 from the pick, not being at distance 0 from the query. |
| Occlusion.PruningWorks | backends/Greator/src/copy_index.cpp:771-795 | Picks are distinct, at most `degree`, none occluded at alpha by an earlier pick before it; if it stops short, every candidate left out among the first maxc is occluded at the last alpha tried (within a factor 1.2 of the limit) by a nearer pick; something is picked, the nearest first, if and only if alpha >= 1, degree > 0 and there is a candidate. |
| Consolidation.CandidatesAreLocal | backends/Greator/src/copy_index.cpp:1940-1952 | The candidates for a slot depend only on its own list and the lists of deleted slots. |
| Consolidation.RepairedIsSound | backends/Greator/src/copy_index.cpp:1953-1971 | A repaired list has at most R entries, no repeats, no self loop, no deleted slot, and only neighbours and neighbours of deleted neighbours. |
| Consolidation.ConsolidationIsSound | backends/Greator/src/copy_index.cpp:1926-1975 | After the pass no slot that stays has an edge to a deleted one; lists without deleted neighbours are unchanged; repaired ones are as above. |
| Consolidation.ConsolidationKeeps | backends/Greator/src/copy_index.cpp:1926-1975 | Nothing is lost without reason, for alpha >= 1: a surviving neighbour of a slot, or of one of its deleted neighbours, is in the repaired list unless it is the slot itself, the list is full (counting the slot itself when it was a candidate), maxc candidates are no farther, or a kept one (or the slot itself) that is no farther occludes it at an alpha within a factor 1.2 of the last. |
| Consolidation.ConsolidationIsGreedy | backends/Greator/src/copy_index.cpp:1926-1975 | A repaired list consists exactly of the greedy picks, without the slot itself, among the surviving neighbours and those of deleted neighbours in order of distance. |
| VamanaIndex.ProcessOne | backends/Greator/src/copy_index.cpp:1931-1974 | Processing one more slot, in any order, leaves its final list and disturbs no slot still to be processed. |
| VamanaIndex.Index.GatherCandidates | backends/Greator/src/copy_index.cpp:1940-1952 | A slot is a candidate if and only if it is not deleted and is a neighbour or a neighbour of a deleted neighbour; repair is needed if and only if some neighbour is deleted. |
| VamanaIndex.Index.RepairSlot | backends/Greator/src/copy_index.cpp:1934-1973 | The loop body replaces one list by its repaired form and changes nothing else. |
| VamanaIndex.Index.RepairAll | backends/Greator/src/copy_index.cpp:1925-1975 | For every processing order the resulting graph is the same function of the graph before. |
| VamanaIndex.Index.ConsolidateDeletes | backends/Greator/src/copy_index.cpp:1901-1985 | The whole pass: new graph, freed slots, new count of points, and the flag. On any valid index, compacted or not, the invariant holds afterwards if and only if no deleted slot had been freed already and, when nothing was deleted, there is no hole. Nothing is left that compact_data would throw on. |
| VamanaIndex.HoleTakenForCompacted | backends/Greator/src/copy_index.cpp:1980-1985 | A run of the methods: consolidate_deletes alone, two reservations that leave a hole, and consolidate_deletes again. The index then counts as compacted although it has a hole, and the slot the next reservation takes holds a live point. |
| VamanaIndex.Index.LazyDelete | backends/Greator/src/copy_index.cpp:2479-2512 | Live becomes deleted: the tag leaves both maps, its slot joins the delete set, the slot stays occupied; an unknown tag is refused; the invariant holds. |
| VamanaIndex.Index.Reserve | backends/Greator/src/copy_index.cpp:2223-2246 | A free slot is taken, the next one after a compaction and any other after consolidate_deletes alone, leaves the delete set, and is registered with its vector; none is returned exactly when the index is full; the invariant holds. |
| Ranks.RankOrder | backends/Greator/src/copy_index.cpp:2077-2088 | The new location of live slots preserves their order. |
| Ranks.RanksFillAPrefix | backends/Greator/src/copy_index.cpp:2080-2088 | The new locations of live slots are exactly 0 to live - 1. |
| Compaction.MoveLive | backends/Greator/src/copy_index.cpp:2161-2169 | Moving a live slot down overwrites nothing that is still to be read: its place is free and the swap leaves an empty list behind. |
| Compaction.MovedAll | backends/Greator/src/copy_index.cpp:2120-2178 | When all slots have been visited, every live list, renamed, and every live vector is at its new place. |
| VamanaIndex.Index.NewLocations | backends/Greator/src/copy_index.cpp:2077-2088 | The counting loop computes the rank of every live slot and sends all others to the frozen slot. |
| VamanaIndex.Index.RenameList | backends/Greator/src/copy_index.cpp:2125-2151 | Renames a list in place, or throws exactly when a neighbour has a greater new location. |
| VamanaIndex.Index.MoveAll | backends/Greator/src/copy_index.cpp:2120-2178 | The moving loop throws exactly when a slot that stays has an edge to one that does not; otherwise lists and vectors are compacted. |
| VamanaIndex.Index.RenumberTags | backends/Greator/src/copy_index.cpp:2187-2194 | Both tag maps are rebuilt: each tag's location is the rank of its old one, and the maps are inverse, onto the first _nd slots. |
| VamanaIndex.Index.CompactData | backends/Greator/src/copy_index.cpp:2060-2207 | compact_data with its guards: nothing happens, or it throws exactly on a dangling edge, or the index is compacted in place with all flags and sets reset; the invariant then holds if and only if _nd counts the live points, so not while lazily deleted points wait to be consolidated. |
| VamanaIndex.TagsKeepVectorsAndNeighbours | backends/Greator/src/copy_index.cpp:2120-2194 | Across a compaction every tag keeps its vector, and its list leads to the same tags in the same order, and to the frozen slot where it did. |
| VamanaIndex.NothingBroken | backends/Greator/src/copy_index.cpp:1941-1971 | After consolidate_deletes no slot that stays has an edge compact_data would throw on. |
| VamanaIndex.CompactedIsValid | backends/Greator/src/copy_index.cpp:2186-2207 | The compacted index satisfies the full index invariant when _nd counts the live points. |
| Slots.FreeSlots | backends/Greator/src/copy_index.cpp:1980-1985 | The count and the flag consolidate_deletes leaves are right if and only if no deleted slot was free before and, when nothing was deleted, there is no hole. |
| VamanaIndex.Index.Consolidate | backends/Greator/src/copy_index.cpp:1901-2207 | Both passes in a row on any valid index: nothing is thrown, no deleted slot remains, live points keep vectors and (repaired) neighbours; the invariant holds again if and only if consolidate_deletes keeps it, which it does on every compacted index. |
| ResultMerge.BestOfIsMinimum | include/qvcache/qvcache.h:745-755 | The map keeps for each tag the smallest distance any shard listed. |
| ResultMerge.TopKDistancesAreUnique | include/qvcache/qvcache.h:771-781 | However ties are ordered, two top-K lists of the same content agree on every distance. |
| ResultMerge.AddShard | include/qvcache/qvcache.h:728-756 | The loop over one shard's results updates the best-distance map. |
| ResultMerge.CountContributions | include/qvcache/qvcache.h:783-818 | The contributing shards, each once, from least to most results in the merged list. |
| ResultMerge.ShareCounts | include/qvcache/qvcache.h:783-793 | The contribution of a shard is the number of places it fills in the merged list. |
| ResultMerge.MergeAndRerank | include/qvcache/qvcache.h:706-819 | The merged list has distinct tags, ascending distances, and is a top K of the best distances per tag over all listed shards; sources and contribution order are right. |
| MergeExactness.MergeIsExact | include/qvcache/qvcache.h:706-781 | If each shard list is that shard's exact top K, the merged list is an exact top K of the best distance per tag over the union of all shards, including tags held by several shards. |
| SearchStrategies.SearchSequential | include/qvcache/qvcache.h:947-1077 | Hits exactly if the merge or some single shard hits; the outcome is the merge's list with the contributing shards to touch, or one shard's own list; when only single shards hit it is the first of them in LRU order. |
| SearchStrategies.Fallback | include/qvcache/qvcache.h:1043-1073 | Returns the list of the first shard in LRU order that hits on its own, exactly when there is one. |
| SearchStrategies.SearchParallel | include/qvcache/qvcache.h:822-942 | Hits exactly if the merged (or only) list hits, returns that list, and names the shards to touch. |
| SearchStrategies.SearchAlone | include/qvcache/qvcache.h:678-695 | A single occupied shard answers with its own list. |
| SearchStrategies.HitMeans | include/qvcache/qvcache.h:612-645 | A list hits if and only if it has K results, K > 0, the cache holds K vectors, the first K tags are neither 0 nor the largest nor tombstoned, and the K-th distance exceeds a learned threshold by at most the deviation share of it. |
| SearchStrategies.SoleHit | include/qvcache/qvcache.h:986-1007 | When the only shard searched hits on its own, every merge of its list has the same distances and hits too, so the fast path changes no verdict. |
| SearchStrategies.FallbackCannotHit | include/qvcache/qvcache.h:1043-1073 | When every merged tag is live, no single shard can hit unless the merge does. |
| SearchStrategies.StrategiesAgree | include/qvcache/qvcache.h:822-1077 | With live tags both strategies give the same verdict and the same distances, for every cache state and threshold. |
| StrategyAgreement.CanBeListedIff | include/qvcache/qvcache.h:771-781 | A tag is no farther than the last entry of a full merge if and only if fewer than K tags are strictly nearer: what ties can bring into the list depends on the content only. |
| StrategyAgreement.VerdictIff | include/qvcache/qvcache.h:612-642 | A merge hits if and only if K tags are near enough, the cache holds K live vectors, and the merge lists live tags only. |
| StrategyAgreement.EveryMergeLiveIff | include/qvcache/qvcache.h:612-629 | Every merge lists live tags only if and only if every tag with fewer than K strictly nearer ones is live. |
| StrategyAgreement.SomeMergeLiveIff | include/qvcache/qvcache.h:612-629 | Some merge lists live tags only if and only if the tags every merge must list are live and K live tags can be listed. |
| StrategyAgreement.StrategiesAgreeIff | include/qvcache/qvcache.h:822-1077 | However ties are broken in the two merges, the verdicts agree if and only if nothing is in reach of the threshold, or every tag a merge can list is live, or neither a merge nor a single shard can list K live tags. |
| StrategyAgreement.TheseAgreeIff | include/qvcache/qvcache.h:822-1077 | For two given merges: the verdicts agree if and only if nothing is in reach, or PARALLEL's list is all live exactly when SEQUENTIAL's is or some shard holds K live tags near enough. |
| StrategyAgreement.RunBoth | include/qvcache/qvcache.h:822-1077 | Both strategies run on one cache: under that condition they give the same verdict and, on a hit, the same distances. |
| StrategyAgreement.StrategiesCanDiffer | include/qvcache/qvcache.h:612-629 | A concrete cache with a tombstoned id where PARALLEL misses for every merge and SEQUENTIAL hits. |
| StrategyAgreement.TiesCanDiffer | include/qvcache/qvcache.h:771-781 | A concrete cache with a tie between a live and a tombstoned tag: one merge hits, another misses, and no shard hits on its own, so PARALLEL can hit where SEQUENTIAL misses. |
| Tombstones.Reachable | include/qvcache/qvcache.h:574-629 | Tombstones, finished removes and the records of running clients are consistent in every reachable state of searches, inserts, removes, queued admissions and shard replacement. |
| Tombstones.RemoveGoesOn | include/qvcache/qvcache.h:1438-1464 | A remove that has set its tombstone goes on or finishes, whatever other threads do, until an insert of the id begins. |
| Tombstones.NoStaleHit | include/qvcache/qvcache.h:612-642 | A search begun after the remove of an id finished never returns that id as a hit unless an insert of it has begun since, whatever the shards hold. |
| Tombstones.CanBeShownIff | include/qvcache/qvcache.h:612-629 | From any consistent state and for an id that fits a tag, some run makes an idle client get the id as a hit if and only if its tag is neither 0 nor the largest: the two largest ids can never be shown. |
| Tombstones.InsertArrives | include/qvcache/qvcache.h:1418-1434 | An insert that runs through clears the tombstone and leaves the id in the backend and, with room, in the shard chosen. |
| Tombstones.RemoveClears | include/qvcache/qvcache.h:1446-1456 | When a remove turns to the backend, no shard holds its tag, unless the id was admitted to a shard since the remove began. |
| Tombstones.OthersAreKept | include/qvcache/qvcache.h:580-593 | Of the results of a miss, every id without a tombstone is admitted as often as it is listed, and none else. |
| Tombstones.StaleAdmissionHappens | include/qvcache/qvcache.h:574-604 | A removed id can be back in a shard: its admission was queued before the remove and ran after it. |
| LruCache.Lru.Access | include/qvcache/lru_cache.h:64-86 | The tag at any place k moves to the front and the others keep their order; a new one enters in front and pushes out the last when full; list and map stay in agreement. |
| LruCache.Lru.Evict | include/qvcache/lru_cache.h:94-110 | Removes and returns the n least recently used, oldest first. |
| LruCache.Lru.GetLruTags | include/qvcache/lru_cache.h:197-209 | The n least recently used, oldest first. |
| LruCache.WithoutDistinct | include/qvcache/lru_cache.h:68-72 | Taking a tag out of a duplicate-free order leaves a duplicate-free order one shorter. |
| LruCache.WithoutAt | include/qvcache/lru_cache.h:68-72 | Taking the tag at a place out of the order leaves what is before and behind that place. |
| Admission.ToFront | include/qvcache/lru_cache.h:64-72 | Moving a shard to the front keeps the order a permutation of all shards. |
| Admission.Cache.Reclaim | include/qvcache/qvcache.h:306-313 | Afterwards live and dead points together are fewer than the capacity if and only if the live ones are; live vectors are kept, and dead slots are freed only when the shard is full of live and dead points but not of live ones. |
| Admission.Cache.FindShardWithCapacity | include/qvcache/qvcache.h:368-382 | The first shard with the fewest live vectors among those whose live and dead points together are fewer than the capacity, or none exactly when there is none. |
| Admission.Cache.PerformEviction | include/qvcache/qvcache.h:210-252 | With two or more shards the least recently used one is emptied, becomes active and moves to the front; with one nothing changes. |
| Admission.Cache.AddMissing | include/qvcache/qvcache.h:244-249 | Shards missing from the LRU order enter it in front, without pushing any out; a complete order is left alone. |
| Admission.Cache.EnsureAdmitShard | include/qvcache/qvcache.h:416-442 | In the shard returned, live and dead points together are fewer than the capacity if and only if the capacity is positive and there are two shards or the only one is not full of live vectors. The LRU order stays a permutation of all shards; vectors are dropped only when every shard is full of live ones, and then those of the least recently used. |
| Admission.Cache.Touch | include/qvcache/qvcache.h:933-935 | After a hit the contributing shards have been accessed one after the other; the order is still a permutation of all shards. |
| Admission.TouchedOrder | include/qvcache/qvcache.h:931-935 | The contributing shards end up in front, the most contributing one first, and the others keep their order. |
| Regions.OneByOneIsAllAtOnce | include/qvcache/pca_utils.h:294-311 | Tightening different regions one after the other is the same as tightening the set at once. |
| Regions.CountIsExact | include/qvcache/pca_utils.h:294-311 | The sum of the results is the number of regions that were stored, learned and not yet discounted. |
| Regions.InitAdds | include/qvcache/pca_utils.h:350-366 | Below the limit, a new region is added at the end of the order with four unset thresholds, and nothing else changes. |
| Regions.InitMakesRoom | include/qvcache/pca_utils.h:350-366 | At the limit, the region inserted first leaves all three maps before the new one is added, and no other does. |
| Regions.TightenMeans | include/qvcache/pca_utils.h:294-311 | A region is scaled if and only if it has a live threshold and no discount at or below alpha; then each live threshold v becomes alpha * v, unset ones and other regions stay, and the discount is alpha. |
| Regions.LearnMeans | include/qvcache/pca_utils.h:387-399 | An unset threshold becomes the distance; any other moves the share p of the way to it; the rest of a known region stays. |
| ThresholdRuns.ThresholdsStayBelowWhatWasLearned | include/qvcache/pca_utils.h:294-399 | Over any run of reads, misses and writes, a live threshold is non-negative and never exceeds the largest K-th distance learned for its region and K; an unseeded K reads 0. |
| ThresholdRuns.LargestIsLearned | include/qvcache/pca_utils.h:387-399 | The bound used there is a distance that was learned for that region and K, or 0, and no smaller than any of them. |
| ThresholdRuns.FirstIsTaken | include/qvcache/pca_utils.h:387-399 | After any run, the first distance learned for an unset threshold becomes it. |
| ThresholdRuns.GapShrinks | include/qvcache/pca_utils.h:387-399 | After any run, while a region is neither evicted nor reached by a write, n misses at one distance d shrink the gap between its threshold and d by the factor (1 - p)^n, whatever reads and misses of other regions and other K lie in between. |
| ThresholdRuns.ScaledAtMostOnce | include/qvcache/pca_utils.h:299-311 | Between two times a region is learned it is scaled at most once, and once scaled it is left alone by every further write. |
| ThresholdRuns.RunOrder | include/qvcache/pca_utils.h:350-366 | Over any run the insertion order lists exactly the stored regions, each once, and their number stays within the limit (a limit of 0 acts as 1). |
| L1Ball.VisitsTheBall | include/qvcache/pca_utils.h:314-333 | The walk visits a code exactly when it lies in the box and within the radius. |
| L1Ball.VisitsOnce | include/qvcache/pca_utils.h:314-333 | No code is visited twice. |
| L1Ball.ExactIff | include/qvcache/pca_utils.h:319-328 | With codes stored in bytes, the walk looks up each code of the ball once and no other if and only if no code needs more than a byte (always so with at most 256 buckets). |
| Thresholds.PcaUtils.Init | include/qvcache/pca_utils.h:350-366 | A new region is seeded for K = 1, 5, 10, 100, after the oldest one made room at the limit. |
| Thresholds.PcaUtils.IsHit | include/qvcache/pca_utils.h:368-385 | A hit if and only if there are K > 0 results and the K-th distance exceeds the threshold found for the region and K before the call (0 for an unseeded K; unset never hits) by at most the deviation share of it; and the state it leaves. |
| Thresholds.PcaUtils.UpdateTheta | include/qvcache/pca_utils.h:387-399 | An unset threshold becomes the distance d; any other v changes by p * (d - v); the other thresholds of a known region stay; the discount is cleared. |
| Thresholds.PcaUtils.TightenRegion | include/qvcache/pca_utils.h:294-311 | Multiplies each live threshold of one learned region not yet discounted that far by alpha, exactly if it returns 1; otherwise nothing changes; no other region changes. |
| Thresholds.PcaUtils.TightenBall | include/qvcache/pca_utils.h:314-333 | The recursion over the scratch key does what tightening the visited codes one by one does, counts it, and restores the key. |
| Thresholds.PcaUtils.TightenAround | include/qvcache/pca_utils.h:338-348 | A write scales exactly the learned, undiscounted regions of the ball and returns their number; a discount outside (0, 1) or a null vector does nothing. |
| Vectors.NormExpansion | backends/Greator/src/math_utils.cpp:77-90 | The matrix entry, the two squared norms minus twice the inner product, is the squared distance. |
| Vectors.DistZeroIff | backends/Greator/src/math_utils.cpp:12-18 | The squared distance is non-negative, and 0 only between equal points. |
| Vectors.DistCoordinate | backends/Greator/src/math_utils.cpp:12-18 | Changing one coordinate changes the squared distance by the change of that coordinate's square: every coordinate counts, each once. |
| Vectors.SumIgnoresOrder | backends/Greator/src/math_utils.cpp:186-190 | The sum of a cluster does not depend on the order in which its points were pushed. |
| Clusters.MembersAre | backends/Greator/src/math_utils.cpp:186-190 | The members of a cluster are exactly the points assigned to it, in ascending order. |
| Clusters.CenterMeans | backends/Greator/src/math_utils.cpp:249-270 | A centre times the size of its cluster is the cluster's sum, coordinate by coordinate; it is 0 for an empty cluster. |
| Clusters.MeanIsBest | backends/Greator/src/math_utils.cpp:256-270 | No point has a smaller total squared distance to a cluster than its mean. |
| Clusters.MeansAreBest | backends/Greator/src/math_utils.cpp:251-271 | Replacing all centres by the means, empty clusters by the origin, never raises the residual. |
| Clusters.RoundImproves | backends/Greator/src/math_utils.cpp:231-294 | The residual of a round is at most that of any assignment to the centres it started from. |
| Clusters.ResidualZeroIff | backends/Greator/src/math_utils.cpp:273-291 | The residual is 0 if and only if every point lies on its centre. |
| Lloyd.CalcDistance | backends/Greator/src/math_utils.cpp:12-18 | The loop computes the squared distance. |
| Lloyd.VecsL2Sq | backends/Greator/src/math_utils.cpp:23-30 | The squared norm of every point. |
| Lloyd.NearestCenter | backends/Greator/src/math_utils.cpp:95-103 | The scan of a matrix row finds the first of the nearest centres. |
| Lloyd.ClosestInBlock | backends/Greator/src/math_utils.cpp:58-103 | For k = 1, every point of the block gets its first nearest centre. |
| Lloyd.ClosestCenters | backends/Greator/src/math_utils.cpp:134-196 | Block by block, every point of the data gets its first nearest centre, and every centre's list holds exactly its points. |
| Lloyd.ListsAreClusters | backends/Greator/src/math_utils.cpp:186-190 | Each centre's list names every point assigned to it once, and no other. |
| Lloyd.MoveCenters | backends/Greator/src/math_utils.cpp:251-271 | Every centre becomes the mean of its points; a centre with an empty list becomes the origin. |
| Lloyd.TotalResidual | backends/Greator/src/math_utils.cpp:273-291 | The chunk sums add up to the residual. |
| Lloyd.LloydsIter | backends/Greator/src/math_utils.cpp:231-294 | A round: nearest old centres, means, and their residual. |
| Lloyd.NextRoundIsNoWorse | backends/Greator/src/math_utils.cpp:318-340 | Of two consecutive rounds the second has no larger residual. |
| Lloyd.Converged | backends/Greator/src/math_utils.cpp:332-340 | The stopping test: the residual is below FLT_EPSILON, or, after the first round, it fell by less than a hundred-thousandth of what is left. |
| Lloyd.RunLloyds | backends/Greator/src/math_utils.cpp:303-347 | The residuals never increase from round to round; the last is at most the cost of the best assignment to the given centres; it runs all rounds or stops at the first that is not worthwhile. |
| ShardMerge.RecordsInOrder | backends/Greator/src/aux_utils.cpp:343-358 | The sorted node map names each shard's nodes in the order of that shard's id map. |
| ShardMerge.RightNode | backends/Greator/src/aux_utils.cpp:444-448 | The record a reader is at when the t-th pair is handled belongs to the node of that pair. |
| ShardMerge.InverseMap | backends/Greator/src/aux_utils.cpp:343-358 | Building and sorting the node map establishes that order. |
| ShardMerge.GatheredIsNeighbor | backends/Greator/src/aux_utils.cpp:444-457 | Whatever has been gathered for a node is a neighbour of it in some shard. |
| ShardMerge.NeighborIsGathered | backends/Greator/src/aux_utils.cpp:423-457 | When a node's pairs are done, all its neighbours in all shards have been gathered. |
| ShardMerge.NextNode | backends/Greator/src/aux_utils.cpp:424-440 | No node is skipped, so records are written in node order without gaps. |
| ShardMerge.Append | backends/Greator/src/aux_utils.cpp:450-456 | The renaming loop appends exactly the new neighbours, without repeats, and keeps nhood_set in step. |
| ShardMerge.NextList | backends/Greator/src/aux_utils.cpp:427-442 | A finished list is shuffled and cut, and the next node starts with a clear nhood_set and an empty list. |
| ShardMerge.Take | backends/Greator/src/aux_utils.cpp:444-457 | One record is read for the right node and merged into its list. |
| ShardMerge.Stream | backends/Greator/src/aux_utils.cpp:418-468 | The streaming loop emits every node's list and counts its bytes. |
| ShardMerge.SizePatched | backends/Greator/src/aux_utils.cpp:470-473 | Writing the size over the first eight bytes completes a header whose size is the length of the file. |
| ShardMerge.LongMeans | backends/Greator/src/aux_utils.cpp:470-473 | The two words of the size are its low and high halves modulo 2^64. |
| ShardMerge.MergeShards | backends/Greator/src/aux_utils.cpp:315-476 | The output is a header with the exact file size, the width and the last shard's renamed medoid, then for every node the duplicate-free union of its renamed neighbours in some order, cut to max_degree; the medoids file lists every shard's medoid. |
| ShardMerge.MergedMeans | backends/Greator/src/aux_utils.cpp:423-457 | A merged list names no node twice and only nodes that some shard links the node to, through its id map; unless it is cut at max_degree it names all of them. |
| ExactTopK.LiveVectors.AddExtra | benchmarks/pgvector/refresh_common.h:90-94 | Any new id becomes live with its vector unless it was deleted before or belongs to the base, which keeps its own; no other id changes; the extra ids stay in order if and only if the new one comes last. |
| ExactTopK.LiveVectors.MarkDeleted | benchmarks/pgvector/refresh_common.h:96-98 | The id is no longer live; no other id changes. |
| ExactTopK.PackLive | benchmarks/pgvector/refresh_common.h:124-146 | Lists exactly the live ids, each with its vector, in ascending order if the extra ids are. |
| ExactTopK.Rejected | benchmarks/pgvector/refresh_common.h:168-178 | Comparing distances only is enough: among equal distances the buffered ids are smaller. |
| ExactTopK.Replaced | benchmarks/pgvector/refresh_common.h:175-178 | Replacing the last entry by a nearer candidate and sorting keeps the K least. |
| ExactTopK.NearestOf | benchmarks/pgvector/refresh_common.h:163-179 | The bounded buffer holds the K least candidates in order, or, below K, all of them in id order; for ids in any order it still holds, once full, K candidates by distance with none nearer left out. |
| ExactTopK.SortedIff | benchmarks/pgvector/refresh_common.h:163-179 | The answer is sorted by neighbor_less if and only if there are at least K candidates or their distances already ascend in id order. |
| ExactTopK.UnsortedAnswer | benchmarks/pgvector/refresh_common.h:168-178 | A run with two live vectors and K = 3 whose answer has the farther one first. |
| ExactTopK.ComputeExactGt | benchmarks/pgvector/refresh_common.h:149-189 | For each query: with at least K live vectors, the K least in (distance, id) order; with fewer, all live vectors in id order. For extra ids in any order: only live vectors, by distance once there are K, and none nearer left out. |
| WordFiles.FileRoundTrip | benchmarks/pgvector/refresh_common.h:202-223 | Words written little-endian read back unchanged. |
| WordFiles.LittleEndian | benchmarks/pgvector/refresh_common.h:202-223 | The four bytes of a word are its base-256 digits, lowest first. |
| Truthset.Save | benchmarks/pgvector/refresh_common.h:193-224 | Reading the file back as words gives the two counts, then for list q and place j < K the id of entry j, or 0 behind the end of the list, at 2 + q*K + j, and its distance as far behind as there are ids; a K of 2^31 or more throws. |
| Truthset.WordsAreSaved | benchmarks/pgvector/refresh_common.h:193-224 | The words to be written hold every entry of every list at its place. |
| Truthset.Load | benchmarks/pgvector/refresh_common.h:231-291 | Accepted exactly if it holds whole at least n_eval lists of at least K entries; then entry j of list q is the one at its place in the file. |
| Truthset.SizeTestExactIff | benchmarks/pgvector/refresh_common.h:252-256 | The 64-bit size test tells whole files from short ones if and only if the true size is below 2^63. |
| Truthset.HeaderPassesSizeTest | benchmarks/pgvector/refresh_common.h:252-256 | An eight-byte file announcing 2^30 lists of 2^30 passes the size test; only the reads refuse it. |
| Truthset.SavedCanBeLoaded | benchmarks/pgvector/refresh_common.h:193-291 | A saved truthset is accepted for n_eval and K' no larger than saved, and list q comes back as its first K' entries themselves, with zero entries behind its end, and as nothing else. |
| Truthset.TruncatedIsRejected | benchmarks/pgvector/refresh_common.h:231-258 | No proper prefix of a saved file is accepted. |

## Left out

- VamanaIndex.Index.Reserve: covers insert_point only as far as the registration of tag and vector; linking the new point into the graph (prune_neighbors, inter_insert), growing the index and re-inserting a registered tag are not part of this model.
- VamanaIndex.Index.Consolidate: takes |_delete_set| <= _nd from the assertion at copy_index.cpp:1913, without which the unsigned count would wrap.
- VamanaIndex.Index.ConsolidateDeletes: the blocks that OpenMP schedules are one sequence of slots in an arbitrary order; that no two threads race follows from the lists each one reads and writes (Consolidation.CandidatesAreLocal), not from a model of threads.
- GreedySearch.IterateToFixedPoint: requires L >= 1; the code reads before the first list element when L is 0.
- Lloyd.RunLloyds: takes at least one point and one centre, as the block size would otherwise be 0 or no centre could be assigned; a row of a row-major matrix is one element; k = 1 only.
- ShardMerge.MergeShards: takes well-formed files, at least one shard, ascending id maps and a shard for every node; it does not model the exception for a file that ends early. Words are unbounded numbers except in the 64-bit size.
- Thresholds.PcaUtils.IsHit: the region of a query is a parameter, because the PCA projection is floating-point; lazy_init_region and the read are one step, so an eviction by another thread between the two locks is not modelled.
- Thresholds.PcaUtils.TightenAround: the exact count is stated when no code of the ball needs more than a byte; L1Ball.ExactIff shows that it cannot be stated otherwise.
- ThresholdRuns.ThresholdsStayBelowWhatWasLearned: for non-negative distances, a fixed discount in (0, 1) and a moving-average weight in [0, 1]; scaling a negative inner-product threshold would loosen it.
- Admission.Cache.EnsureAdmitShard: for an idle insert pool and no eviction in progress; DiskANN's memory index is known by its counts of live and lazily deleted points.
- SearchStrategies.SearchSequential: the state of the cache is fixed while a query is answered, and search_with_tags is known by its contract (at most K results, distinct tags, ascending distances).
- Tombstones.NoStaleHit: shards are sets of tags; which of them a search finds is arbitrary.
- InsertPool.WaitIdleMeansDone: a worker's wait on its condition variable is a guarded step; InsertPool.LostIff says when it may not return.
- Truthset.Save: the path, opening the file and I/O errors; an unopened or missing file is outside the model.
- ExactTopK.ComputeExactGt: the (distance, id) order of the answer is stated for extra ids in the ascending order in which synthesize_extra makes them.
- DiskANN's memory index, PQFlashIndex, the Aker cache, PostgreSQL, Python and NumPy bindings, BLAS beyond its contract (an exact matrix product), AIO, mmap and logging.
- Floating-point rounding, SIMD kernels and weak memory orders.
- invalidate_theta, admit_miss_neighbors, make_room_for_admit, evict_oldest_points, trigger_eviction and evict_one_shard_sync, which no live search path calls, and eager delete.
- The global (not regional) threshold map of isHit, which is the regional one with a single region.
- create_disk_layout, the vector pointers of merged results, k-means++ seeding, recall figures, workload generators and plotting.
