# Gorgeous in Dafny

A model of the core of Gorgeous, a disk-based vector search system, and proofs about it. The files
follow the system's own components:

- **Hash tables.** `RobinTable` and `RobinHash` model the robin-hood table, `SparseArray`,
  `SparseTable` and `SparseHash` the sparse one, with `Bits`, `GrowthPolicy`, `TriangularProbe`,
  `PopcountFallback` and `HashLoad` below them. `MapSpec` says what clients expect of both: the answers
  of a finite map, and a refusal exactly where a table would have to outgrow its limit.
- **Candidate pools and the graph.** `NeighborPool` and `NeighborVec` model the sorted pools,
  `BeamSearch` the in-memory search to a fixed point, `Prune` the occlusion rule, and `GraphLists` the
  adjacency lists that insertion and deletion write.
- **The dynamic index.** `NaturalNumbers`, `SlotState`, `Compaction` and `DynamicIndex` model points
  that come and go under tags, the critical sections of concurrent threads, consolidation and
  compaction.
- **Searches on disk.** `IoPipeline` models the asynchronous reads and their rings of buffers,
  `DiskPool` the candidate list, `DupGraphSearch` and `Refine` the search over replicated adjacency
  lists from the first read to the answer, with two of its runs in `DupGraphRuns`; `PageSearch` and
  `PageRefine` model the search over pages of several nodes.
- **Partitioning.** `Placement` models the page counts and the first placement, `Pages` and `LdgRound`
  the streaming rounds that several threads run at once, with the choice of pages in `LdgChoice`.
- **Threads.** `ThreadPool` models `runTask` and the loop that shares out the queries.
- **Building.** `MergeShards`, `PqChunks` and `PqTable` model the merge of graph shards and the tables
  of product quantisation.

Objects that the system updates in place are classes here, loops are loops. Threads and the completion
of reads are state machines: a run is any interleaving of their steps. Distances and load factors are
real numbers.

## Findings

Where the system does not do what one would expect, the model follows the code. Each line names the
member that states the exact condition and, where it is another one, the member with an input that
fails it.

- Enabling deletion lists the free slots once more, even if one is listed already. It is, when the last
  insertion before was refused because its tag was taken: consolidation then fails its count check
  (src/index.cpp:2000-2003 and 2712-2714). Condition: `DynamicIndex.RunFromStart`, input:
  `DynamicIndex.RepeatedTag`.
- `NeighborVec::insert` raises the size even when the entry was there and nothing was inserted, unless
  the vector is full. Condition: `NeighborVec.NeighborVec.Insert`, input: `NeighborVec.InsertTwice`.
- `InsertIntoPool` with a second vector drops an entry that belongs behind a full pool, although the
  second vector may have room. Condition: `NeighborVec.KickedKeepsIff`, input:
  `NeighborVec.KickedLosesEntry`.
- `page_search` with a beam of one and a positive `io_limit` loops for ever, since no number of waiting
  pages is less than `1 / 2` (src/gorgeous/index_search.cpp:291). Condition: `PageSearch.Search.Traverse`
  (ends for a beam of two or more), input: `PageSearch.NeverBegins`.
- `page_search` accepts a beam of up to 1024, but one of more than 410 can reuse the buffer of a page
  that is still waiting, and so can `page_search_dup_graph`. Condition: `IoPipeline.RoomIff`; the run
  that fails is built in its proof.
- With a beam of more than 512 the queue of nodes with known lists in `page_search_dup_graph` can
  overflow. Condition: `DupGraphSearch.QueueIff`, input: `DupGraphRuns.QueueFills`.
- `page_search_dup_graph` keeps using replicas in a buffer after the buffer has been issued again, 1024
  reads later, and then expands a node with the list of another. Condition:
  `DupGraphSearch.Search.Traverse` (every list is the node's own for every search if `io_limit <= 1025`),
  input for every larger `io_limit`: `DupGraphRuns.StaleRun`.
- `page_search` can note a node twice in its refine phase, and its results can then name a node twice,
  since only neighbours in the sorted order are compared. Condition: `PageRefine.NotedTwiceIff` and
  `PageRefine.RepeatsIff`, input: `PageRefine.TiedRefine`.
- The refine phase of `page_search` passes over an entry whose page was read in the traversal, although the
  entry itself was passed over then and has no exact distance. Condition: `PageRefine.EntryNoted`, input:
  `PageRefine.PassedOver`.
- `consolidate_deletes` reports a count error instead of a lock failure while another consolidation
  holds deleted points. Condition: `DynamicIndex.Index.ConsolidateDeletes`, input:
  `DynamicIndex.SecondConsolidation`.
- A scale factor above the page capacity asks for more primary pages than there are nodes. Condition:
  `Placement.PrimaryFits`.
- The sparse table can be refused its growth by the insertion of a key that it holds, the robin table
  cannot: `SparseHash.SparseHash.Insert`, `RobinHash.RobinHash.Insert`.

## Model

| member | source | states |
|---|---|---|
| `Bits.AndMask` | include/tsl/robin_growth_policy.h:111-113 | masking a hash with `2^k - 1` is reducing it modulo `2^k` |
| `Bits.PowerOfTwoTest` | include/tsl/robin_growth_policy.h:160-162 | `(v & (v - 1)) == 0` holds exactly for the powers of two |
| `GrowthPolicy.HomeIsRemainder` | include/tsl/robin_growth_policy.h:111-113 | the home bucket is the hash modulo the bucket count, and lies inside the table |
| `GrowthPolicy.RoundUpToPowerOfTwo` | include/tsl/robin_growth_policy.h:143-158 | the bit-smearing loop returns the least power of two not below its argument, for every argument the policy lets through |
| `GrowthPolicy.Doubling` | include/tsl/robin_growth_policy.h:118-124 | a bucket count the policy grants is twice the old one, a power of two, and within the limit |
| `RobinTable.EarlyStop` | include/tsl/robin_hash.h:1055-1071 | a probe that meets a bucket poorer than itself has passed every bucket its key can be in: why `find` may stop there |
| `RobinTable.Swap` | include/tsl/robin_hash.h:1157-1179 | exchanging a carried entry with the one in a bucket takes the latter's key out of the table and puts the former's in, and changes nothing else |
| `RobinTable.ShiftBack` | include/tsl/robin_hash.h:1083-1096 | moving the next entry back into the hole keeps the same keys with the same values, each at its recorded distance from home |
| `RobinHash.StampDecidesHome` | include/tsl/robin_hash.h:369-381 | the stored 32-bit hash gives the same home bucket as the full one as long as the mask fits 32 bits: why a rehash may use it |
| `RobinHash.RobinHash.constructor` | include/tsl/robin_hash.h:485-520 | a new table is empty and has at least the buckets asked for |
| `RobinHash.RobinHash.Find` | include/tsl/robin_hash.h:1055-1071 | a position is found if and only if the key is in the table, and the value there is the one stored for it |
| `RobinHash.RobinHash.InsertValue` | include/tsl/robin_hash.h:1154-1181 | the chain of displacements ends in an empty bucket; the table then holds just the old keys and the new one, in probing order again; growth is asked for exactly if an entry carried for 128 buckets or more took a full bucket of a table loaded to 0.15 or more |
| `RobinHash.RobinHash.RehashImpl` | include/tsl/robin_hash.h:1184-1222 | a rehash keeps every key with its value, in a table of at least the count asked for |
| `RobinHash.RobinHash.GrowOnHighLoad` | include/tsl/robin_hash.h:1229-1238 | the table doubles exactly when a long probe calls for it or the elements have reached the load factor's share of the buckets, rounded down; it is refused exactly at the policy's limit, and afterwards has an empty bucket to spare |
| `RobinHash.RobinHash.Insert` | include/tsl/robin_hash.h:1100-1145 | inserts exactly an absent key, leaves a present one alone, and fails only for an absent key in a table that must grow beyond the limit |
| `RobinHash.RobinHash.InsertOrAssign` | include/tsl/robin_hash.h:693-700 | the key has the new value afterwards whether or not it was there; the answer tells which |
| `RobinHash.RobinHash.EraseFromBucket` | include/tsl/robin_hash.h:1073-1097 | the backward shift removes the one key and keeps every other reachable |
| `RobinHash.RobinHash.Erase` | include/tsl/robin_hash.h:826-836 | removes the key and reports 1 if it was there, 0 otherwise |
| `RobinHash.RobinHash.Clear` | include/tsl/robin_hash.h:646-653 | the table is empty and no growth is pending |
| `RobinHash.RobinHash.SetMaxLoadFactor` | include/tsl/robin_hash.h:981-984 | the load factor is clamped to 0.1 .. 0.95, and the content stays |
| `RobinHash.RobinHash.Rehash` | include/tsl/robin_hash.h:986-989 | fails exactly when the count, or the one the elements need at their load factor, exceeds the limit; otherwise the table has at least both |
| `RobinHash.Serve` | include/tsl/robin_hash.h:646-836 | one operation of any kind is one step of a finite map with refusals |
| `RobinHash.Run` | include/tsl/robin_hash.h:485-1238 | over any sequence of inserts, assignments, erasures, lookups, clears, rehashes and load-factor changes, with any hash function, the answers are those of a finite map; the bucket count doubles exactly after a long probe or once one element more exceeds the load factor times the buckets, and a refusal comes exactly where it cannot double |
| `MapSpec.SmallIsNeverRefused` | include/tsl/sparse_growth_policy.h:83-89 | over any run of a table that grows by its size alone, no insertion is refused while the map with the new key has at most `0.1 * 2^62` keys |
| `TriangularProbe.EveryBucketVisited` | include/tsl/sparse_hash.h:1773-1781 | the first `n` probes with triangular steps visit all `n` buckets, `n` being a power of two |
| `TriangularProbe.Mirror` | include/tsl/sparse_hash.h:1773-1781 | the next `n` probes go back over the same buckets in reverse |
| `PopcountFallback.FallbackPopcount` | include/tsl/sparse_hash.h:75-91 | the parallel bit count with its wrapping multiplication returns the number of ones, for every 64-bit word |
| `SparseArray.RankIsCount` | include/tsl/sparse_hash.h:704-708 | the masked population count is the number of occupied buckets before the index |
| `SparseArray.OffsetToIndex` | include/tsl/sparse_hash.h:711-732 | the walk over the bitmap finds the one index that has the given offset: the inverse of `index_to_offset` |
| `SparseArray.SetSlots` | include/tsl/sparse_hash.h:531-547 | `set` fills the one bucket and changes no other, although the values after it move |
| `SparseArray.EraseSlots` | include/tsl/sparse_hash.h:556-573 | `erase` leaves a tombstone in the one bucket and changes no other |
| `SparseArray.SparseBuffer.Set` | include/tsl/sparse_hash.h:531-547 | the array that shifts in place, or moves to a larger block when full, does what `set` does on values |
| `SparseArray.SparseBuffer.Erase` | include/tsl/sparse_hash.h:556-573 | the same for `erase` |
| `SparseTable.LookupFails` | include/tsl/sparse_hash.h:1952-1977 | a lookup may give up after `n` probes or at a bucket never used: the key is then nowhere |
| `SparseHash.SparseHash.Find` | include/tsl/sparse_hash.h:1952-1977 | a position is found if and only if the key is in the table, tombstones notwithstanding, and its value is the one stored |
| `SparseHash.SparseHash.Erase` | include/tsl/sparse_hash.h:1914-1943 | removes the key, reports whether it was there, and leaves one tombstone more if it was |
| `SparseHash.SparseHash.ProbeForInsert` | include/tsl/sparse_hash.h:1852-1896 | the probe finds the key if it is there, else the first tombstone it met or the bucket where it ended, which lies on the key's path |
| `SparseHash.SparseHash.MakeRoom` | include/tsl/sparse_hash.h:1836-1841 | growth exactly at the load limit, tombstones cleared exactly when they and the values reach half way from the load factor to full; there is room for one more afterwards, the content is the same, and otherwise nothing changes |
| `SparseHash.SparseHash.RehashImpl` | include/tsl/sparse_hash.h:1989-2056 | a rehash keeps every key with its value and drops all tombstones |
| `SparseHash.SparseHash.Insert` | include/tsl/sparse_hash.h:1834-1911 | inserts exactly an absent key; unlike the robin table it can be refused its growth even for a key it holds |
| `SparseHash.SparseHash.InsertOrAssign` | include/tsl/sparse_hash.h:1437-1445 | the key has the new value afterwards unless the growth was refused |
| `SparseHash.SparseHash.Clear` | include/tsl/sparse_hash.h:1392-1399 | no values and no tombstones are left |
| `SparseHash.SparseHash.Rehash` | include/tsl/sparse_hash.h:1711-1715 | fails exactly when a count beyond the limit is needed; otherwise the tombstones are gone |
| `SparseHash.Serve` | include/tsl/sparse_hash.h:1392-1977 | one operation of any kind is one step of a finite map with refusals |
| `SparseHash.Run` | include/tsl/sparse_hash.h:1154-2056 | over any sequence of operations, with any hash function, the answers are those of a finite map; the bucket count doubles exactly once one element more exceeds the load factor times the buckets, and a refusal comes exactly where it cannot double |
| `SparseHash.NotRefused` | include/tsl/sparse_hash.h:1834-1841 | over any run, an insertion is refused only if the map with the new key has more than `0.1 * 2^62` keys |
| `NeighborPool.FindPlace` | include/neighbor.h:70-98 | the binary search returns a place that keeps the order, `K + 1` only when the id is there, and never misses an entry with the same id and distance |
| `NeighborPool.InsertIntoPool` | include/neighbor.h:67-102 | a sorted pool stays sorted with the new entry in it, or is untouched when the entry is there already |
| `NeighborVec.NeighborVec.SetCap` | include/neighbor.h:110-114 | the first entries that fit the new capacity are kept |
| `NeighborVec.NeighborVec.Insert` | include/neighbor.h:116-125 | keeps the closest entries in order if and only if the id is new or the vector is full (see Findings) |
| `NeighborVec.NeighborVec.MoveTo` | include/neighbor.h:127-142 | moves exactly the first entries to their place in the destination and keeps the rest in order, or moves none when they do not fit |
| `NeighborVec.InsertOrKick` | include/neighbor.h:148-184 | inserts as the plain overload does, and hands the entry pushed out of a full pool to the second vector |
| `NeighborVec.KickedKeepsIff` | include/neighbor.h:148-184 | pool and vector together stay the closest of all met if and only if the new entry is not beyond the pool, or is beyond a full vector too |
| `NeighborVec.InsertTwice` | include/neighbor.h:116-125 | the input for which `insert` goes wrong: the same entry twice with room left |
| `NeighborVec.KickedLosesEntry` | include/neighbor.h:148-158 | the input for which an entry is lost: one beyond a full pool, the vector being empty |
| `BeamSearch.InsertWhenFull` | src/index.cpp:980-986 | a full pool that takes in a closer location and drops its worst is again the `L` closest of all met |
| `BeamSearch.Expand` | src/index.cpp:949-990 | expanding an entry meets all its out-neighbours, once each, and moves the cursor back to the closest entry that is new |
| `BeamSearch.IterateToFixedPoint` | src/index.cpp:867-1000 | the search ends; its pool is the `L` closest of all met locations, every entry of it has been expanded, everything met can be reached from the seeds and was met from a location reported, and the comparisons are counted exactly; an id out of range is reported |
| `BeamSearch.UnfilledSearchIsExact` | src/index.cpp:867-1000 | a search whose pool did not fill up has found exactly the locations that can be reached from its seeds |
| `Prune.OccludeList` | src/index.cpp:1044-1096 | the result follows the occlusion rule exactly: in each round the first candidate is chosen that no earlier choice occludes beyond the round's alpha, for all three metrics, until the quota is met or alpha is passed |
| `Prune.GreedyUnique` | src/index.cpp:1044-1096 | the rule leaves no freedom: pool and parameters determine the choices |
| `Prune.NearestFirst` | src/index.cpp:1056-1096 | the nearest candidate is chosen first, in the first round; nothing is chosen exactly for an empty pool, range 0 or alpha below 1 |
| `Prune.ChosenApart` | src/index.cpp:1064-1092 | a chosen candidate is at most its round's alpha, itself at most alpha, times as far from the location as from any candidate before it that was chosen earlier |
| `Prune.LateChoice` | src/index.cpp:1060-1096 | a candidate chosen in a later round was occluded beyond the alpha of the round before |
| `Prune.RejectedOccluded` | src/index.cpp:1060-1096 | unless the quota is met, a rejected candidate is occluded beyond every alpha tried |
| `Prune.PruneNeighbors` | src/index.cpp:1107-1147 | the list is the occlusion result without the location itself, filled up to the range in order of distance when saturation is asked for; an empty pool is refused |
| `Prune.PrunedUnique` | src/index.cpp:1107-1147 | a sorted pool has only one pruned list |
| `Prune.PrunedFacts` | src/index.cpp:1107-1147 | a pruned list has no repetition, is within the range, avoids the location, and begins with the nearest candidate |
| `Prune.PrunedSaturated` | src/index.cpp:1131-1144 | a list is filled up if and only if saturation is asked for and alpha is above one: then the choices begin it, and it is full or no candidate is missing |
| `GraphLists.RepairedList` | src/index.cpp:2208-2254 | a list that led to a deleted point is replaced by the pruned result of its remaining neighbours and those of the deleted ones; another is kept |
| `GraphLists.RepairIsLocal` | src/index.cpp:2327-2344 | a repair depends only on the list itself and the deleted points' lists, so repairs in any order or in parallel give the same graph |
| `GraphLists.RepairsKeep` | src/index.cpp:2327-2344 | after all repairs no edge leads to a deleted point, and degrees stay within the bound |
| `GraphLists.LinkBack` | src/index.cpp:1192-1263 | a back link is appended while there is slack, otherwise the list is pruned again with the new point as a candidate |
| `GraphLists.LinkedBackOk` | src/index.cpp:1192-1263 | back links keep the lists inside the graph and never beyond the slack |
| `NaturalNumbers.NaturalSet.Insert` | src/natural_number_set.cpp:27-34 | adds the id; a second insertion breaks the set, and only that does |
| `NaturalNumbers.NaturalSet.PopAny` | src/natural_number_set.cpp:37-49 | takes the id inserted last out of the set |
| `NaturalNumbers.NaturalMap.Set` | src/natural_number_map.cpp:29-41 | the bitmap with its growing vector is a map in which the key now has the value |
| `NaturalNumbers.NaturalMap.Erase` | src/natural_number_map.cpp:44-52 | the key is gone and the count still is the number of keys |
| `NaturalNumbers.NaturalMap.Enumerate` | src/natural_number_map.cpp:71-84 | the positions meet every key once, in ascending order |
| `SlotState.StepKeeps` | src/index.cpp:2529-2584 | every critical section, of whatever thread, keeps each slot in exactly one of: empty, live, deleted, being released |
| `SlotState.RunKeeps` | src/index.cpp:2529-2584 | so does any interleaving of them |
| `SlotState.NoEarlyReuse` | src/index.cpp:2567-2584 | over any interleaving, a deleted slot that is live later has been released in between |
| `SlotState.RefusedIff` | src/index.cpp:2670-2716 | an insertion is refused exactly for a tag in use or when live and unreleased points fill the index |
| `SlotState.CountsAgreeIff` | src/index.cpp:2270-2294 | which of the counts consolidation checks can be off, and exactly when |
| `Compaction.RankOnto` | src/index.cpp:2425-2438 | the new locations are taken without gaps |
| `Compaction.CompactedIsomorphic` | src/index.cpp:2460-2498 | the adjacency lists after compaction are those before under the new names, in the same order: the graphs are isomorphic |
| `Compaction.EdgesMoved` | src/index.cpp:2464-2477 | an edge is there after compaction exactly if it was before |
| `Compaction.MoveLists` | src/index.cpp:2460-2498 | the pass that moves lists and vectors in place overwrites nothing it still needs |
| `Compaction.CompactedSlots` | src/index.cpp:2502-2520 | the rebuilt tag maps and empty slots put every slot in exactly one class, the live ones first |
| `DynamicIndex.Index.constructor` | src/index.cpp:217-283 | a new index has the parameters, the distance and the frozen start given, no points and no edges, room for at least one point, and is not consolidating |
| `DynamicIndex.Index.ReserveLocation` | src/index.cpp:2529-2552 | a free slot is handed out unless the index is full |
| `DynamicIndex.Index.EnableDelete` | src/index.cpp:1990-2014 | lists the free slots; deletion is enabled properly if and only if none was listed before (see Findings) |
| `DynamicIndex.Index.LazyDelete` | src/index.cpp:2819-2844 | takes the tag away and marks its slot deleted, or reports that there is no such tag |
| `DynamicIndex.Index.RunSections` | src/index.cpp:2529-2844 | any interleaving of critical sections of inserting, deleting and consolidating threads is a run of the slot bookkeeping, with an event for each request |
| `DynamicIndex.Index.InterInsert` | src/index.cpp:1185-1264 | every neighbour of the new point is linked back to it, no other list changes, and the degrees stay within the slack |
| `DynamicIndex.Index.InsertPoint` | src/index.cpp:2670-2816 | refused exactly for a known tag or a full index; otherwise the tag has the vector, no other vector changes, its list is the pruned search result by the distances of the vectors and the parameters of the index, or the first live points while there are few, and is not empty |
| `DynamicIndex.Index.ProcessDelete` | src/index.cpp:2208-2254 | the repair in place of one list |
| `DynamicIndex.Index.ConsolidateDeletes` | src/index.cpp:2260-2364 | which of its four reports it gives and exactly when; on success exactly the deleted slots are free again, every remaining list is repaired by the distances of the vectors and the parameters given, and no tag has lost its vector |
| `DynamicIndex.SecondConsolidation` | src/index.cpp:2277-2310 | the input for which the report misleads: a thread that calls it while another holds a deleted point is told of inconsistent counts |
| `DynamicIndex.Index.GetVectorByTag` | src/index.cpp:802-813 | found exactly for a tag in the index, with the vector inserted under it |
| `DynamicIndex.Index.CompactData` | src/index.cpp:2398-2526 | every tag keeps its vector; lists, vectors, both tag maps and the empty slots are those of the compacted index; nothing changes when it declines |
| `DynamicIndex.Index.Run` | src/index.cpp:2260-2844 | any sequence of insertions, deletions, consolidations, compactions and lookups is answered by a map of bounded size, in a graph without dangling edges and within the degree bound; deleted points hold their room until a consolidation |
| `DynamicIndex.RunFromStart` | src/index.cpp:1990-2844 | the same from construction on: points inserted before deletion is enabled, then any operations; it holds if and only if the insertions did not end in a refused repetition; distance, parameters and frozen start stay those given, and no list is longer than 1.3 times the range or than the largest range of a consolidation |
| `DynamicIndex.RepeatedTag` | src/index.cpp:2710-2715 | the input for which it fails: a tag inserted twice before deletion is enabled makes consolidation fail its count check |
| `IoPipeline.CircleQueue.Push` | include/search_utils.h:147-150 | appends to the queue while it has room |
| `IoPipeline.CircleQueue.Get` | include/search_utils.h:152-156 | takes the oldest entry |
| `IoPipeline.WaitingIsRecent` | src/gorgeous/index_search.cpp:275-339 | whatever the order of completion, a page that waits was requested within the last beam and as many requests more as are waiting |
| `IoPipeline.RoomIff` | src/gorgeous/index_search.cpp:247-339 | over all runs, in whatever order reads complete: the ring of sector buffers has room for every beam that may be dispatched if and only if `2 * w + bound <= 1026`, where a dispatch needs fewer than `bound` waiting pages (half a beam here, one page more over replicated lists); the failing half builds the run |
| `IoPipeline.Pipeline.Submit` | src/gorgeous/index_search_dup_graph.cpp:360-380 | every recorded page is requested once, into a buffer that nobody else owns |
| `IoPipeline.Pipeline.Reap` | src/gorgeous/index_search_dup_graph.cpp:303-317 | completed reads, in any order, join the queue; none is lost or duplicated |
| `IoPipeline.Pipeline.Take` | src/gorgeous/index_search_dup_graph.cpp:249-258 | the next buffer belongs to its request and holds that request's page: the check for a read error never fires |
| `DiskPool.AddToRetset` | src/gorgeous/index_search_dup_graph.cpp:142-151 | the list stays the closest of all met; the returned place is that of the new entry |
| `DiskPool.PushNeighbours` | src/gorgeous/index_search_dup_graph.cpp:153-174 | every neighbour is met, the new ones are offered to the list, and the list stays the closest of all met |
| `DupGraphSearch.Search.OfferTarget` | src/gorgeous/index_search_dup_graph.cpp:194-203 | a new neighbour is offered to the list, and is to be expanded at once exactly if it is near enough and a replica of its list is at hand |
| `DupGraphSearch.Search.TargetUpdate` | src/gorgeous/index_search_dup_graph.cpp:176-208 | the entries expanded at once from a replica have had all their neighbours met, except those whose list was misread; nothing is misread before a buffer is issued again |
| `DupGraphSearch.ReplicaRead` | src/gorgeous/index_search_dup_graph.cpp:262-270 | what is read in place of a replica is always a list within the graph, and the node's own as long as the buffer holds the page that brought it |
| `DupGraphSearch.Search.MarkEntries` | src/gorgeous/index_search_dup_graph.cpp:329-356 | the loop over the list leaves exactly the flags, the cached queue and the requests that `PlanOf` says, after exactly `Stop` entries, and puts exactly `Queued` nodes into the queue |
| `DupGraphSearch.Search.Iterate` | src/gorgeous/index_search_dup_graph.cpp:247-383 | an iteration ends the search with nothing left to do, or meets a node, sends an entry on its way, or works off what is on its way; it leaves an entry waiting with nothing on its way only if more than half a beam of pages waits; it loses a buffer only with a beam too wide for the ring, and misreads nothing if it begins with at most 1024 reads |
| `DupGraphSearch.Search.AllDone` | src/gorgeous/index_search_dup_graph.cpp:381-381 | when nothing is on its way and no flag is set, each node whose page was read, by one read each, was met and expanded; and the list is a fixed point of the graph unless a list was misread |
| `DupGraphSearch.Search.Traverse` | src/gorgeous/index_search_dup_graph.cpp:247-383 | whatever the order in which reads complete and whatever `io_limit`, the traversal ends; ended by itself it has read and expanded every page asked for, and reached a fixed point of the graph unless a list was misread; with `io_limit` up to 1025 every list used is the node's own |
| `DupGraphSearch.QueueIff` | src/gorgeous/index_search_dup_graph.cpp:329-356 | the queue of nodes with known lists holds what a dispatch puts into it, whatever the list, if and only if two beams less one fit into it |
| `DupGraphRuns.QueueFills` | src/gorgeous/index_search_dup_graph.cpp:247-356 | for every beam the input that fills the queue: after its first page the search is due a dispatch of exactly two beams less one into the queue |
| `DupGraphRuns.StaleRun` | src/gorgeous/index_search_dup_graph.cpp:247-378 | for every `io_limit` above 1025 the input that misreads: the run, read by read, after which node 1025 has been expanded with the list of node 1026 and its own neighbour has not been met |
| `Refine.ReadExact` | src/gorgeous/index_search_dup_graph.cpp:389-437 | the exact distance of each of the first entries of the list is known once, whether its vector was in memory, read before, or read now |
| `Refine.TopK` | src/gorgeous/index_search_dup_graph.cpp:444-469 | the nearest `k` of the nodes with known distances, in ascending order, without repetition |
| `Refine.Query` | src/gorgeous/index_search_dup_graph.cpp:247-474 | a query answers with `k` different nodes in ascending order of exact distance such that no node read, and none among the first entries of the list, is nearer: the fraction `embRatio` of the list, rounded down, but `k` at least; the list is a fixed point unless more than 1024 reads let a list be misread; it is interrupted exactly when its reads are used up, and with `io_limit` up to 1025 it is never misled |
| `PageSearch.Search.VisitNode` | src/gorgeous/index_search.cpp:225-241 | a node of a page just read is taken up, with its exact distance, exactly if it is the page's target or near enough |
| `PageSearch.Search.VisitPage` | src/gorgeous/index_search.cpp:214-241 | exactly those nodes of the page are taken up that are its target or whose compressed distance is below `ratio` times that of the last entry of the list at that moment; these are met, and they and no others of the page are noted with their exact distances |
| `PageSearch.Search.ExpandSlots` | src/gorgeous/index_search.cpp:242-244 | all neighbours of the nodes to be expanded are met, and the list stays the closest of all met |
| `PageSearch.Search.Iterate` | src/gorgeous/index_search.cpp:204-345 | an iteration makes progress with a beam of two or more, and changes nothing from the start with a narrower one; with no read under way and less than half a beam of pages waiting it sends a whole beam or leaves no entry waiting |
| `PageSearch.Search.Traverse` | src/gorgeous/index_search.cpp:204-345 | with a beam of two or more the traversal ends; its reads follow `FlowRun`, and with a beam within the ring it reads no page twice; ended by itself, every entry of the list was sent on its way, and every page asked for was visited as `VisitPage` says: the nodes taken up are noted, no others, and all their neighbours have been met; it can lose a buffer only with a beam beyond the ring and after more than 1024 reads |
| `PageSearch.DispatchNeedsTwo` | src/gorgeous/index_search.cpp:291-291 | the guard of the dispatch can hold if and only if the beam is at least two |
| `PageSearch.NeverBegins` | src/gorgeous/index_search.cpp:204-291 | the input for which the traversal does not end: with a beam of one and a positive `io_limit`, any search is after any number of iterations where it was before, and the guard of the loop still holds |
| `PageRefine.RefinePages` | src/gorgeous/index_search.cpp:348-411 | how often the refine phase notes each node, exactly: once if it is looked up in memory and once if it has been met and its page is read; every distance noted is exact |
| `PageRefine.NotedTwiceIff` | src/gorgeous/index_search.cpp:362-379 | a node is noted twice exactly if it has been met, is looked up in memory, and stands in the list before an entry of its page that has to be read |
| `PageRefine.TopResults` | src/gorgeous/index_search.cpp:419-431 | the results are the first entries of the sorted notes, less those with the id of the entry before |
| `PageRefine.RepeatsIff` | src/gorgeous/index_search.cpp:427-430 | in every order that the sort may leave, and for every `k`, the results name no node twice if and only if no node noted twice is as far away as another one |
| `PageRefine.TiedRefine` | src/gorgeous/index_search.cpp:362-398 | the input for which they can: two nodes of one page at the same distance, of which the nearer entry has its vector in memory |
| `PageRefine.Conclude` | src/gorgeous/index_search.cpp:346-447 | the results have exact distances in ascending order, no node noted that is left out is nearer, and no node is named twice unless one noted twice is tied |
| `PageRefine.TraversalNotes` | src/gorgeous/index_search.cpp:214-241 | in every state of a traversal each node has been noted at most once, with its exact distance, and only if its page was asked for |
| `PageRefine.NotedExactly` | src/gorgeous/index_search.cpp:346-411 | after such a traversal no node is noted more than twice, and exactly the nodes of `NotedTwiceIff` are noted twice |
| `PageRefine.EntryNoted` | src/gorgeous/index_search.cpp:354-379 | an entry of the list that the refine phase covers is looked at by the end if and only if it was noted in the traversal or its page was not asked for then |
| `PageRefine.PassedOver` | src/gorgeous/index_search.cpp:225-241 | the input for which one is not: two nodes of one page, each the other's neighbour, with a ratio of 0; the query answers, and one of the two entries of its list is never looked at although the phase covers the whole list |
| `PageRefine.Query` | src/gorgeous/index_search.cpp:204-447 | a query from its first read to its answer: interrupted exactly when its reads are used up; every page asked for was visited as in `Traverse`, and to those notes the refine phase adds exactly what `RefinePages` says for the fraction `embRatio` of the list, rounded down, but `k` entries at least; the answer is `k` noted nodes with exact distances in ascending order, no other noted node nearer, and none named twice unless one noted twice is tied; too few only if fewer than `k` nodes are noted |
| `Placement.PageCountIs` | graph_partition/include/partitioner.h:655-655 | the page count is the quotient rounded up |
| `Placement.PrimaryFits` | graph_partition/include/partitioner.h:654-660 | the primary pages are no more than the nodes, and the other nodes fit into the other pages, if and only if the scale does not exceed the capacity; with one primary page more they would not fit |
| `Placement.Partitioner.PlaceAll` | graph_partition/include/partitioner.h:702-734 | every node is placed on exactly one page, as a seed or beside a seed whose neighbour it is; a neighbour of a seed is on the seed's page or an earlier one unless that page is full; pages are filled one after the other, no page is overfull, and the locked pages are the first ones |
| `Placement.Partitioner.CollectLocked` | graph_partition/include/partitioner.h:736-743 | the locked nodes are exactly those on locked pages |
| `Placement.RoundHasRoom` | graph_partition/include/partitioner.h:702-743 | the pages not locked have room for the nodes not locked |
| `Placement.PlacementReady` | graph_partition/include/partitioner.h:702-753 | the placement is a state from which streaming rounds can start, one after the other: each locked page is full, or there is nothing to place |
| `LdgRound.RunInv` | graph_partition/include/partitioner.h:587-639 | in every state of every interleaving each node is waiting, with exactly one thread, or on exactly one page; no page is overfull, and no page with room is lost to the free queue (which page is chosen: `LdgChoice.ChoiceIsBest`) |
| `LdgChoice.ChoiceIsBest` | graph_partition/include/partitioner.h:587-617 | over any interleaving, a page chosen by its score was found to hold neighbours of the node and to have room, and no other page with neighbours that had room when it was looked at had more neighbours times room left |
| `LdgChoice.QueueIsLast` | graph_partition/include/partitioner.h:607-624 | the free queue is asked only if every page with a neighbour of the node on it was full when it was looked at |
| `LdgRound.NoDeadlock` | graph_partition/include/partitioner.h:631-639 | as long as the pages have room, some thread can go on |
| `LdgRound.RoundTerminates` | graph_partition/include/partitioner.h:766-817 | every step brings the round nearer to its end |
| `LdgRound.RoundResult` | graph_partition/include/partitioner.h:766-817 | a finished round has every node on exactly one page, the one `id2pid` names |
| `LdgRound.RoundEnds` | graph_partition/include/partitioner.h:766-817 | a run that cannot go on has placed every node |
| `LdgRound.RoundCompletes` | graph_partition/include/partitioner.h:766-817 | from any state of any run, the round can be brought to such an end |
| `LdgRound.RoundKeepsReady` | graph_partition/include/partitioner.h:766-773 | from such a state a round leaves locked pages as they were and everything ready for the next round |
| `ThreadPool.InvInductive` | include/thread_pool.h:103-145 | what every step of every thread keeps: the count of threads still to report, their flags, and which queries are answered |
| `ThreadPool.RunTaskReturns` | include/thread_pool.h:103-122 | whenever `runTask` stops waiting, its task has been run exactly once by each thread asked for, every query is answered exactly once, and no thread is inside |
| `ThreadPool.OnlyThisRound` | include/thread_pool.h:126-145 | no thread is ever inside the task of another call than the one in progress |
| `ThreadPool.SomeoneCanMove` | include/thread_pool.h:117-145 | during a call some thread can always move |
| `ThreadPool.CallsTerminate` | include/thread_pool.h:103-145 | every step of a call brings it nearer to its end |
| `MergeShards.Merge` | src/aux_utils.cpp:318-493 | every node up to the largest gets the union of what its shards say of it, each neighbour once, cut to the width after shuffling; nodes come in order without gaps, and the declared size is the number of bytes written |
| `MergeShards.Rename` | src/aux_utils.cpp:470-475 | the neighbours of a record under their global names are collected once each, marked by the bit set |
| `PqChunks.Arrange` | src/partition_and_pq.cpp:261-340 | each dimension is in exactly one chunk, in order, the chunks have two neighbouring sizes, and the encoder cuts its chunks as the training did |
| `PqChunks.TrainedIff` | src/partition_and_pq.cpp:335-340 | the pivots, trained on vectors in their own column order, fit the chunks that the encoder cuts from rearranged vectors, for every vector, if and only if the order is the identity |
| `PqChunks.Permute` | src/partition_and_pq.cpp:531-536 | the encoder's copy of a vector has its coordinates in the stored order |
| `PqTable.FixedChunkPQTable.PopulateChunkDistances` | include/pq_table.h:158-175 | each entry is the chunk's part of the squared distance to that centre |
| `PqTable.LookupIsL2` | include/search_utils.h:47-65 | the sum of table entries is `l2_distance` of the code |
| `PqTable.L2IsExact` | include/pq_table.h:177-218 | `l2_distance` is the squared distance from the query to the vector the code inflates to, whatever the column order |
| `PqTable.ComputePqDists` | include/search_utils.h:40-65 | a batch of distances as the searches compute it: each is the squared distance to the inflated vector of its point |
| `PqTable.ArrangedIsValid` | src/partition_and_pq.cpp:294-309 | the boundaries and order written at build time make a valid table |

## Left out

- Refine.Query: beams of zero and beams wider than 512 (`DupGraphSearch.QueueIff`); and what the refine
  phase makes of a query interrupted with reads under way, or of one that goes on after a buffer in use
  has been issued again (`Overrun`).
- DupGraphSearch.ReplicaRead: a slot beyond the lists of the page now in the buffer, which is read as an
  empty list; and a read that reaches its buffer before it is collected.
- PageSearch.Search.Traverse: what follows once a buffer in use has been issued again (`Overrun`); and
  that the result is a fixed point: the traversal passes over nodes that come with a page and are too
  far away, and does not read the page again when one of them comes into the list later.
- PageRefine.Query: beams below two (`PageSearch.NeverBegins`), what the refine phase makes of an
  interrupted query, and the change of sign and scale for inner products.
- NeighborVec.NeighborVec.Insert: a capacity of 0, for which `insert` reads before its array.
- SlotState.RunKeeps: deletions before `enable_delete`.
- DynamicIndex.Index.Run: graph contents under concurrent writers; of interleaved threads only the slots
  and tags are modelled (`RunSections`). The locks of single lists are not part of the model.
- DynamicIndex.Index.ConsolidateDeletes: the flags `_lazy_done` and `_eager_done`.
- LdgRound.RunInv: overlap statistics, and the light partition for replicated pages.
- ThreadPool.RunTaskReturns: `runTaskAsync` and the shutdown of the pool.
- RobinHash.Run: erasing ranges, iterators, copying, serialization, allocators and exceptions thrown by
  keys, values or hash functions; the growth policies other than powers of two; distances from home
  beyond 16 bits. A bucket count beyond the limit at construction is a precondition.
- SparseHash.Run: the same; the table holds its sparse arrays as values, and the array that is updated
  in place is `SparseArray.SparseBuffer`.
- BeamSearch.IterateToFixedPoint: the order of entries at equal distance, which `std::sort` leaves open,
  and rounding of distances, here and in all searches. The distances of the compressed vectors are given.
- Refine.TopK: the change of sign and scale for inner products.
- Prune.OccludeList: the alphas are 1, 1.2, 1.44 and so on as exact reals.
- DupGraphSearch.Search.Traverse: seeds that occur twice, and seeds out of range.
- PqTable.ComputePqDists: inner-product tables and rounding.
- PqChunks.Arrange: k-means, and the training of the centres.
- MergeShards.Merge: reading and writing of files other than the merged graph; the shuffle is any
  permutation.
- Eager deletion, batch building, frozen-point compaction, resizing of a full index, normalisation of
  vectors, and files, memory mapping and devices in general.
