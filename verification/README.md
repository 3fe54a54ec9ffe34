# A verified model of LibZenit's cores

LibZenit is a C library of mutable containers, two concurrent components, two parser/printer pairs and a
set of in-place algorithms. This project models the parts where a fast layout has to agree with a simple
mathematical object, or where a protocol has to be safe under every interleaving, and proves that they do.

| files | component | what it is proved to be |
|---|---|---|
| `Lru.dfy`, `LruCache.dfy` | LRU cache | a bounded recency-ordered list of distinct pairs, for any hash function |
| `HashMap.dfy`, `Probing.dfy`, `Bits.dfy` | open-addressing map | a mathematical map, for any hash function |
| `Arena.dfy`, `ArenaRun.dfy`, `ArenaBitmap.dfy`, `Words.dfy` | arena and boundary-tag allocator | a tiling of the region by blocks with disjoint payloads, one per buffer held |
| `Spsc.dfy` | lock-free ring | a FIFO under every interleaving, with wrapping counters, and what each whole call does |
| `ThreadPool.dfy`, `Counting.dfy` | thread pool | exactly-once execution, mutual exclusion, no lost wake-up, and progress of every thread left alone |
| `Json.dfy`, `JsonGrammar.dfy`, `JsonBounds.dfy`, `JsonCode.dfy` | JSON | a grammar whose spellings are exactly the accepted texts; parsing inverts printing on every tree, and printing is shortest |
| `Csv.dfy` | CSV | how every line is cut into fields; parsing inverts printing, with the exact condition on the delimiter |
| `Sort.dfy` | quicksort, merge sort | sorted permutation; sorted stable permutation |
| `Heap.dfy` | binary heap | a priority queue, drained in rank order |
| `Graph.dfy`, `GraphSearch.dfy`, `GraphDepth.dfy`, `GraphCode.dfy` | graph | a set of vertices and arcs with an exactly characterised counter; breadth-first order; the stack traversal's order and when it is depth-first |

Containers and algorithms that the C code changes in place are classes and methods over arrays and
sequences, each proved against a function of its old state; the theorems about those functions are lemmas.
The two concurrent components are transition systems whose steps are single statements or single byte
copies, and a schedule is an arbitrary sequence of steps. Allocation is a Boolean parameter: every
operation that allocates is proved for success and for failure. The hash function is an arbitrary function
on keys, a comparator is any total preorder, and a traversal callback is any function of the visits so far.

## Where the code departs from its comments

The model follows the code. Each departure has an input at which the promise fails and the exact condition
under which it holds, for all inputs.

- Freeing a sub-allocation whose left neighbour is free inserts that neighbour into the free list a second
  time. The list survives if and only if the left neighbour is in use or absent
  (`UsableArena.UsableArena.Free`, `UsableArena.RepushedForEver`); two allocations freed in the order they
  were made break it (`UsableArena.FreeInOrderBreaks`).
- The block size of a sub-allocation is an unguarded sum. It overflows for the requests from 2^64 - 63 to
  2^64 - 8 and for no others (`UsableArena.NeededWrapsIff`), and such a request is granted in any free block
  (`UsableArena.UsableArena.Allocate`, `UsableArena.WildClaim`).
- A usable arena smaller than one header and one footer is handed out all the same and its tags are written
  outside it, exactly for regions of less than 56 bytes (`ArenaBitmap.Arena.Acquire`,
  `ArenaBitmap.CrampedRegion`).
- The map's load check precedes the insertion, so tables of 1, 2 or 4 slots can fill up completely
  (`HashMap.TinyTableFills`), and a lookup ends if and only if the key is present or some slot was never used
  (`HashMap.LookupEndsIff`). Eight slots are always enough (`HashMap.EightSlotsSuffice`).
- Growing by half makes no progress from capacity 1, and only from there (`Heap.GrowthEndsIff`,
  `Graph.GrowthMakesRoomIff`): the second push into a heap of capacity 1 asks for room that no number of
  growth steps gives (`Heap.SecondPushNeverGrows`), and the second vertex of a graph of capacity 1 is written
  outside its array (`Graph.Graph.AddVertex`, `Graph.SecondVertexOverruns`).
- Removing a directed vertex that has a self-loop subtracts that edge twice (`GraphSpec.SelfLoopUnderflows`).
  After any run the counter is right if and only if the number of such removals since the last clear is 0
  modulo 2^64 (`GraphSpec.CountExactIff`).
- Vertex numbers are documented as never reused. The code hands out the lowest free one, so a number is
  handed out again if and only if some number handed out earlier is not in use
  (`GraphSpec.NumberReusedIff`, `GraphSpec.NumberHandedOutTwice`).
- The depth-first traversal marks a vertex when it is pushed and never moves it. Its order is a depth-first
  one if and only if no vertex is popped while a vertex touched later waits (`GraphDepth.DepthFirstIff`). This
  condition speaks of the traversal's stack, which depends on the order of the lists; a caller can decide it
  beforehand by following the stack without visiting (`GraphDepth.CheckDepthFirst`). Conditions on the graph
  alone are sufficient only: one simple path to each vertex (`GraphDepth.OnePathIsDepthFirst`), or no vertex
  entered twice (`GraphDepth.EnteredOnceIsDepthFirst`). With arcs 0 to 1, 2, 3 and 1 to 3 the order is not
  depth-first (`GraphDepth.NotDepthFirst`).
- The parser applies the rule against leading zeros to fraction and exponent digits too, so of the numbers
  of section 6 of RFC 8259 it accepts exactly those whose fraction and exponent obey it
  (`JsonNumbers.NumberAcceptedIff`); 0.05 is refused (`JsonNumbers.FiveHundredthsRefused`).
- An escape by number that is half of a surrogate pair is encoded on its own, in three bytes that section 3 of
  RFC 3629 does not allow. The bytes of an escape by number are valid UTF-8 if and only if the number is no such
  half (`JsonGrammar.EscapeValidIff`).
- A text of given length is read past its end by strtod, decimal and hexadecimal. It is accepted if and only
  if the text alone is, unless it is a number that the bytes behind it continue (`JsonCode.ParseDocument`): 1
  with 2 behind it (`JsonBounds.OneOfTwelve`), or 0 with x1 (`JsonBounds.ZeroBeforeX`). A terminated text never
  is such a number (`JsonBounds.TerminatedNeverRunsOn`).
- The terminator of a parsed string is written outside its buffer if and only if the decoded length is 64
  times a power of two (`JsonCode.Parser.ParseString`, `JsonCode.SixtyFourFills`). So the round trip stays
  inside its buffers if and only if no string or key of the tree has such a length
  (`JsonCode.SerialiseThenParse`).
- With the double quote as delimiter a CSV record survives if and only if no field but the last needs
  quoting (`Csv.RoundTripIff`, `Csv.QuoteDelimiterLoses`).
- Rounding up to a power of two wraps to zero above half the word range, so the ring's capacity is a power
  of two of at least the requested size if and only if the request is at most 2^31
  (`Spsc.CreatedCapacityUsableIff`, `Spsc.UnusableRing`).
- Quicksort reads its pivot through slot `lo`, which the first swap overwrites; the partition is correct
  around the element that swap brings there (`QuickSort.FirstSwap`), so this one costs nothing.

## Model

| member | source | states |
|---|---|---|
| Bits.RoundPow2Correct | src/_hash_common.h:44-55 | the shift-and-or rounding yields the unique power of two in [n, 2n) for every n up to half the word range |
| Bits.RoundPow2Wraps | src/_hash_common.h:44-55 | above half the word range, and at 0, the rounding overflows to 0 |
| Bits.AndMask | src/map.c:55-57 | `x & (2^k - 1)` is `x % 2^k`, which justifies masking by capacity - 1 |
| Probing.AfterAdvances | src/map.c:93-94 | stepping with `& mask` moves exactly one slot further from the home slot and returns to it after a full cycle |
| LruSpec.RunKeepsInvariant | src/lru.c:358-554 | after every run of operations the list has distinct keys and at most `capacity` entries |
| LruSpec.HoldsMostRecentlyUsed | src/lru.c:358-455 | after every run without removals the cache holds exactly the `capacity` most recently used keys with their last values, most recent first |
| LruSpec.HoldsLastPut | src/lru.c:358-554 | after every run, removals included, every entry held is the last put of its key, and an entry put last and neither removed nor cleared is held or was handed out by an eviction |
| LruSpec.RecencyOrder | src/lru.c:358-554 | after every run, removals included, the entries stand in the order in which their keys were last put or asked for, so the one evicted is the least recently used |
| LruSpec.PutEffect | src/lru.c:358-429 | a put stores its entry and keeps every other but the evicted one; one is evicted exactly when the cache is full and the key is new |
| LruSpec.GetEffect | src/lru.c:431-455 | a get keeps every entry and brings the one it finds to the front |
| LruSpec.RemoveEffect | src/lru.c:489-517 | a removal takes out the entry of its key and no other |
| LruLists.Unlinked | src/lru.c:87-105 | the four pointer writes of an unlink turn the doubly linked list of `order` into that of `order` without the node |
| LruLists.Pushed | src/lru.c:108-119 | the writes of a push turn the list of `order` into that of the node followed by `order` |
| LruLists.ExactlyOneList | src/lru.c:72-82 | each node index is in exactly one of the recency list and the free list |
| LruTable.OccupiedCount | src/lru.c:139-163 | the table holds one slot per live node, neither more nor fewer |
| LruTable.SomeEmpty | src/lru.c:264-266 | a table with fewer live nodes than slots has an EMPTY slot, so probing ends |
| LruTable.AbsentAtEmpty | src/lru.c:172-200 | a probe that reaches EMPTY without meeting the key proves that no live node has it |
| LruTable.Inserted | src/lru.c:146-159 | writing a node into the first EMPTY slot of its path leaves no gap in any probe chain |
| LruCache.Lru.constructor | src/lru.c:231-297 | an empty valid cache: every node on the free list, every slot EMPTY |
| LruCache.Create | src/lru.c:231-297 | NULL exactly for capacity 0, a table size that overflows to 0 or a failed allocation, else an empty cache, unless the size in bytes of an array overflows |
| LruCache.TableVanishesIff | src/lru.c:264-266 | for every capacity: the rounded table size overflows to 0 exactly from 2^62 + 1 to 2^63 and above 3 * 2^62, and is otherwise between two and four times a capacity of at most 2^62 |
| LruCache.LongEnough | src/lru.c:268-274 | up to 2^58 nodes no size in bytes overflows |
| LruCache.Lru.PopFree | src/lru.c:72-76 | takes the head of the free list; the rest stays threaded through the shared `next` array |
| LruCache.Lru.PushFree | src/lru.c:79-82 | puts a node on the free list and changes no other `next` entry |
| LruCache.Lru.Unlink | src/lru.c:87-105 | the node leaves the recency list, whose other nodes keep their order; the free list is untouched |
| LruCache.Lru.PushFront | src/lru.c:108-119 | the node becomes the most recent; the free list is untouched |
| LruCache.Lru.MoveToFront | src/lru.c:122-128 | the node becomes the most recent, the others keep their order |
| LruCache.Lru.Rebuild | src/lru.c:139-163 | the rebuilt table finds exactly the nodes of the recency list, without gaps |
| LruCache.Lru.FindSlot | src/lru.c:172-200 | finds the key if and only if a scan of the recency list does, and then the same node; else stops at EMPTY |
| LruCache.Lru.EvictLast | src/lru.c:377-394 | the least recent node leaves the list, the others keep their order, and its entry alone goes to the callback |
| LruCache.Lru.TakeNode | src/lru.c:377-399 | a free node, or the least recent node of a full cache, whose entry alone is handed to the callback |
| LruCache.Lru.Put | src/lru.c:358-429 | refines the list operation: update in place and move to front, or prepend and evict exactly the last entry of a full cache |
| LruCache.Lru.Get | src/lru.c:431-455 | refines lookup with move to front; a miss changes nothing |
| LruCache.Lru.Peek | src/lru.c:457-477 | the same answer as a list scan, with no change to the order |
| LruCache.Lru.Contains | src/lru.c:479-487 | true exactly for the keys of the list |
| LruCache.Lru.Remove | src/lru.c:489-517 | deletes the entry from the list and keeps the order of the others; reports whether it was there |
| LruCache.Lru.Clear | src/lru.c:519-554 | empties the list; the callback gets every entry, most recent first |
| LruCache.Execute | src/lru.c:358-554 | after any sequence of operations, with or without a callback, the contents, every answer and every evicted entry are those of the specification |
| LruCache.ValidStateFacts | src/lru.c:264-266 | in every valid state at most half the table is occupied and each node is in exactly one list |
| MapTable.AbsentAtEmpty | src/map.c:52-96 | a probe that passes tombstones and other keys and reaches EMPTY proves the key absent |
| MapTable.Stored | src/map.c:255-294 | filling a free slot on the key's gap-free path, tombstones included, represents the map with the new entry |
| MapTable.Buried | src/map.c:318-338 | a tombstone represents the map without the key and breaks no other key's path |
| MapTable.TableEnumerates | src/map.c:128-153 | walking the slots in order enumerates every entry of the map exactly once |
| MapTable.ProbeEndsIff | src/map.c:52-96 | the probe sequence meets a stopping slot if and only if one exists anywhere in the table |
| HashMap.Create | src/map.c:201-243 | NULL exactly for capacity 0 or a failed allocation, else an empty map of the rounded capacity, unless that is 0 |
| HashMap.HollowIff | src/map.c:209-210 | the rounded capacity is 0 exactly for requests above 2^63 |
| HashMap.Map.ProbeSlot | src/map.c:52-96 | OCCUPIED at the key's own slot if and only if the key is present, else a slot where storing it leaves no gap |
| HashMap.Map.Rehash | src/map.c:99-163 | changes no lookup: same map, twice the capacity, no tombstones; a failed allocation changes nothing |
| HashMap.Map.EnsureLoad | src/map.c:166-176 | rehashes exactly above 75 % load; afterwards an EMPTY slot exists at every capacity |
| HashMap.Map.Insert | src/map.c:255-294 | map update; it always ends, at every capacity, and keeps 4 * (count + deleted) <= 3 * capacity + 4 |
| HashMap.Map.Get | src/map.c:296-316 | map lookup |
| HashMap.Map.Remove | src/map.c:318-338 | map deletion, reporting whether the key was there |
| HashMap.Map.Contains | src/map.c:340-348 | membership in the map |
| HashMap.Map.Clear | src/map.c:364-372 | the empty map, without tombstones |
| HashMap.LookupEndsIff | src/map.c:63-95 | in every valid state the probe for a key ends if and only if the key is present or count + deleted < capacity |
| HashMap.EightSlotsSuffice | src/map.c:63-64 | a table of at least 8 slots always has an EMPTY slot |
| HashMap.TinyTableFills | src/map.c:166-176 | tables of 1, 2 or 4 slots reach a state without any EMPTY slot |
| HashMap.Execute | src/map.c:255-372 | every run on a table of any capacity returns the answers of a mathematical map, step by step, to its end or up to the first lookup that never ends; with 5 or more slots requested there is none |
| HashMap.Map.WouldNotEnd | src/map.c:63-95 | decides that an operation is a lookup of an absent key in a table without an unused slot |
| ArenaBlocks.TilesOrdered | src/arena.c:46-59 | blocks of a tiling lie in order and do not overlap |
| ArenaBlocks.PayloadsDisjoint | src/arena.c:278-322 | payloads are clear of all other blocks and of their own tags |
| ArenaFreeList.Bypassed | src/arena.c:305-312 | the unlink writes remove exactly that block from the doubly linked free list |
| ArenaFreeList.Pushed | src/arena.c:411-416 | the insert writes put a block that is not listed at the head |
| ArenaFreeList.InsertedAfter | src/arena.c:297-302 | the split writes put the remainder right behind the block it was cut from |
| ArenaFreeList.RepushBreaks | src/arena.c:393-416 | inserting a block that is listed already leaves links that are no list of any sequence of blocks |
| UsableArena.UsableArena.constructor | src/arena.c:216-233 | one free block over the whole region, tagged at both ends, alone on the free list |
| UsableArena.UsableArena.SyncFooter | src/arena.c:85-89 | the two tags of the block agree afterwards, and no other footer changes |
| UsableArena.NeededWrapsIff | src/arena.c:333-337 | the sum for the block size overflows exactly for requests from 2^64 - 63 to 2^64 - 8, and is then too small for the tags alone |
| UsableArena.SplitKeepsSound | src/arena.c:286-303 | a split keeps tiling, tags and the exact free list |
| UsableArena.TakeKeepsSound | src/arena.c:305-317 | taking a block off the list and marking it keeps tiling, tags and the exact free list |
| UsableArena.AbsorbKeeps | src/arena.c:375-389 | merging the free right neighbour keeps tiling, tags and the exact free list |
| UsableArena.UsableArena.FindFit | src/arena.c:339-345 | the first block of the list that is large enough |
| UsableArena.UsableArena.ClaimBlock | src/arena.c:278-322 | less than 64 bytes are wasted: a rest of 64 bytes or more becomes a free block of exactly the rest, which takes the block's place in the free list; every other block and the order of the list are kept |
| UsableArena.ClaimServes | src/arena.c:286-303 | the layout after a claim is the only one in which the block is in use at its old place with less than 64 bytes wasted, a rest of 64 or more is one free block, and all other blocks are the same |
| UsableArena.WalkFitsFirst | src/arena.c:339-345 | the walk along the list stops at the first block of the layout that is large enough, in list order |
| UsableArena.UsableArena.Allocate | src/arena.c:324-348 | fails exactly when the alignment overflows or no free block is large enough; else hands out the first fit, payload clear of tags, in a block less than 64 bytes larger than needed: with 64 or more to spare it is cut to the needed size, its rest is a free block in its place in the list, and every other block stays; a request whose sum overflows gets the first free block of any size, and then nothing is promised about the arena |
| UsableArena.WildClaim | src/arena.c:324-348 | a request of 2^64 - 63 bytes is granted in a region of 512 |
| UsableArena.UsableArena.CoalesceNext | src/arena.c:370-390 | a free right neighbour is merged and leaves the list, which keeps its order; else nothing changes |
| UsableArena.UsableArena.CoalescePrevAndInsert | src/arena.c:393-416 | with the left neighbour in use the block joins the list; with it free the two become one block in the tags and the list is broken |
| UsableArena.UsableArena.BehindFree | src/arena.c:393-397 | the footer test decides whether the block in front is free |
| UsableArena.UsableArena.Free | src/arena.c:350-419 | a double free is refused; a block whose left neighbour is in use is freed and coalesced and heads the list, the others keeping their order; otherwise the tags are merged with the free neighbours and the list is broken |
| UsableArena.FreeInOrderBreaks | src/arena.c:350-419 | two allocations freed in the order they were made break the list |
| UsableArena.RepushedForEver | src/arena.c:393-416 | with a free left neighbour the insertion re-pushes a listed block, whatever its new size |
| UsableArena.RepushKeepsTags | src/arena.c:393-416 | the same writes leave tiling and tags right, with the two blocks merged into one |
| UsableArena.ReleaseCoalesced | src/arena.c:350-419 | freeing with the left neighbour in use leaves no two adjacent free blocks |
| UsableArena.ReleaseReturns | src/arena.c:366-390 | the layout after a free is the only one in which the block is free over its own bytes and those of a free right neighbour, and all other blocks are the same |
| UsableArena.AllocateThenFree | src/arena.c:278-419 | freeing the buffer just allocated is always safe and restores the layout block for block |
| UsableArena.LivePayloadsDisjoint | src/arena.c:278-419 | in every valid state payloads are pairwise disjoint, inside the region and clear of all tags |
| ArenaRun.Execute | src/arena.c:278-419 | every run of allocations and frees, step by step to its end or the first wild claim or free behind a free block: each allocation takes the first fit of the free list, wastes less than 64 bytes and keeps the order of the list, each free heads it, and the buffers the owner holds are one to one the blocks in use, each inside its payload |
| ArenaRun.BuffersApart | src/arena.c:278-419 | any two buffers held are inside the region and at least a footer and a header apart |
| ArenaRun.ClaimUsed | src/arena.c:278-322 | a claim puts exactly one block in use |
| ArenaRun.ReleaseUsed | src/arena.c:350-419 | a free takes exactly one block out of use |
| ArenaBitmap.BitmapUpdate | src/arena.c:93-107 | setting or clearing a bit changes that bit and no other of the whole bitmap |
| ArenaBitmap.Create | src/arena.c:142-176 | NULL exactly for a zero size, a total that is no multiple of the block size or a failed allocation, else an arena with no block taken |
| ArenaBitmap.Arena.FindContiguous | src/arena.c:114-133 | the lowest run of the needed length; fails only if no such run exists |
| ArenaBitmap.Arena.Acquire | src/arena.c:188-234 | takes the lowest fitting run and no other block, as one free block; fails exactly for a bad size, no run or no handle, and then every bit is as before; a region under 56 bytes takes its run too, and nothing else is promised |
| ArenaBitmap.CrampedRegion | src/arena.c:188-234 | an arena with blocks of 32 bytes hands out one of them |
| ArenaBitmap.Arena.Release | src/arena.c:236-269 | answers what the header walk finds first, used block, damaged header or end, and frees exactly that range in the last case only |
| ArenaBitmap.CheckIdle | src/arena.c:242-259 | the loop along the headers computes what the walk finds first, whatever the headers say |
| ArenaBitmap.ReleasedIffIdle | src/arena.c:242-259 | with its tags right an arena is released if and only if no block is in use, and never found corrupt |
| ArenaBitmap.AcquiredDisjoint | src/arena.c:188-234 | a free run meets no live usable arena's range |
| Spsc.CreatedCapacityUsableIff | src/spsc.c:30-47 | truncation and rounding give a power of two of at least the requested size if and only if the request is at most half the word range |
| Spsc.UnusableRing | src/spsc.c:40-47 | a request for 2^31 + 1 elements makes a ring of that many slots, no power of two |
| Spsc.ProducerKeepsInv | src/spsc.c:76-95 | every load, byte copy and publish of a push keeps the ring invariant, with a stale tail; a call that answers OK has published its element |
| Spsc.ConsumerKeepsInv | src/spsc.c:97-116 | every load, byte copy and publish of a pop keeps the ring invariant, with a stale head; a call that answers OK has released its slot |
| Spsc.EveryRunIsFifo | src/spsc.c:76-116 | under every interleaving the popped sequence is a prefix of the pushed one, as many elements went in and came out as calls answered OK, counters wrap correctly and no slot is written while it is read |
| Spsc.RefusalsAreExact | src/spsc.c:81-108 | FULL and EMPTY are answered exactly when the ring was full or empty at the load of the other thread's counter |
| Spsc.PushAlone | src/spsc.c:76-95 | in every reachable state with room, a push left alone appends exactly its element and answers OK after one step per byte and four more, and the count is one higher |
| Spsc.PushRefused | src/spsc.c:81-87 | a push into a full ring answers FULL after three steps and changes nothing |
| Spsc.PopAlone | src/spsc.c:97-116 | in every reachable state with an element waiting, a pop left alone takes out the oldest one and answers OK after one step per byte and four more, and the count is one lower |
| Spsc.PopRefused | src/spsc.c:102-108 | a pop from an empty ring answers EMPTY after three steps and changes nothing |
| ThreadPool.WorkerKeepsInv | src/thread_pool.c:91-122 | every statement of a worker keeps the pool's invariant, which counts each job as queued, claimed or run |
| ThreadPool.ClientKeepsInv | src/thread_pool.c:259-316 | every statement of enqueue and wait keeps the pool's invariant |
| ThreadPool.DestroyerKeepsInv | src/thread_pool.c:217-224 | every statement of the shutdown sequence keeps the pool's invariant |
| ThreadPool.StepKeepsInv | src/thread_pool.c:91-318 | any step of any thread keeps the invariant, spurious wake-ups included |
| ThreadPool.MutualExclusion | src/thread_pool.c:91-122 | in every run at most one thread, worker, client or destroyer, is inside a critical section |
| ThreadPool.Conservation | src/thread_pool.c:91-122 | in every run accepted = queued + claimed + completed, none twice, dequeued in acceptance order, at most 4096 queued |
| ThreadPool.WaitReturnsWhenIdle | src/thread_pool.c:310-316 | wait leaves its loop only when every job accepted so far has completed |
| ThreadPool.ShutdownDrains | src/thread_pool.c:217-232 | once all workers have exited every accepted job has been executed exactly once |
| ThreadPool.NoLostWakeups | src/thread_pool.c:95-112 | queued work with all workers asleep always has a wake-up still to come, after the shutdown broadcast nobody sleeps, and free room with a sleeping producer has an awake producer or a pending signal |
| ThreadPool.WorkerProgress | src/thread_pool.c:95-118 | in every reachable state, a worker that finds the mutex free and a job queued has run the oldest job that is not taken after nine of its moves, and is back at the top of its loop and counted out after twelve |
| ThreadPool.WorkerDrains | src/thread_pool.c:94-119 | in every reachable state, a worker at the top of its loop with the mutex free has a schedule of its moves alone that runs every queued job, in acceptance order, twelve moves each |
| ThreadPool.IdleWorkerProgress | src/thread_pool.c:95-104 | with nothing queued a worker is asleep after three moves while the pool runs, and has left after four once it is stopped |
| ThreadPool.EnqueueProgress | src/thread_pool.c:259-279 | an enqueue that finds the mutex free, the pool running and fewer than 4096 jobs queued appends its job to the accepted ones, wakes a sleeping worker and returns after seven moves |
| ThreadPool.EnqueueRefused | src/thread_pool.c:265-268 | once the pool is stopped an enqueue returns after four moves and nothing is accepted |
| ThreadPool.EnqueueSleeps | src/thread_pool.c:261-263 | with 4096 jobs queued an enqueue is asleep after three moves, the mutex free |
| ThreadPool.WaitProgress | src/thread_pool.c:310-316 | a wait returns after three moves if nothing is queued or active, and else is back at its lock with the mutex free |
| ThreadPool.WholeCalls | src/thread_pool.c:259-316 | enqueue and wait from an idle caller: the accepted jobs grow by exactly the one enqueued, or nothing changes |
| ThreadPool.ShutdownProgress | src/thread_pool.c:217-220 | a shutdown that finds the mutex free stops the pool, wakes every sleeping worker and comes to its join after five moves |
| ThreadPool.JoinReturnsIff | src/thread_pool.c:222-224 | the join goes on exactly when no worker is left |
| JsonRoundTrip.CharBack | src/json.c:1007-1024 | every byte but NUL, escaped, is read back as itself |
| JsonRoundTrip.StringBack | src/json.c:326-366 | an escaped string is read back, up to its closing quote |
| JsonRoundTrip.NumberBack | src/json.c:378-410 | a printed integer is read back and the number ends where the text continues, with anything but a digit, a point, an exponent or an x |
| JsonRoundTrip.ValueBack | src/json.c:450-607 | a printed value followed by anything that can follow a value is read back, leaving the rest |
| JsonRoundTrip.RoundTrip | src/json.c:648-667 | parsing the printed text of any tree succeeds, consumes all of it and yields the tree, key order and duplicates included |
| JsonRoundTrip.WrittenInjective | src/json.c:1077-1099 | distinct trees have distinct texts |
| JsonNumbers.NumberAcceptedIff | src/json.c:368-410 | of the numbers of RFC 8259 section 6, exactly those without leading zeros in fraction and exponent are accepted, and then consumed whole |
| JsonNumbers.FiveHundredthsRefused | src/json.c:368-401 | 0.05 is refused |
| JsonGrammar.Utf8Iff | src/json.c:274-289 | for every 16-bit number its bytes, and no others, decode to it by the bit patterns of section 3 of RFC 3629, in the shortest form |
| JsonGrammar.EscapeRead | src/json.c:293-324 | every escape, by one of its eight letters or by four hexadecimal digits in any mixture of cases, is read as the bytes that decode to what it spells |
| JsonGrammar.EscapeSound | src/json.c:293-324 | nothing else is accepted as an escape |
| JsonGrammar.EscapeValidIff | src/json.c:274-289 | the bytes of an escape by number are valid UTF-8 if and only if the number is not half of a surrogate pair |
| JsonGrammar.StringRead | src/json.c:326-366 | whatever way its characters are written, raw or escaped, a string is read as their bytes |
| JsonGrammar.NumberRead | src/json.c:378-410 | every number of the standard without redundant zeros, followed by nothing that could continue it, is read whole |
| JsonGrammar.NumberSound | src/json.c:378-410 | every accepted number is one of those |
| JsonGrammar.ValueRead | src/json.c:450-607 | every spelling of a value is read as the value, with blanks anywhere between tokens |
| JsonGrammar.ValueSound | src/json.c:450-607 | every accepted value is a spelling of what it is read as, behind blanks |
| JsonGrammar.SeparatorSound | src/json.c:490-505 | between elements stand blanks and one comma, or blanks and the closing bracket |
| JsonGrammar.SpellingAccepted | src/json.c:648-667 | every spelling of a document, between blanks, is accepted as the value it spells |
| JsonGrammar.AcceptedIff | src/json.c:648-667 | a text is accepted as a value if and only if it is a spelling of that value: blanks, escapes, numbers, brackets, commas and colons as the grammar puts them together, and nothing else |
| JsonGrammar.EscapedIsPiece | src/json.c:1007-1024 | the serializer writes every byte as a raw character or an escape that denotes it |
| JsonGrammar.WrittenPrintable | src/json.c:1007-1024 | no byte below 0x20 occurs in the printed text of any tree |
| JsonGrammar.WrittenShortest | src/json.c:1007-1099 | no spelling of a value without raw control bytes is shorter than what the serializer writes |
| JsonBounds.StrtodConcat | src/json.c:381-386 | bytes behind the text leave the end of a number, decimal or hexadecimal, alone or carry it past the end of the text, and then the text alone stops at its end, before an exponent or before an x |
| JsonBounds.HexRefused | src/json.c:388-406 | the check refuses every hexadecimal number that strtod reads |
| JsonBounds.RunsOnStuck | src/json.c:490-505 | inside an array or object such a number is refused with or without the bytes behind |
| JsonBounds.TerminatedNeverRunsOn | src/json.c:687-697 | a number in a text followed by nothing that can continue a number, such as a terminator, never reads on |
| JsonBounds.OneOfTwelve | src/json.c:378-410 | the first byte of 12 as a text of length 1 is a number that reads on |
| JsonBounds.ZeroBeforeX | src/json.c:378-410 | the digit 0 with x1 behind it reads on as a hexadecimal number |
| JsonCode.Parser.SkipSpace | src/json.c:215-224 | the cursor moves to the first character that is not white space |
| JsonCode.Parser.ParseHex | src/json.c:251-270 | reads four hexadecimal digits as the grammar does, or fails |
| JsonCode.Parser.ParseEscape | src/json.c:293-324 | reads one escape and its UTF-8 bytes as the grammar does, or fails; the grammar's escapes are those of JsonGrammar.EscapeRead and JsonGrammar.EscapeSound |
| JsonCode.Parser.ParseString | src/json.c:326-366 | reads a string as the grammar does, or fails; the terminator falls inside the buffer if and only if the decoded length is not 64 times a power of two |
| JsonCode.FitsIff | src/json.c:232-246 | a buffer doubled on demand is full if and only if the length is 64 times a power of two |
| JsonCode.SixtyFourFills | src/json.c:338-344 | 64 is the shortest such length |
| JsonCode.ScanDigits | src/json.c:368-376 | the digit loop computes the recursive digit rule |
| JsonCode.CheckGrammar | src/json.c:388-406 | the number check computes the recursive number rule |
| JsonCode.ReadNumber | src/json.c:378-410 | reads a number as the grammar does and refuses one that the bytes behind the text continue |
| JsonCode.Parser.ParseNumber | src/json.c:378-410 | reads a number as the grammar does, or fails; it fails on one that the bytes behind the text continue |
| JsonCode.Parser.ParseLiteral | src/json.c:412-448 | accepts exactly the literal word at the cursor and moves past it |
| JsonCode.Parser.ParseSeparator | src/json.c:490-505 | comma, closing bracket or failure, as the grammar says |
| JsonCode.Parser.ParseValue | src/json.c:450-488 | the recursive descent computes the grammar on every text, and ends; only a number that runs on is refused besides |
| JsonCode.Parser.ParseArray | src/json.c:507-538 | reads the elements up to the closing bracket as the grammar does, or fails |
| JsonCode.Parser.ParseObject | src/json.c:557-607 | reads the members up to the closing brace as the grammar does, or fails |
| JsonCode.ParseDocument | src/json.c:648-667 | succeeds exactly when the whole text is a spelling of a value, which is the one returned, and is no number that the bytes behind the text continue; then every terminator is written inside its buffer if and only if no string or key has a length of 64 times a power of two |
| JsonCode.Builder.AppendQuoted | src/json.c:1026-1034 | appends exactly the escaped string between quotes |
| JsonCode.Builder.AppendValue | src/json.c:1077-1099 | appends exactly the printed text of the tree |
| JsonCode.SerialiseThenParse | src/json.c:648-667 | the serializer followed by the parser is the identity on every tree of plain strings and exact integers, whatever bytes that continue no number stand behind the text; every write stays inside if and only if no string or key of the tree has a length of 64 times a power of two |
| Csv.ReadDoubled | src/csv.c:47-65 | reading a text with its quotes doubled gives the text back and goes on behind it |
| Csv.ReadWritten | src/csv.c:69-75 | a written field followed by a delimiter or the end is read back |
| Csv.RoundTripIff | src/csv.c:91-241 | for every non-empty record, parsing the printed text gives the fields back if and only if the delimiter is not the quote or no field but the last needs quoting |
| Csv.QuoteDelimiterLoses | src/csv.c:47-65 | an empty field and "a" with the quote as delimiter come back as one field |
| Csv.CellRead | src/csv.c:47-75 | a field that stands bare, quoted or in quotes the line does not close, in front of anything that may follow it, is read as its content |
| Csv.CellSound | src/csv.c:47-75 | the front of every text is such a field |
| Csv.ParseIff | src/csv.c:91-149 | for every text and delimiter, the fields returned are the contents of the cells the line consists of, up to the first character that neither continues nor delimits a field |
| Csv.PlainLine | src/csv.c:69-75 | a line without quotes is cut at its delimiters: its fields hold none, joined by the delimiter they are the line, and nothing behind a line feed or carriage return is read |
| Csv.WrittenBareIff | src/csv.c:169-213 | a field is written as it is if and only if it is not empty, has no blank at either end and holds no delimiter, quote or line end; else in quotes, each quote doubled |
| Csv.CheckQuoting | src/csv.c:169-181 | the scan decides exactly whether a field is empty, has a blank edge or holds a special character |
| Csv.FieldLength | src/csv.c:184-194 | the length pass equals the bytes the write pass emits for a field |
| Csv.WriteField | src/csv.c:197-213 | writes exactly the field's text at the position and nothing before it |
| Csv.RecordLength | src/csv.c:220-225 | the length pass equals the bytes of the whole record plus the terminator |
| Csv.Serialise | src/csv.c:215-241 | the buffer is filled exactly, to the last byte, with the record and its terminator |
| Csv.ScanQuoted | src/csv.c:47-65 | the loop computes the recursive reader of a quoted field |
| Csv.ScanUnquoted | src/csv.c:69-75 | the loop computes the recursive reader of a plain field |
| Csv.ParseRecord | src/csv.c:91-149 | the loop computes the record reader that Csv.ParseIff describes |
| QuickSort.MedianOfThree | src/sort.c:82-90 | the three probe slots end up in order, and only the range is rearranged |
| QuickSort.FirstSwap | src/sort.c:98-107 | after the swap that overwrites the pivot slot, both scanned parts are on the right side of the new pivot |
| QuickSort.Partition | src/sort.c:92-108 | returns lo <= p < hi with every element up to p at most every element behind it, rearranging only the range |
| QuickSort.Quicksort | src/sort.c:110-122 | the range is sorted and only the range is rearranged; the recursion ends |
| QuickSort.SortQuick | src/sort.c:124-128 | a sorted permutation, for every total preorder and every length |
| MergeSort.MergedClass | src/sort.c:24-52 | merging keeps the order among equals: left ones first, then right ones |
| MergeSort.MergedSorted | src/sort.c:24-52 | merging sorted runs gives a sorted run |
| MergeSort.MergedMultiset | src/sort.c:24-52 | merging loses and invents nothing |
| MergeSort.SortedByCorrect | src/sort.c:54-61 | the recursion gives a sorted stable permutation |
| MergeSort.Merge | src/sort.c:24-52 | the loops over the scratch buffer leave exactly the merge of the two halves in place |
| MergeSort.MergeSortRange | src/sort.c:54-61 | the range holds the result of the recursion; outside it nothing changes |
| MergeSort.SortStable | src/sort.c:204-218 | a sorted, stable permutation; without a scratch buffer an error and no change |
| HeapOrder.SiftedUp | src/heap.c:51-65 | one swap upward moves the only possible violation to the parent |
| HeapOrder.SiftedDown | src/heap.c:68-92 | one swap with the larger child moves the only possible violation down |
| HeapOrder.RootIsMax | src/heap.c:192-211 | heap order makes the root a maximum of all elements |
| Heap.GrowthEndsIff | src/heap.c:109-117 | growing by half reaches the demand if and only if it does not start at 1 below it |
| Heap.SecondPushNeverGrows | src/heap.c:109-117 | a heap of capacity 1 holding one element asks for 2, which no number of growth steps reaches |
| Heap.Heap.SiftUp | src/heap.c:51-65 | repairs heap order after an append and keeps the multiset; the loop ends |
| Heap.Heap.SiftDown | src/heap.c:68-92 | extends heap order to one more node and keeps the multiset; the loop ends |
| Heap.Heap.Grow | src/heap.c:109-117 | reaches the demanded capacity, growing by half or to 8 for one more element, and keeps every element; a failed allocation changes nothing |
| Heap.Heap.Push | src/heap.c:171-190 | adds the element and keeps heap order; a failed growth changes nothing |
| Heap.Heap.Pop | src/heap.c:192-211 | removes a maximum and nothing else |
| Heap.Heap.Build | src/heap.c:258-283 | any array becomes a heap of exactly its elements; a failed growth changes nothing |
| Heap.Heap.Heapify | src/heap.c:276-281 | the bottom-up loop establishes heap order and keeps the multiset |
| Heap.Heap.Drain | src/heap.c:192-211 | popping until empty yields all elements in non-increasing rank |
| GraphSpec.StepCounts | src/graph.c:258-437 | every mutation keeps the arcs between active vertices, undirected arcs symmetric, and the counter's exact distance from the number of edges |
| GraphSpec.AddEdgeEffect | src/graph.c:342-389 | adding an edge between two vertices adds that arc, with its reverse in an undirected graph, and no other; the number of edges grows by one exactly if it was not there; otherwise nothing changes |
| GraphSpec.RemoveEdgeEffect | src/graph.c:397-437 | removing an edge leaves exactly the other arcs, without the reverse one in an undirected graph; the number of edges drops by one exactly if it was there |
| GraphSpec.RemoveVertexEffect | src/graph.c:295-332 | removing a vertex leaves exactly the other vertices and the arcs that do not touch it; the number of edges drops by those at it |
| GraphSpec.AddVertexEffect | src/graph.c:258-286 | adding a vertex adds the lowest number that is none, and no arc; full arrays grow by half, rounded down |
| GraphSpec.UndirectedRemoval | src/graph.c:311-320 | in an undirected graph the out-degree is the number of edges that go, self-loops included |
| GraphSpec.DirectedRemoval | src/graph.c:311-320 | in a directed graph out-degree plus in-degree exceeds the edges that go by one exactly for a self-loop |
| GraphSpec.RunCounts | src/graph.c:258-437 | after every run the counter is the number of edges minus the self-looped removals, modulo 2^64 |
| GraphSpec.CountExactIff | src/graph.c:258-437 | after every run the counter is right if and only if those removals are 0 modulo 2^64 |
| GraphSpec.RemovalExactIff | src/graph.c:295-332 | one removal keeps a right counter right if and only if the graph is undirected or the vertex has no self-loop |
| GraphSpec.SelfLoopUnderflows | src/graph.c:295-332 | removing a lone directed self-looped vertex leaves the counter at 2^64 - 1 |
| GraphSpec.UsedIsSegment | src/graph.c:258-286 | after every run the numbers handed out so far are 0 to m - 1 for some m |
| GraphSpec.NumberReusedIff | src/graph.c:258-286 | after every run the next number was in use before if and only if some number handed out earlier is free |
| GraphSpec.NumberHandedOutTwice | src/graph.c:258-332 | add, remove, add hands out number 0 twice |
| GraphLists.PurgedArcs | src/graph.c:313-327 | purging every list of a vertex and emptying its own removes exactly the arcs at it |
| Graph.Create | src/graph.c:168-208 | NULL exactly on a failed allocation, else no vertex, no arc, counter 0 and all slots tombstones |
| Graph.Graph.GrowVertices | src/graph.c:64-111 | new tombstones behind the old slots; vertices and arcs unchanged |
| Graph.Graph.AddVertex | src/graph.c:258-286 | the lowest free number becomes a vertex and full arrays grow by half; without memory nothing changes; the write leaves the array exactly when a single, occupied slot grows, and then the vertex is counted all the same |
| Graph.SecondVertexOverruns | src/graph.c:258-286 | the second vertex of a graph of capacity 1 is written outside its array, and the count is 2 |
| Graph.GrowthMakesRoomIff | src/graph.c:48-51 | growth by half adds a slot if and only if the capacity is not 1 |
| Graph.Graph.HasEdge | src/graph.c:447-465 | true exactly for the arcs, false for vertices that are not there |
| Graph.Graph.Append | src/graph.c:124-136 | the neighbour is appended, growing a full list by half from 8; a failed growth changes nothing |
| Graph.Graph.LinkNew | src/graph.c:360-388 | adds the arc and its reverse and one to the counter; a failed growth of either list leaves lists and counter as before |
| Graph.Graph.AddEdge | src/graph.c:342-389 | refuses inactive ends, ignores an existing edge, else adds the edge, or changes nothing exactly when a full list gets no memory; after OK the edge is there, both ways in an undirected graph |
| Graph.Graph.RemoveEdge | src/graph.c:397-437 | removes the edge in both directions and one from the counter, or changes nothing; afterwards there is no such edge |
| Graph.Graph.RemoveFromList | src/graph.c:144-157 | every occurrence goes, the others keep their order, and a directed counter drops by their number modulo 2^64 |
| Graph.Graph.RemoveVertex | src/graph.c:295-332 | removes the vertex and exactly the arcs at it, so that no arc touches it afterwards; the counter loses the out-degree and, if directed, the in-degree |
| Graph.Graph.Clear | src/graph.c:543-563 | no vertex, no arc, counter 0, capacity unchanged |
| Graph.Execute | src/graph.c:258-563 | every run of mutations from any initial capacity follows the specification step by step, results and allocation flags included, up to its end or the first overrun |
| GraphSearch.NearQueued | src/graph.c:604-620 | once everything nearer is dequeued, every vertex with a walk of at most d arcs is in the queue |
| GraphSearch.UnseenDistance | src/graph.c:612-619 | an unvisited neighbour of the dequeued vertex is exactly one arc further away |
| GraphSearch.Discover | src/graph.c:613-619 | enqueuing it keeps the queue sorted by distance and free of duplicates |
| GraphSearch.VisitedInOrder | src/graph.c:604-610 | at every visit the order so far is breadth-first, and every strictly nearer vertex has been visited |
| GraphSearch.AllVisited | src/graph.c:604-620 | an empty queue means every reachable vertex was visited |
| Graph.RoomForOneMore | src/graph.c:589-601 | distinct entries never outgrow an array of vertex_capacity slots |
| Graph.Graph.Enqueue | src/graph.c:612-619 | all unvisited neighbours are enqueued within the array, and the traversal invariant moves on to the next entry |
| Graph.Graph.Bfs | src/graph.c:573-625 | visits each vertex once, in non-decreasing shortest-path distance, only reachable ones, and all of them unless the callback stops it |
| Graph.Graph.Dfs | src/graph.c:633-684 | visits in exactly the order of the stack specification, each vertex once, only reachable ones, and all of them unless the callback stops it; the stack never outgrows its array |
| GraphDepth.OrderIsReachable | src/graph.c:659-680 | the specified order starts at the start vertex, visits each reachable vertex exactly once and nothing else, within as many turns as slots |
| GraphDepth.DepthFirstIff | src/graph.c:659-680 | on every graph the order is depth-first, each visit going on from the latest vertex with an unvisited neighbour, if and only if no vertex is popped while one touched by a later visit waits |
| GraphDepth.CheckDepthFirst | src/graph.c:659-680 | decides before the traversal whether its order will be depth-first |
| GraphDepth.PassedNoneIsDepthFirst | src/graph.c:671-679 | the order is depth-first whenever no expansion meets a neighbour that waits on the stack |
| GraphDepth.OnePathIsDepthFirst | src/graph.c:659-680 | the order is depth-first on every graph, directed or not, with at most one simple path from the start to each vertex |
| GraphDepth.EnteredOnceIsDepthFirst | src/graph.c:659-680 | the order is depth-first when no reachable vertex but the start is entered from two reachable ones |
| GraphDepth.NotDepthFirst | src/graph.c:659-680 | with arcs 0 to 1, 2, 3 and 1 to 3 the visits are 0, 1, 2, 3, which is no depth-first order |

## Left out

- LruSpec.HoldsMostRecentlyUsed: is about runs without removals, because a removal frees a place that the code does not refill with an evicted key; with removals see LruSpec.HoldsLastPut, LruSpec.RecencyOrder and LruCache.Execute.
- HashMap.Map.Get: requires that the probe ends, by the exact condition of HashMap.LookupEndsIff; so do Contains and Remove.
- Heap.Heap.Push: requires that growing makes progress, by the exact condition of Heap.GrowthEndsIff; a build that needs to grow asks for its size at once and has no such condition.
- UsableArena.UsableArena.Free: for a free left neighbour it states the merged tags and the broken list, and nothing about later allocations from that list.
- ArenaBitmap.Arena.Acquire: for a region too small for one header and footer it states which blocks are taken, and nothing about the handle and the tags written outside.
- UsableArena.UsableArena.constructor: requires room for one header and footer; smaller regions are reported by ArenaBitmap.Arena.Acquire.
- UsableArena.UsableArena.Allocate: for a request whose sum overflows it states the block that is claimed, and nothing about the tags then written over each other.
- ArenaBitmap.Arena.Release: requires that the addresses the walk reaches hold headers, right or wrong; arbitrary bytes are not read as headers.
- LruCache.Create: promises nothing about a cache whose arrays come out short because their size in bytes overflows; sizes of keys and values are not counted.
- LruCache.Execute: takes the arrays at their full size, which LruCache.LongEnough gives up to 2^58 nodes.
- HashMap.Create: promises nothing about a map whose rounded capacity is 0.
- Graph.Execute: claims nothing about a run after a vertex was written outside its array.
- Spsc.EveryRunIsFifo: assumes sequentially consistent memory and a power-of-two capacity of at most 2^31; weak-memory effects are not modelled.
- ThreadPool.ShutdownDrains: is about workers only; producers still blocked when the pool is destroyed are not woken by the code. Failed worker creation and the Win32 branches are not modelled, and jobs do not enqueue further jobs from inside a worker.
- JsonCode.Parser.ParseString: says when the terminator falls outside the buffer, and nothing about what that write damages.
- JsonRoundTrip.RoundTrip: strings hold bytes other than NUL and numbers are integers up to 2^53 in magnitude; a fraction or exponent is kept as its text, since strtod and snprintf are foreign code. strtod is taken in the C locale.
- Sizes are unbounded naturals except in the rounding functions, the ring's counters, the block size of a sub-allocation and the graph's edge counter. Table capacities are bounded by half the range of size_t, and products of a count and an element size are not modelled.
- NULL arguments, element sizes in bytes and the copying of element bytes (except in the ring) are not modelled; keys, values and elements are values of a type.
- Allocation failure inside the CSV and JSON parsers and the JSON serializer, and NUL as a CSV delimiter.
- The bytes of arena payloads: a header overwritten by its caller is outside the model, and so is the alignment of the region's start.
- Eviction callbacks are modelled by the list of entries handed to them, in order.
- Binary search, lower and upper bound, map iteration, graph neighbour copies, heap peek and reserve, JSON document editing: they would add only easy members.
- src/set.c repeats src/map.c without values; the thin wrappers (stack, queue, string, vector, ring, pool, bitset), the codecs (hex, base64, uri), semver, deque, trie, bloom and everything that calls the operating system are not modelled.
