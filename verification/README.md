# RT-Thread 4.0.0 kernel and Kconfig engine: verified model

A Dafny model of the single-core RT-Thread 4.0.0 kernel (`RT_USING_SMP` off, signals off, 32-bit machine,
`RT_ALIGN_SIZE` 4) and of the expression and cache engine of its Kconfig tool, with proofs about every
reachable state. Each interrupt-disabled region is one step.

| files | what they model |
|---|---|
| RtDef, Bits | alignment, 32-bit arithmetic, C's bitwise operators bit by bit |
| RtList | the intrusive circular list |
| Tiling, MemHeapModel, MemHeapCalls, MemHeap | the memory heap with two lists through the same headers |
| SmallMemModel, SmallMemCalls, SmallMem | the offset-linked first-fit heap |
| PageRuns, PageHeap, SlabModel, SlabAlign, SlabCalls, Slab | the page allocator, the zones above it, and the alignment of what they give out |
| TimerModel, TimerRows, TimerList, TimerLoop, TimerRuns | the timer skip list, its check and when that ends, and whole runs of ticks |
| ReadyIndex, SchedModel, SchedCalls, Scheduler | the bitmaps over the ready lists, the scheduler and the thread states |
| IpcList, MutexModel, MutexNesting, MutexHolds, Mutexes | wait lists, mutexes with priority inheritance, nested and held more than once |
| SemaphoreModel, Semaphores | semaphores |
| MailboxModel, Mailboxes | mailboxes |
| MsgQueueModel, MsgQueues | message queues with copies outside the critical sections |
| EventModel, Events | event sets |
| KconfigExpr, KconfigGrammar, KconfigParser | Kconfig expressions, printing and parsing, and the grammar |
| KconfigCacheModel, KconfigValues, KconfigCache, KconfigLoop, KconfigEnds | symbol values, their caches and invalidation, loop search, and when evaluation ends |

A component comes in two parts. The `...Model` module has the state as a value, the operations as functions on
it, the invariant, and the theorems over runs. The other module has a class with the fields of the source, changed
in place by methods with the source's loops and branches; each method is proved to make the step of the model.
What a step comes to for its caller, outcome by outcome and with all that stays the same, is said without the
model's own definitions: in the `...Calls` modules, in MutexHolds, TimerRuns and KconfigValues, and in the lemmas named
`...ComesTo`.

Where the code does not do what one would expect, the model follows the code, and lemmas give an input and the
exact condition: the strict size comparison of the memory heap and the 32-bit sum in its realloc, the strict loop
bound and the `lfree` hint of the small heap and its search on heaps too small for a block, priority inheritance with
FIFO mutexes and with nested mutexes, where both a release and a take can lose it, wait lists after a priority change,
and the timer check with periodic timers of zero ticks. Twice the source promises more than its code does: slab.c says
that all power-of-two sizes are aligned to their size, which holds exactly up to a page (and its malloc(0) returns
RT_NULL, against the same comment); and the loop search of kconfiglib.py does not see that tristate symbols read
MODULES, so evaluation may not end where it finds nothing.

## Model

| member | source | states |
|---|---|---|
| `RtList.RingInsert` | rt-thread-4.0.0/include/rtservice.h:58-65 | inserting behind a node of a circular list gives the circular list with that node there, whatever the links of other nodes are |
| `RtList.RingBypass` | rt-thread-4.0.0/include/rtservice.h:86-92 | bypassing a node gives the circular list of the other nodes in the same order |
| `RtList.InsertThenRemove` | rt-thread-4.0.0/include/rtservice.h:58-92 | removing a node that was just inserted gives back the same circle, link by link |
| `RtList.RingFrame` | rt-thread-4.0.0/include/rtservice.h:47-118 | links of nodes outside a list do not matter to it |
| `RtList.Links.Init` | rt-thread-4.0.0/include/rtservice.h:47-50 | an initialised node is a circle of its own |
| `RtList.Links.InsertAfter` | rt-thread-4.0.0/include/rtservice.h:58-65 | the four link updates of the source are the insertion |
| `RtList.Links.InsertBefore` | rt-thread-4.0.0/include/rtservice.h:73-80 | insertion before a node is insertion behind its predecessor |
| `RtList.Links.Remove` | rt-thread-4.0.0/include/rtservice.h:86-92 | the removed node is bypassed and closed on itself |
| `RtList.Links.IsEmpty` | rt-thread-4.0.0/include/rtservice.h:98-101 | true exactly if the head is the only node |
| `RtList.Links.Len` | rt-thread-4.0.0/include/rtservice.h:107-118 | the number of nodes without the head |
| `RtDef.AlignUpCovers` | rt-thread-4.0.0/include/rtdef.h:286-286 | rounding up in 32 bits covers the size if and only if it does not wrap |
| `MemHeapModel.RequestCovers` | rt-thread-4.0.0/src/memheap.c:148-150 | the payload looked for covers the request if and only if rounding it up does not leave 32 bits |
| `MemHeapModel.InitInv` | rt-thread-4.0.0/src/memheap.c:50-121 | the initialised pool satisfies the invariant |
| `MemHeapModel.AllocInv` | rt-thread-4.0.0/src/memheap.c:138-281 | allocation, with and without split, keeps the tiling, the free list as exactly the unused blocks once each, no two unused neighbours, and `available_size` as the sum of the unused payloads |
| `MemHeapModel.FreeInv` | rt-thread-4.0.0/src/memheap.c:495-595 | release, with or without merging to either side, keeps the same invariant |
| `MemHeapModel.ReallocInv` | rt-thread-4.0.0/src/memheap.c:284-492 | for every 32-bit size, realloc (grow into the next block, shrink with or without merge, move, refuse) keeps it if and only if it does not grow a block on a test whose sum `newsize + RT_MEMHEAP_MINIALLOC` has wrapped around |
| `MemHeapModel.ReallocOverflows` | rt-thread-4.0.0/src/memheap.c:350-350 | one allocation in a fresh pool and a realloc to `2^32 - 12` bytes, after which the invariant does not hold |
| `MemHeapModel.StepMarks` | rt-thread-4.0.0/src/memheap.c:231-242 | `max_used_size` never decreases and `pool_size` never changes, on any call, a realloc whose test overflows included |
| `MemHeapModel.StepInv` | rt-thread-4.0.0/src/memheap.c:138-595 | a call keeps the invariant if and only if it is no realloc that grows a block on an overflowed test |
| `MemHeapModel.RunInv` | rt-thread-4.0.0/src/memheap.c:138-595 | over a run of alloc, free and realloc the invariant has held all along if and only if no realloc has overflowed; until then `max_used_size` is a growing bound on `pool_size - available_size` |
| `MemHeapModel.PoolIsTheSum` | rt-thread-4.0.0/src/memheap.c:63-108 | `pool_size` is the sum over all items of header and payload, the tailer's payload being 0 |
| `MemHeapModel.AllocSucceeds` | rt-thread-4.0.0/src/memheap.c:155-177 | allocation succeeds if and only if the request is strictly below `available_size` and some unused block holds it |
| `MemHeapModel.WholePoolRefused` | rt-thread-4.0.0/src/memheap.c:155-155 | the strict comparison refuses a request for all that is available even from a pool in one piece |
| `MemHeapModel.AllocResult` | rt-thread-4.0.0/src/memheap.c:138-281 | what is returned was unused before, is used after and has the requested payload; a failure changes nothing |
| `MemHeapModel.ReallocResult` | rt-thread-4.0.0/src/memheap.c:284-492 | unless that test overflows, a failing realloc changes nothing, and a succeeding one returns a used block with the requested payload |
| `MemHeapModel.StepSameBlock` | rt-thread-4.0.0/src/memheap.c:138-595 | a call, a realloc whose test overflows included, leaves every used block it was not given in place with its extent |
| `MemHeapModel.AllocExact` | rt-thread-4.0.0/src/memheap.c:138-281 | a successful allocation puts exactly one more block into use |
| `MemHeapModel.FreeExact` | rt-thread-4.0.0/src/memheap.c:495-595 | a release takes exactly the given block out of use |
| `MemHeapCalls.InitComesTo` | rt-thread-4.0.0/src/memheap.c:50-121 | a new pool is the largest aligned one that fits, one unused block, all but two headers available |
| `MemHeapCalls.AllocComesTo` | rt-thread-4.0.0/src/memheap.c:138-281 | allocation takes the first block of the free list that holds the request and cuts it to the request exactly, unless the rest would not hold a header and 12 bytes; the rest comes first in the free list; `max_used_size` follows |
| `MemHeapCalls.FreeComesTo` | rt-thread-4.0.0/src/memheap.c:495-595 | a released block comes first in the free list, unless an unused left neighbour takes it in and keeps its place; an unused right neighbour leaves the list |
| `MemHeapCalls.ReallocComesTo` | rt-thread-4.0.0/src/memheap.c:284-492 | unless it overflows, realloc fails if and only if the request exceeds the payload, the right neighbour is used or too short, and the request is not below `available_size` or no unused block holds it; it stays in place if and only if it fits or grows; otherwise the old block leaves use and only the new one joins |
| `MemHeapCalls.ReallocInPlace` | rt-thread-4.0.0/src/memheap.c:306-490 | how long a block is that stays: the request exactly if it grew or was cut, as before otherwise; what lies behind it comes first in the free list |
| `MemHeapCalls.ReallocMoves` | rt-thread-4.0.0/src/memheap.c:408-418 | a move is an allocation like any other followed by a release like any other |
| `MemHeapCalls.ReallocEdges` | rt-thread-4.0.0/src/memheap.c:294-310 | no bytes wanted is a release, no block given an allocation |
| `MemHeap.Pool.constructor` | rt-thread-4.0.0/src/memheap.c:50-121 | the linked headers and list heads form the initial pool |
| `MemHeap.Pool.Alloc` | rt-thread-4.0.0/src/memheap.c:138-281 | both circular lists, the used marks and the counters after the pointer updates are those of the allocated model state, and every byte in use is kept |
| `MemHeap.Pool.Free` | rt-thread-4.0.0/src/memheap.c:495-595 | the relinked headers are those of the released model state |
| `MemHeap.Pool.Realloc` | rt-thread-4.0.0/src/memheap.c:284-492 | unless the test overflows, the headers are those of the model state; the first min(old, new) payload bytes are found at the result; all bytes of other used blocks are kept; on failure all bytes are |
| `MemHeap.Pool.CutDown` | rt-thread-4.0.0/src/memheap.c:421-490 | the shrinking path, with the cut-off part merged into an unused right neighbour or put on the free list |
| `MemHeap.Pool.GrowInto` | rt-thread-4.0.0/src/memheap.c:320-398 | the growing path into an unused right neighbour |
| `SmallMemModel.StepInv` | rt-thread-4.0.0/src/mem.c:272-609 | malloc, free and realloc keep the tiling, no two adjacent free blocks, `lfree` a free block or `heap_end`, and `used_mem` |
| `SmallMemModel.RunInv` | rt-thread-4.0.0/src/mem.c:204-609 | every reachable state satisfies that invariant |
| `SmallMemModel.UsedIsTheExtent` | rt-thread-4.0.0/src/mem.c:340-366 | `used_mem` is the total extent, headers included, of the used blocks |
| `SmallMemModel.RunHintLowest` | rt-thread-4.0.0/src/mem.c:272-609 | `lfree` has been the lowest free block all along a run if and only if no realloc of it has cut a block down below `lfree` |
| `SmallMemModel.StepHint` | rt-thread-4.0.0/src/mem.c:272-609 | a call, on any path, keeps `lfree` the lowest free block if and only if it is not a realloc that cuts a used block down below `lfree` without the cut-off part merging with the block `lfree` names |
| `SmallMemModel.MallocIsFirst` | rt-thread-4.0.0/src/mem.c:305-409 | malloc returns the lowest free block of sufficient payload from `lfree` on and below the loop bound, and fails if and only if there is none |
| `SmallMemModel.MallocIsLowest` | rt-thread-4.0.0/src/mem.c:305-409 | with `lfree` lowest, that is the lowest such block of all |
| `SmallMemModel.MallocResult` | rt-thread-4.0.0/src/mem.c:272-410 | what malloc returns was free before, is the one more block in use after, and has the requested payload; a failure changes nothing |
| `SmallMemModel.FreeResult` | rt-thread-4.0.0/src/mem.c:546-609 | free takes exactly the given block out of use |
| `SmallMemModel.ReallocResult` | rt-thread-4.0.0/src/mem.c:421-510 | a failing realloc changes nothing; a succeeding one returns a used block of the wanted size and releases the old one if it moved |
| `SmallMemModel.StepSameBlock` | rt-thread-4.0.0/src/mem.c:272-609 | a call leaves every used block that it was not given in place with its extent |
| `SmallMemModel.MallocMisses` | rt-thread-4.0.0/src/mem.c:305-311 | malloc fails although a free block holds the request if and only if every such block lies below `lfree`, or is the last one and the request fits it exactly |
| `SmallMemModel.WholeHeapRefused` | rt-thread-4.0.0/src/mem.c:305-311 | a fresh heap in one piece refuses a request for its whole payload |
| `SmallMemModel.SearchEnds` | rt-thread-4.0.0/src/mem.c:305-307 | on every heap that satisfies the invariant the search of malloc ends, its 32-bit bound included |
| `SmallMemModel.TinyHeap` | rt-thread-4.0.0/src/mem.c:299-307 | on a heap with less than 12 bytes beside the headers malloc never returns if and only if the rounded request is at most these bytes, because the bound wraps around |
| `SmallMemModel.ShrinkHint` | rt-thread-4.0.0/src/mem.c:471-498 | a shrinking realloc keeps `lfree` lowest if and only if the cut-off part does not lie below it, or merges with the block that `lfree` names |
| `SmallMemModel.ReallocLosesTheHint` | rt-thread-4.0.0/src/mem.c:471-498 | a run of three calls from initialisation after which `lfree` is not the lowest free block |
| `SmallMemCalls.MallocFailsWhen` | rt-thread-4.0.0/src/mem.c:272-409 | malloc fails if and only if nothing is asked for, more than the heap, or no block from `lfree` on serves |
| `SmallMemCalls.MallocComesTo` | rt-thread-4.0.0/src/mem.c:311-366 | the block is cut to the request exactly unless the rest would not hold a header and 12 bytes; `used_mem` and `max_mem` follow |
| `SmallMemCalls.FreeComesTo` | rt-thread-4.0.0/src/mem.c:546-609 | `used_mem` loses the extent; `lfree` goes to the merged block if the released one lies below it or takes it in, and stays otherwise |
| `SmallMemCalls.ReallocComesTo` | rt-thread-4.0.0/src/mem.c:421-510 | realloc stays in place if and only if the size is the same, or smaller by more than a header and 12 bytes; to any other size, a slightly smaller one included, it moves, and fails if and only if malloc does; lengths, `used_mem` and what is in use after |
| `SmallMemCalls.ReallocEdges` | rt-thread-4.0.0/src/mem.c:421-463 | too much is refused, no bytes wanted is a release, no block given an allocation, an address outside comes back |
| `SmallMem.SmallHeap.constructor` | rt-thread-4.0.0/src/mem.c:204-257 | the two initial headers are the initial model state, which satisfies the invariant from 12 bytes beside the headers on |
| `SmallMem.SmallHeap.Malloc` | rt-thread-4.0.0/src/mem.c:272-410 | the offset-linked headers after the search and the split are those of the model state, `prev` inverts `next` except at `heap_end`, and every byte in use is kept |
| `SmallMem.SmallHeap.Free` | rt-thread-4.0.0/src/mem.c:546-609 | the headers after the release are those of the model state |
| `SmallMem.SmallHeap.PlugHoles` | rt-thread-4.0.0/src/mem.c:156-194 | merging to both sides on the links is the merge of the model |
| `SmallMem.SmallHeap.Realloc` | rt-thread-4.0.0/src/mem.c:421-510 | the headers after any path are those of the model state; the first min(old, new) payload bytes are found at the result; all bytes of other used blocks are kept; on failure all bytes are |
| `PageRuns.CanonUnique` | rt-thread-4.0.0/src/slab.c:236-322 | the sorted list of maximal free runs is determined by the set of free pages |
| `PageRuns.FreeSpec` | rt-thread-4.0.0/src/slab.c:272-322 | freeing pages in use keeps the list sorted and maximal and frees exactly those pages |
| `PageRuns.AllocSpec` | rt-thread-4.0.0/src/slab.c:236-270 | a successful allocation takes exactly the returned pages, which were free, and keeps the list sorted and maximal |
| `PageRuns.AllocFails` | rt-thread-4.0.0/src/slab.c:236-270 | allocation fails if and only if no `npages` pages in a row are free |
| `PageRuns.AllocLowest` | rt-thread-4.0.0/src/slab.c:236-270 | what is taken are the lowest `npages` free pages in a row |
| `PageRuns.FreeUndoesAlloc` | rt-thread-4.0.0/src/slab.c:236-322 | freeing what was just allocated restores the identical list |
| `PageHeap.PageList.Alloc` | rt-thread-4.0.0/src/slab.c:236-270 | the search and relinking through `prev` is the allocation of the model |
| `PageHeap.PageList.Free` | rt-thread-4.0.0/src/slab.c:272-322 | the search, merging and relinking is the release of the model |
| `SlabModel.ZoneIndexIsBest` | rt-thread-4.0.0/src/slab.c:401-459 | the size class chosen is the smallest whose chunks hold the request, for every request below 16384 |
| `SlabAlign.ChunkAligned` | rt-thread-4.0.0/src/slab.c:631-642 | a chunk of any power-of-two size is aligned to its size if and only if its zone is |
| `SlabAlign.PageAligned` | rt-thread-4.0.0/src/slab.c:152-153 | a page address is aligned to a power of two if and only if that is at most a page or divides the page number in pages |
| `SlabAlign.MallocAligned` | rt-thread-4.0.0/src/slab.c:152-153 | what malloc returns for a power-of-two size, chunk or block of pages, is aligned to it if and only if the size is at most a page or the zone or block starts at a multiple of its pages |
| `SlabAlign.MisalignedFirst` | rt-thread-4.0.0/src/slab.c:152-153 | for every power of two above a page, the first block of that size in a fresh heap just large enough is not aligned to it |
| `SlabAlign.AlignedExactly` | rt-thread-4.0.0/src/slab.c:152-153 | the power-of-two sizes that malloc aligns in all heaps are exactly those up to a page |
| `SlabModel.NewHeaderOk` | rt-thread-4.0.0/src/slab.c:625-652 | a new zone lies in its pages behind its header, with `z_nfree = z_nmax - 1` and only chunk 0 live |
| `SlabModel.TakeChunkOk` | rt-thread-4.0.0/src/slab.c:539-568 | the chunk given out was not live, becomes live, and no other chunk changes; `z_nfree = z_nmax - 1 - z_uindex + length(z_freechunk)` is kept |
| `SlabModel.PutChunkOk` | rt-thread-4.0.0/src/slab.c:830-846 | a returned chunk stops being live and no other chunk changes |
| `SlabModel.UnusedZone` | rt-thread-4.0.0/src/slab.c:854-855 | a zone with `z_nfree == z_nmax` has no live chunk |
| `SlabModel.BtokupFindsTheZone` | rt-thread-4.0.0/src/slab.c:219-220 | the page table recovers the zone from the address of any byte of a live chunk |
| `SlabModel.BtokupFindsTheBlock` | rt-thread-4.0.0/src/slab.c:797-811 | it tells a live block of pages from a chunk and knows its number of pages |
| `SlabModel.ObjectsApart` | rt-thread-4.0.0/src/slab.c:478-667 | what callers hold never overlaps: two live objects at different addresses share no byte, and an address has one size |
| `SlabModel.MallocOk` | rt-thread-4.0.0/src/slab.c:478-667 | malloc keeps the invariant, hands out bytes that nobody held, at least as many as asked for, and changes nothing when it fails |
| `SlabModel.MallocFails` | rt-thread-4.0.0/src/slab.c:539-605 | a small request fails if and only if no zone of its class has a free chunk, no zone is cached and no zone's worth of pages lies free in one piece |
| `SlabModel.FreeObjectOk` | rt-thread-4.0.0/src/slab.c:771-904 | free finds the zone or block of what is held at the address, takes exactly that object back and keeps the invariant, through the cache and the release of zones |
| `SlabModel.InitInv` | rt-thread-4.0.0/src/slab.c:344-395 | the initial heap satisfies the invariant whatever the page table contains at first, and nobody holds anything |
| `SlabModel.StepOk` | rt-thread-4.0.0/src/slab.c:478-904 | a call keeps the invariant and agrees with the caller's own record of what it holds |
| `SlabModel.RunOk` | rt-thread-4.0.0/src/slab.c:344-904 | after any run from initialisation the heap holds exactly what its callers hold by their own count |
| `SlabCalls.ZonePagesIs` | rt-thread-4.0.0/src/slab.c:375-383 | the zone size that initialisation picks |
| `SlabCalls.MallocPagesFails` | rt-thread-4.0.0/src/slab.c:490-507 | a request of the zone limit or more fails if and only if rounding it up leaves 32 bits or so many pages in a row are not free |
| `SlabCalls.NewZoneIsFull` | rt-thread-4.0.0/src/slab.c:642-642 | a new zone has as many chunks as fit behind its header |
| `SlabCalls.ChunksInOrder` | rt-thread-4.0.0/src/slab.c:539-568 | the chunks of a new zone are given out in the order of their addresses |
| `SlabCalls.LastBackFirst` | rt-thread-4.0.0/src/slab.c:539-568 | once all have been given out, the one that came back last goes first |
| `SlabCalls.NoneLive` | rt-thread-4.0.0/src/slab.c:854-855 | `z_nfree == z_nmax` if and only if the zone has no live chunk |
| `SlabCalls.FreeChunkComesTo` | rt-thread-4.0.0/src/slab.c:830-904 | a zone is put aside if and only if its last live chunk comes back and another zone of its class has a free chunk, and given back to the pages if two are put aside already; otherwise no zone and no page comes or goes |
| `SlabCalls.RunAccounted` | rt-thread-4.0.0/src/slab.c:344-904 | in no run is a page lost: each one behind the page table is free, in a zone, or in a block that a caller holds |
| `Slab.FindClass` | rt-thread-4.0.0/src/slab.c:401-459 | the nested tests of the source compute the class and chunk size of the model |
| `Slab.SlabHeap.constructor` | rt-thread-4.0.0/src/slab.c:344-395 | initialisation, with the loop that picks the zone size |
| `Slab.SlabHeap.Malloc` | rt-thread-4.0.0/src/slab.c:478-667 | the updates in place are the allocation of the model, and keep the heap valid |
| `Slab.SlabHeap.Free` | rt-thread-4.0.0/src/slab.c:771-904 | the updates in place are the release of the model, and keep the heap valid |
| `TimerModel.SeenLaterExact` | rt-thread-4.0.0/src/timer.c:360-367 | the comparison of 32-bit ticks recognises a later deadline if and only if it is less than `RT_TICK_MAX/2` ahead |
| `TimerModel.SeenDueExact` | rt-thread-4.0.0/src/timer.c:515-515 | the comparison recognises a due timer if and only if it is less than `RT_TICK_MAX/2` late |
| `TimerModel.StableInsertSorted` | rt-thread-4.0.0/src/timer.c:350-370 | stable insertion by unbounded deadline keeps a row in order of deadline and then of start |
| `TimerModel.PlaceSplits` | rt-thread-4.0.0/src/timer.c:341-372 | the place of a deadline separates the timers due by then from the later ones |
| `TimerModel.SortedUnique` | rt-thread-4.0.0/src/timer.c:296-396 | a row is determined by the timers in it |
| `TimerModel.SubsetIsSubsequence` | rt-thread-4.0.0/src/timer.c:296-396 | a row with fewer timers is a subsequence of the other |
| `TimerRows.RemoveFromRow` | rt-thread-4.0.0/src/timer.c:121-129 | taking a timer's node out of a row, linked or not, leaves the row without it and closes the node on itself |
| `TimerRows.InsertIntoRow` | rt-thread-4.0.0/src/timer.c:379-392 | inserting a timer's node behind a place of a row puts it there and leaves other rows alone |
| `TimerList.Timers.SearchRow` | rt-thread-4.0.0/src/timer.c:344-370 | the search along one row ends at the last timer due no later, although it compares 32-bit differences |
| `TimerList.Timers.Search` | rt-thread-4.0.0/src/timer.c:341-373 | stepping down from row to row the search ends at the place of the timer in every row |
| `TimerList.Timers.InsertRows` | rt-thread-4.0.0/src/timer.c:376-392 | the insertion goes into the bottom row and as many rows above as the insert counter says |
| `TimerRows.TowerIs` | rt-thread-4.0.0/src/timer.c:376-392 | the timer rises by one row for each low bit group of the insert counter that is zero |
| `TimerList.Timers.Start` | rt-thread-4.0.0/src/timer.c:296-413 | for every number of rows and every tower height, each row of the tower becomes the stable sorted insertion by unbounded deadline, provided pending deadlines differ by less than `RT_TICK_MAX/2` from the new one |
| `TimerList.Timers.Stop` | rt-thread-4.0.0/src/timer.c:422-447 | the timer is out of all rows; the result tells whether it was pending |
| `TimerList.Timers.NextTimeout` | rt-thread-4.0.0/src/timer.c:108-119 | the low 32 bits of the earliest deadline |
| `TimerList.Timers.Check` | rt-thread-4.0.0/src/timer.c:494-553 | the due timers fire in deadline-then-start order, each once; none is due afterwards; exactly the periodic ones are pending again, one period from now; the loop ends; provided no deadline is `RT_TICK_MAX/2` late or ahead, nor the next period of a late timer that long, and no due periodic timer has zero ticks |
| `TimerLoop.CheckNeverEnds` | rt-thread-4.0.0/src/timer.c:494-553 | the loop makes any number of turns if and only if a periodic timer of zero ticks is due |
| `TimerList.Timers.TickIncrease` | rt-thread-4.0.0/src/clock.c:74-100 | a tick with its check is a tick of the users' view, and keeps all deadlines within half the tick range ahead; one-shot timers may have zero ticks |
| `TimerList.Timers.Session` | rt-thread-4.0.0/src/timer.c:296-553 | any run of starts, stops and ticks, across wrap-around of the 32-bit tick: what is pending for when, and what each tick fires, is as in the users' view |
| `TimerList.StartIs` | rt-thread-4.0.0/src/timer.c:296-413 | the stable insertion is a start in the users' view |
| `TimerList.StopIs` | rt-thread-4.0.0/src/timer.c:422-447 | the removal is a stop in the users' view |
| `TimerList.RowIsSubsequence` | rt-thread-4.0.0/src/timer.c:296-396 | each row is a subsequence of the bottom row |
| `TimerRuns.RunInWindow` | rt-thread-4.0.0/src/timer.c:325-326 | over any run with a check at every tick all pending deadlines stay in the window where 32-bit ticks compare like true ones |
| `TimerRuns.DueAfterStart` | rt-thread-4.0.0/src/timer.c:494-553 | what is pending, and for when, after any run that does not touch a timer after its start |
| `TimerRuns.FiresExactly` | rt-thread-4.0.0/src/timer.c:494-553 | a timer that is started and left alone fires exactly `init_tick` ticks later, at the next tick if that is 0, and a periodic one at every multiple |
| `TimerRuns.RunFires` | rt-thread-4.0.0/src/timer.c:296-553 | in any run, between a start of a timer and a tick with no other start or stop of it: the tick fires it if and only if it is the `init_tick`-th since, or a multiple of it |
| `ReadyIndex.TableIsLowBit` | rt-thread-4.0.0/src/kservice.c:1248-1266 | the 256-entry table holds the lowest bit of every byte |
| `ReadyIndex.FfsIsLowBit` | rt-thread-4.0.0/src/kservice.c:1278-1292 | the byte-wise lookup finds the lowest bit of any 32-bit number, and 0 for 0 |
| `ReadyIndex.OneLevelFind` | rt-thread-4.0.0/src/scheduler.c:170-192 | with up to 32 priorities the lookup finds the least non-empty list, and the bitmap is 0 if and only if all lists are empty |
| `ReadyIndex.TwoLevelFind` | rt-thread-4.0.0/src/scheduler.c:170-192 | with up to 256 priorities the two lookups find the least non-empty list |
| `ReadyIndex.OneLevelSet` | rt-thread-4.0.0/src/scheduler.c:677-681 | setting the bit of a list that gets a thread keeps the bitmap exact |
| `ReadyIndex.OneLevelClear` | rt-thread-4.0.0/src/scheduler.c:762-774 | clearing the bit of a list that gets empty keeps it exact |
| `ReadyIndex.TwoLevelSet` | rt-thread-4.0.0/src/scheduler.c:677-681 | the same for both levels |
| `ReadyIndex.TwoLevelClear` | rt-thread-4.0.0/src/scheduler.c:764-774 | the group bit is cleared if and only if the byte becomes 0 |
| `SchedModel.ScheduleOk` | rt-thread-4.0.0/src/scheduler.c:399-499 | an unlocked reschedule leaves a running current thread that no ready thread outranks |
| `SchedModel.RoundRobin` | rt-thread-4.0.0/src/scheduler.c:417-450 | a running thread gives way to the first of the most urgent list unless it is strictly more urgent, and then waits behind all ready threads of its priority |
| `SchedModel.ApplyOk` | rt-thread-4.0.0/src/thread.c:80-771 | every thread operation keeps exactly the READY threads queued, each once at its current priority, and only the current thread running |
| `SchedModel.RunInv` | rt-thread-4.0.0/src/scheduler.c:199-779 | every reachable state satisfies that invariant |
| `SchedModel.RunLeavesTheBestRunning` | rt-thread-4.0.0/src/scheduler.c:399-499 | after any run that ends in an unlocked reschedule the current thread runs and no ready thread outranks it |
| `SchedCalls.ApplyComesTo` | rt-thread-4.0.0/src/thread.c:80-770 | each operation changes its own thread as it is meant to (state, priority) and no other; a thread queued anew comes last at its priority, and the rest of the lists keeps its order |
| `SchedCalls.StartComesTo` | rt-thread-4.0.0/src/scheduler.c:254-279 | the scheduler starts with the first thread of the most urgent list |
| `SchedCalls.ScheduleComesTo` | rt-thread-4.0.0/src/scheduler.c:399-500 | when a reschedule does nothing; otherwise the first thread of the most urgent list runs next and a running one goes behind all of its priority; nothing else changes |
| `SchedCalls.StaysCurrent` | rt-thread-4.0.0/src/thread.c:286-770 | the operations that do not reschedule |
| `Scheduler.ReadyQueues.constructor` | rt-thread-4.0.0/src/scheduler.c:199-247 | empty lists with empty bitmaps |
| `Scheduler.ReadyQueues.InsertThread` | rt-thread-4.0.0/src/scheduler.c:652-685 | list, state and bitmaps change together; the current thread is not queued |
| `Scheduler.ReadyQueues.RemoveThread` | rt-thread-4.0.0/src/scheduler.c:749-779 | list and bitmaps change together |
| `Scheduler.ReadyQueues.GetHighest` | rt-thread-4.0.0/src/scheduler.c:170-192 | the first thread of the most urgent list, through the bitmaps |
| `Scheduler.ReadyQueues.Schedule` | rt-thread-4.0.0/src/scheduler.c:399-499 | the switch in place is the one of the model; bitmaps and lists agree afterwards |
| `Scheduler.ReadyQueues.SchedulerStart` | rt-thread-4.0.0/src/scheduler.c:254-282 | the first switch |
| `Scheduler.ReadyQueues.ThreadStartup` | rt-thread-4.0.0/src/thread.c:286-318 | the priority bits are computed, the thread is queued, and a reschedule follows |
| `Scheduler.ReadyQueues.ThreadSuspend` | rt-thread-4.0.0/src/thread.c:656-695 | only READY and RUNNING threads are suspended, and leave the lists |
| `Scheduler.ReadyQueues.ThreadResume` | rt-thread-4.0.0/src/thread.c:705-739 | only SUSPENDed threads are made ready |
| `Scheduler.ReadyQueues.ThreadTimeout` | rt-thread-4.0.0/src/thread.c:748-770 | a timeout makes the thread ready and reschedules |
| `Scheduler.ReadyQueues.ChangePriority` | rt-thread-4.0.0/src/thread.c:570-612 | a queued thread changes its list and its bits together |
| `Scheduler.ReadyQueues.ThreadExit` | rt-thread-4.0.0/src/thread.c:80-115 | the ended thread leaves the lists and another one runs |
| `Scheduler.ReadyQueues.ThreadClose` | rt-thread-4.0.0/src/thread.c:329-460 | detach and delete |
| `Scheduler.ReadyQueues.ExitCritical` | rt-thread-4.0.0/src/scheduler.c:868-891 | the last unlock reschedules |
| `IpcList.Suspend` | rt-thread-4.0.0/src/ipc.c:79-122 | the loop puts the thread before the first less urgent one, or last |
| `IpcList.EnqueuedInTurn` | rt-thread-4.0.0/src/ipc.c:79-122 | the thread goes to the end, or behind all as urgent as it and before all less urgent; the others keep their order |
| `IpcList.FailedIs` | rt-thread-4.0.0/src/ipc.c:156-182 | exactly the threads of the list get the error code, all others keep theirs |
| `IpcList.ResumeAll` | rt-thread-4.0.0/src/ipc.c:156-182 | the loop makes all waiting threads ready in order and gives each -RT_ERROR |
| `IpcList.EnqueuedByPriority` | rt-thread-4.0.0/src/ipc.c:92-118 | a priority list stays in order |
| `IpcList.Reprioritized` | rt-thread-4.0.0/src/thread.c:596-608 | a wait list stays in order after a priority change, which does not move the thread, if and only if the new priority fits between the neighbours |
| `IpcList.ReprioritizedOutOfOrder` | rt-thread-4.0.0/src/thread.c:596-608 | a wait list that is out of order after a priority change |
| `MutexModel.StepInv` | rt-thread-4.0.0/src/ipc.c:651-878 | every interrupt-free region of take, release and timeout keeps the protocol invariant |
| `MutexModel.PriorityInheritance` | rt-thread-4.0.0/src/ipc.c:651-878 | in every reachable state with PRIO mutexes and non-nested holding, owners are at least as urgent as their waiters, threads that hold nothing have their own priority, and a take that is going to return RT_EOK has made its caller the owner, one that timed out has not |
| `MutexModel.HandOverUrgent` | rt-thread-4.0.0/src/ipc.c:838-860 | after a hand-over the new owner is urgent enough if and only if no other waiter is more urgent than the first |
| `MutexModel.FifoLosesInheritance` | rt-thread-4.0.0/src/ipc.c:838-860 | a run of three threads on a FIFO mutex that ends with a less urgent owner |
| `MutexNesting.StepUrgent` | rt-thread-4.0.0/src/ipc.c:651-878 | whatever mutexes, FIFO or PRIO, threads hold: from a state where every owner is as urgent as its waiters a region leads to such a state again if and only if a last release hands over to the most urgent waiter and goes back to a priority that suits the waiters of all mutexes kept, and a blocking take that raises an owner does not raise one that waits for a less urgent owner |
| `MutexNesting.RunUrgent` | rt-thread-4.0.0/src/ipc.c:651-878 | over a run, inheritance holds in every state if and only if these guards hold at every step |
| `MutexNesting.StartUrgent` | rt-thread-4.0.0/src/ipc.c:527-878 | the same of runs from new mutexes and threads that hold nothing |
| `MutexHolds.TakeComesTo` | rt-thread-4.0.0/src/ipc.c:651-776 | a take succeeds at once if and only if nobody else owns the mutex, and counts one hold more; otherwise it waits if it may, and the owner gets the more urgent of the two priorities |
| `MutexHolds.ReleaseComesTo` | rt-thread-4.0.0/src/ipc.c:787-878 | only the owner can release; one hold less; the last one restores the saved priority and gives the mutex to the first waiter or nobody |
| `MutexHolds.StepOwner` | rt-thread-4.0.0/src/ipc.c:651-878 | the owner changes if and only if a thread takes a free mutex or the owner gives up its last hold |
| `MutexHolds.RunHolds` | rt-thread-4.0.0/src/ipc.c:678-847 | over any run `hold` is the number of takes that the owner has made since it got the mutex, less its releases |
| `MutexHolds.HeldTwice` | rt-thread-4.0.0/src/ipc.c:678-682 | two takes and one release leave the mutex with its owner |
| `MutexHolds.StepFrame` | rt-thread-4.0.0/src/ipc.c:651-878 | other mutexes and other threads' phases do not change |
| `MutexHolds.TimeoutFrame` | rt-thread-4.0.0/src/thread.c:748-770 | a timeout takes the thread off the list and fails its take, and nothing else |
| `MutexNesting.TakeLosesInheritance` | rt-thread-4.0.0/src/ipc.c:709-724 | four takes after which a waiter raised by another take is more urgent than the owner it waits for |
| `MutexNesting.RunRestoresBase` | rt-thread-4.0.0/src/ipc.c:828-836 | over any run, with mutexes nested or not: a thread that holds nothing has the priority saved in the mutex it gave up last, so it has its own one if and only if it took that mutex at its own one |
| `MutexNesting.NestingKeepsRaisedPriority` | rt-thread-4.0.0/src/ipc.c:828-836 | five calls after which a thread holds nothing and keeps a raised priority |
| `MutexNesting.ReleaseLosesInheritance` | rt-thread-4.0.0/src/ipc.c:828-836 | three takes and a release after which an owner of two mutexes is less urgent than a waiter |
| `Mutexes.MutexObject.Take` | rt-thread-4.0.0/src/ipc.c:651-776 | the fields after the region are those of the model |
| `Mutexes.MutexObject.Release` | rt-thread-4.0.0/src/ipc.c:787-878 | the fields after the region are those of the model |
| `SemaphoreModel.StepInv` | rt-thread-4.0.0/src/ipc.c:321-513 | every region, timeout and reset keeps: nobody waits while there is something to take |
| `SemaphoreModel.TakeComesTo` | rt-thread-4.0.0/src/ipc.c:321-406 | a take succeeds at once if and only if the value is positive, and otherwise waits if it may |
| `SemaphoreModel.ReleaseComesTo` | rt-thread-4.0.0/src/ipc.c:430-468 | a release goes to the first waiter, or else into the value |
| `SemaphoreModel.OthersComeTo` | rt-thread-4.0.0/src/ipc.c:480-512 | timeouts, returns and resets change what they are meant to and nothing else |
| `SemaphoreModel.RunKeepsCount` | rt-thread-4.0.0/src/ipc.c:321-468 | over any run without reset, the initial value and all releases are the final value and all takes granted, at once or by a release |
| `Semaphores.SemaphoreObject.Take` | rt-thread-4.0.0/src/ipc.c:321-406 | the fields after the region are those of the model |
| `Semaphores.SemaphoreObject.Release` | rt-thread-4.0.0/src/ipc.c:430-468 | the fields after the region are those of the model |
| `Semaphores.SemaphoreObject.ResetRegion` | rt-thread-4.0.0/src/ipc.c:480-512 | all waiting threads are woken with an error and the value is set, in 16 bits |
| `MailboxModel.InOffset` | rt-thread-4.0.0/src/ipc.c:1532-1539 | `in_offset` is `(out_offset + entry) mod size` |
| `MailboxModel.PutAppends` | rt-thread-4.0.0/src/ipc.c:1532-1539 | the ring refines a bounded queue: a mail goes in last |
| `MailboxModel.GetTakesFirst` | rt-thread-4.0.0/src/ipc.c:1680-1688 | and the oldest comes out |
| `MailboxModel.SendComesTo` | rt-thread-4.0.0/src/ipc.c:1439-1558 | a send puts its mail in if and only if the box is not full, and wakes the first receiver only; otherwise it waits with its mail if it may |
| `MailboxModel.RecvComesTo` | rt-thread-4.0.0/src/ipc.c:1587-1711 | a receive takes the oldest mail if and only if there is one, and wakes the first sender only; otherwise it waits if it may |
| `MailboxModel.OthersComeTo` | rt-thread-4.0.0/src/ipc.c:1723-1755 | timeouts, failed calls and resets change what they are meant to and nothing else |
| `MailboxModel.GoingOn` | rt-thread-4.0.0/src/ipc.c:1498-1530 | a woken thread goes on as if it called anew |
| `MailboxModel.StepInv` | rt-thread-4.0.0/src/ipc.c:1439-1755 | every region and timeout keeps: a blocked receiver implies at least as many woken receivers as mails, a blocked sender at least as many woken senders as free places |
| `MailboxModel.RunInv` | rt-thread-4.0.0/src/ipc.c:1439-1755 | no wakeup is lost under any interleaving of senders, receivers, timeouts and resets |
| `MailboxModel.ReachableLosesNoWakeup` | rt-thread-4.0.0/src/ipc.c:1291-1755 | from a new mailbox on: whenever a receiver is blocked as many woken receivers as mails are on their way, and likewise for senders and free places |
| `MailboxModel.Quiescent` | rt-thread-4.0.0/src/ipc.c:1439-1755 | once all woken threads have run, receivers wait only at an empty mailbox and senders only at a full one |
| `MailboxModel.FirstInFirstOut` | rt-thread-4.0.0/src/ipc.c:1439-1711 | between resets mails come out in the order they went in, each once, and the rest is in the box |
| `Mailboxes.MailboxObject.SendRegion` | rt-thread-4.0.0/src/ipc.c:1439-1558 | array, offsets and lists after the region are those of the model |
| `Mailboxes.MailboxObject.RecvRegion` | rt-thread-4.0.0/src/ipc.c:1587-1711 | array, offsets and lists after the region are those of the model |
| `Mailboxes.MailboxObject.ResetRegion` | rt-thread-4.0.0/src/ipc.c:1723-1755 | all waiting threads are woken with an error and the ring is empty |
| `MsgQueueModel.StepInv` | rt-thread-4.0.0/src/ipc.c:1961-2319 | every region, every single copied byte and every timeout keeps each block in exactly one of free list, queue and one call, `entry` the length of the queue, and no wakeup lost |
| `MsgQueueModel.RunInv` | rt-thread-4.0.0/src/ipc.c:1961-2319 | the same in every reachable state |
| `MsgQueueModel.BlocksNotShared` | rt-thread-4.0.0/src/ipc.c:1961-2264 | no two calls copy into or out of one block, nor is it free or queued meanwhile |
| `MsgQueueModel.SendComesTo` | rt-thread-4.0.0/src/ipc.c:1978-1995 | a send gets a block if and only if fewer blocks are queued or being copied than the pool has; it was free and is now the sender's |
| `MsgQueueModel.LinkComesTo` | rt-thread-4.0.0/src/ipc.c:1997-2037 | the second region queues the block and wakes the first receiver only |
| `MsgQueueModel.RecvComesTo` | rt-thread-4.0.0/src/ipc.c:2136-2246 | a receive takes the first message if and only if one is queued, waits if and only if none is and it may, and is refused otherwise |
| `MsgQueueModel.CopiesComeTo` | rt-thread-4.0.0/src/ipc.c:2235-2260 | each copied byte brings a copy on by one; the last region gives the block back |
| `MsgQueueModel.OthersComeTo` | rt-thread-4.0.0/src/ipc.c:2286-2319 | timeouts, failed calls and resets change what they are meant to and nothing else |
| `MsgQueueModel.RunIsDeque` | rt-thread-4.0.0/src/ipc.c:1961-2264 | messages come and go as from a queue pushed at the tail by send and at the head by urgent, in the order of the second regions |
| `MsgQueueModel.ReceivesTheMessage` | rt-thread-4.0.0/src/ipc.c:2235-2260 | whatever other calls do meanwhile, what a receiver has copied when it releases the block is the message it took, as far as its buffer and the message go |
| `MsgQueueModel.Quiescent` | rt-thread-4.0.0/src/ipc.c:2136-2264 | once all woken receivers have run, receivers wait only at an empty queue |
| `MsgQueues.MsgQueueObject.constructor` | rt-thread-4.0.0/src/ipc.c:1778-1825 | all blocks are linked into the free list |
| `MsgQueues.MsgQueueObject.SendBegin` | rt-thread-4.0.0/src/ipc.c:1978-1995 | a block leaves the free list, or the queue is full |
| `MsgQueues.MsgQueueObject.LinkBack` | rt-thread-4.0.0/src/ipc.c:1997-2037 | the relinking at the tail is the one of the model |
| `MsgQueues.MsgQueueObject.LinkFront` | rt-thread-4.0.0/src/ipc.c:2088-2121 | the relinking at the head is the one of the model |
| `MsgQueues.MsgQueueObject.RecvBegin` | rt-thread-4.0.0/src/ipc.c:2136-2246 | the unlinking of the head is the one of the model |
| `MsgQueues.MsgQueueObject.RecvEnd` | rt-thread-4.0.0/src/ipc.c:2253-2259 | the block goes back to the free list |
| `MsgQueues.MsgQueueObject.ResetRegion` | rt-thread-4.0.0/src/ipc.c:2286-2319 | the loop returns every queued block to the free list |
| `EventModel.OnePassSuffices` | rt-thread-4.0.0/src/ipc.c:1054-1098 | after one pass nobody who still waits has its condition met, although the set shrinks on the way |
| `EventModel.PassSplits` | rt-thread-4.0.0/src/ipc.c:1054-1098 | every waiter is woken or goes on waiting, never both |
| `EventModel.WokenGetWhatTheyWant` | rt-thread-4.0.0/src/ipc.c:1060-1080 | a woken thread receives all it asked for, or a non-empty part of it, that was there when the pass began |
| `EventModel.ClearedBitsGoOnce` | rt-thread-4.0.0/src/ipc.c:1084-1092 | the bits a clearing thread receives are received by nobody behind it |
| `EventModel.ClearedBitsAreGone` | rt-thread-4.0.0/src/ipc.c:1084-1092 | and are not in the set when the pass is over |
| `EventModel.StepInv` | rt-thread-4.0.0/src/ipc.c:1026-1275 | send, receive, timeout and reset keep: no waiting thread has its condition met |
| `EventModel.NobodyWaitsForWhatIsThere` | rt-thread-4.0.0/src/ipc.c:1026-1234 | in every reachable state a thread that waits for all its bits lacks one of them in the set, and one that waits for any has none in it |
| `EventModel.RecvComesTo` | rt-thread-4.0.0/src/ipc.c:1124-1234 | a receive returns at once if and only if all its bits, or some of them, are in the set, with those that are; it clears exactly these; otherwise it waits if it may |
| `EventModel.NothingAsked` | rt-thread-4.0.0/src/ipc.c:1036-1146 | calls without bits are refused |
| `EventModel.PassTurn` | rt-thread-4.0.0/src/ipc.c:1054-1098 | each waiter in its turn is woken if and only if what it waits for holds of the bits left by those before it; what it gets and what it leaves, bit by bit |
| `EventModel.SendComesTo` | rt-thread-4.0.0/src/ipc.c:1026-1108 | a send adds its bits and makes that pass; the woken threads find what they got |
| `EventModel.ResetComesTo` | rt-thread-4.0.0/src/ipc.c:1250-1275 | a reset empties the set and fails all that wait |
| `EventModel.TimeoutComesTo` | rt-thread-4.0.0/src/ipc.c:1200-1215 | timeouts and returns change what they are meant to and nothing else |
| `Events.EventObject.Send` | rt-thread-4.0.0/src/ipc.c:1026-1108 | the loop, which removes waiters while it goes along the list, is the pass of the model |
| `Events.EventObject.Recv` | rt-thread-4.0.0/src/ipc.c:1124-1234 | the region is the one of the model |
| `KconfigExpr.ShortCuts` | rt-thread-4.0.0/tools/kconfiglib.py:5000-5010 | the short cuts of `expr_value` do not matter: AND is the minimum, OR the maximum |
| `KconfigExpr.ExprParses` | rt-thread-4.0.0/tools/kconfiglib.py:2737-2821 | parsing the tokens of a printed expression consumes them all and gives the expression with its chains associated to the right |
| `KconfigExpr.NormalValue` | rt-thread-4.0.0/tools/kconfiglib.py:4986-5042 | that re-association keeps the value under every assignment |
| `KconfigExpr.NormalPrinted` | rt-thread-4.0.0/tools/kconfiglib.py:5059-5100 | and prints the same tokens |
| `KconfigExpr.PrintThenParse` | rt-thread-4.0.0/tools/kconfiglib.py:5059-5100 | parsing the printed tokens consumes them all, and the result has the same value under every assignment and prints the same |
| `KconfigGrammar.ParsesTheGrammar` | rt-thread-4.0.0/tools/kconfiglib.py:2737-2821 | the parser accepts all of a text, with this expression, if and only if the grammar of its comment derives the text with this meaning |
| `KconfigGrammar.PrintsPairs` | rt-thread-4.0.0/tools/kconfiglib.py:5059-5100 | the printed form has parentheses around an OR under AND, an AND under OR, and what is no symbol under NOT, and nowhere else |
| `KconfigParser.TokenCursor.ParseExpr` | rt-thread-4.0.0/tools/kconfiglib.py:2737-2777 | the parser on its cursor is the parser of the model, error cases included |
| `KconfigParser.TokenCursor.ParseAnd` | rt-thread-4.0.0/tools/kconfiglib.py:2779-2787 | likewise for AND chains |
| `KconfigParser.TokenCursor.ParseFactor` | rt-thread-4.0.0/tools/kconfiglib.py:2789-2821 | likewise for symbols, relations, negations and parentheses |
| `KconfigCacheModel.CachedIsFresh` | rt-thread-4.0.0/tools/kconfiglib.py:3585-3656 | in a configuration without dependency loops, MODULES counted as read by tristate symbols, cached values that follow from each other are the values from scratch |
| `KconfigCacheModel.FreshIsTotal` | rt-thread-4.0.0/tools/kconfiglib.py:3585-3656 | in such a configuration evaluation from scratch never lacks a value |
| `KconfigCacheModel.ValuesAgree` | rt-thread-4.0.0/tools/kconfiglib.py:2827-2867 | a symbol's visibility and value depend only on the symbols in its expressions, and on MODULES if it is tristate |
| `KconfigValues.EvalIsValue` | rt-thread-4.0.0/tools/kconfiglib.py:4986-5042 | evaluation from known symbol values is the value of the expression |
| `KconfigValues.VisibilityIs` | rt-thread-4.0.0/tools/kconfiglib.py:5215-5246 | a symbol is as visible as its most visible prompt, fully if it has no m, and not at all if no prompt's condition holds |
| `KconfigValues.TriValueIs` | rt-thread-4.0.0/tools/kconfiglib.py:3585-3656 | `tri_value` is the larger of the selects and the value before them: the user value as far as visible, or the first default that holds, capped by its condition and raised by an imply if and only if the direct dependencies are not n; m goes up to y if there is no m or an imply says y |
| `KconfigValues.UserValueCounts` | rt-thread-4.0.0/tools/kconfiglib.py:3612-3617 | a visible symbol without an active select has the smaller of its user value and its visibility |
| `KconfigValues.InvisibleIgnoresUser` | rt-thread-4.0.0/tools/kconfiglib.py:3612-3617 | the user value of an invisible symbol does not matter |
| `KconfigValues.SelectsRaise` | rt-thread-4.0.0/tools/kconfiglib.py:3634-3642 | no value is below the selects, and it is the larger of them and the value without selects |
| `KconfigValues.NeverM` | rt-thread-4.0.0/tools/kconfiglib.py:3644-3649 | a bool symbol, and any symbol while MODULES is n, is never m |
| `KconfigValues.FreshAfterSet` | rt-thread-4.0.0/tools/kconfiglib.py:3585-3796 | the value and the visibility from scratch after a user value is set |
| `KconfigValues.SessionReadsWhatItSets` | rt-thread-4.0.0/tools/kconfiglib.py:3585-3796 | a session that sets a visible, unselected symbol and then reads it gets what it set, as far as the symbol is visible |
| `KconfigCacheModel.DropKeepsConsistent` | rt-thread-4.0.0/tools/kconfiglib.py:4001-4030 | after a user value changes, what is left of the caches is right if the symbol and everything that may depend on it are dropped |
| `KconfigCacheModel.PromptlessKeepsConsistent` | rt-thread-4.0.0/tools/kconfiglib.py:4032-4052 | the user value of a symbol without prompt does not matter, so nothing need be dropped |
| `KconfigCache.Symbols.BuildDep` | rt-thread-4.0.0/tools/kconfiglib.py:2827-2867 | the loops make every symbol known to exactly those whose value may depend on it |
| `KconfigCache.Symbols.ExprValue` | rt-thread-4.0.0/tools/kconfiglib.py:4986-5042 | the memoised, short-circuit evaluation agrees with the cached values it leaves behind |
| `KconfigCache.Symbols.WarnUnmet` | rt-thread-4.0.0/tools/kconfiglib.py:4089-4123 | the warning about unmet dependencies reads every select, and the direct dependencies of the selecting symbol of each one above those of the symbol, keeping all caches consistent |
| `KconfigCache.Symbols.TriValue` | rt-thread-4.0.0/tools/kconfiglib.py:3585-3656 | computes and caches the value, reading what the warning reads, too, and keeping all caches consistent |
| `KconfigCache.Symbols.Visibility` | rt-thread-4.0.0/tools/kconfiglib.py:3674-3682 | computes and caches the visibility, keeping all caches consistent |
| `KconfigCache.Symbols.RecInvalidate` | rt-thread-4.0.0/tools/kconfiglib.py:4001-4030 | although it stops at symbols without cached visibility, everything that may depend on a dropped symbol is dropped, and everything if MODULES is; it ends |
| `KconfigCache.Symbols.SetValue` | rt-thread-4.0.0/tools/kconfiglib.py:3713-3796 | keeps all caches consistent; only values the type has are accepted |
| `KconfigCache.Symbols.UnsetValue` | rt-thread-4.0.0/tools/kconfiglib.py:3798-3805 | keeps all caches consistent |
| `KconfigCache.Symbols.Session` | rt-thread-4.0.0/tools/kconfiglib.py:3585-4052 | in any run of reads, `set_value` and `unset_value`, every read gives what evaluation from scratch gives under the user values of that moment |
| `KconfigLoop.NoLoopWithRanks` | rt-thread-4.0.0/tools/kconfiglib.py:5486-5556 | ranks that rise along all dependencies exclude a loop |
| `KconfigLoop.LoopSearch.CheckDepLoop` | rt-thread-4.0.0/tools/kconfiglib.py:5486-5556 | the search finds only real loops, and otherwise marks the symbol done with everything it reaches |
| `KconfigLoop.LoopSearch.CheckAll` | rt-thread-4.0.0/tools/kconfiglib.py:871-873 | the check of all symbols finds a loop if and only if there is one: otherwise there are ranks that rise along all dependencies |
| `KconfigLoop.LoopFreeIsAcyclic` | rt-thread-4.0.0/tools/kconfiglib.py:5486-5556 | where the search finds no loop, ranks that rise along all reads, MODULES by tristate symbols included, exist if and only if MODULES does not depend, directly or not, on a tristate symbol |
| `KconfigEnds.EndsExactly` | rt-thread-4.0.0/tools/kconfiglib.py:3585-3656 | where the search finds no loop, the evaluation of a symbol comes to an end, its calls of `tri_value` nested to some depth, if and only if the symbol or MODULES gets its value at the depth of its rank without MODULES being read |
| `KconfigEnds.EvaluationEnds` | rt-thread-4.0.0/tools/kconfiglib.py:3585-3656 | every evaluation comes to an end under given user values if and only if MODULES, where it is defined, gets its value without being read on the way |
| `KconfigEnds.FreeEnds` | rt-thread-4.0.0/tools/kconfiglib.py:5486-5556 | if MODULES does not depend on a tristate symbol, every evaluation comes to an end, whatever the user values |
| `KconfigEnds.KnownIsFresh` | rt-thread-4.0.0/tools/kconfiglib.py:3585-3656 | the value that evaluation comes to is the value from scratch |
| `KconfigEnds.SmallRanks` | rt-thread-4.0.0/tools/kconfiglib.py:5486-5556 | in the two configurations of the next rows the search finds no loop, and MODULES depends on a tristate symbol |
| `KconfigEnds.ModulesNeedsA` | rt-thread-4.0.0/tools/kconfiglib.py:3436-3441 | two symbols between which the search finds no loop and whose evaluation never comes to an end, whatever the user values |
| `KconfigEnds.EndsAnyway` | rt-thread-4.0.0/tools/kconfiglib.py:3644-3647 | two symbols whose evaluation does under all user values, although MODULES depends on a tristate symbol |

## Left out

- SMP and `cpu.c`, signals with the `-RT_EINTR` retry, memory pools, the formatter and string helpers, device, irq and idle code.
- The heaps' own semaphores: each heap call is one step. The moving paths of `rt_memheap_realloc` and `rt_realloc` take their lock several times; other calls in between are not modelled.
- The soft timer thread, hooks, debug output, stack checks and object names. Timer callbacks do nothing: a one-shot timer that its own callback restarts would be linked and marked inactive. A check in the methods has no due periodic timer of zero ticks; TimerLoop.CheckNeverEnds says what happens with one.
- `rt_timer_start` reads the tick between its two locked regions; the model takes the call as one step.
- Counters at the limit of their width: a mutex is taken at most 255 times by its owner, a semaphore is not released at 65535 (`Legal` in MutexModel and SemaphoreModel).
- Threads blocked in IPC that are resumed or deleted by other threads: these bypass the protocols.
- Wait lists, ready lists, zone lists and dependents are sequences or sets in their classes; their links are modelled for timers, the memory heap, the small heap, the page list and the message queue only.
- How a blocked thread computes its remaining timeout: whether time is left when it goes on is a choice of the run.
- The remaining ticks of a thread's time slice; `rt_thread_sleep` is suspend and reschedule.
- Slab `rt_realloc` and the `used_mem` statistics; the pages of the page table itself are never given back. The window in which `rt_malloc` drops the lock around the page allocator is not modelled.
- Payload bytes are modelled for the two heaps and the message queue, not for the slab.
- Kconfig choices, int, hex and string symbols, ranges, the preprocessor, files, the texts of warnings and `_write_to_conf`; string and assignable caches. Characters and tokenising: printing and parsing are related through tokens. The theorems on caches are about configurations with ranks for all reads (`Acyclic`); KconfigLoop and KconfigEnds say which other ones the loop search lets through, and when their evaluation ends.
- MemHeap.Pool.Realloc: what the relinking does to the headers once the test has overflowed is not modelled on the links; MemHeapModel.ReallocInv says when that is.
- MemHeapModel.ReallocResult: nothing is said of the result of a call that overflows.
- SmallMem.SmallHeap.Malloc: heaps with less than 12 bytes beside the headers are not valid; SmallMemModel.TinyHeap says for which requests the call never returns on them.
- SlabAlign.MallocAligned: addresses count from `heap_start`, which is aligned to a page only.
- SlabModel.StepOk: sizes are below 2^32, as the type has it.
- MsgQueues.MsgQueueObject.LinkBack: the clearing of the message's own link, which the source does just before the copy, is part of the region.
- EventModel.StepInv: event sets are unbounded numbers; the source has 32 bits of them.
