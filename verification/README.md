# The RT-Thread kernel of the HVAC module, and its checksums and thermostat

The firmware of the HVAC module runs on a single-processor RT-Thread kernel. This project
models the parts of that kernel whose correctness is an invariant over arbitrary sequences
of calls and interleavings (its allocators, its scheduler, its blocking objects) together
with the application's two CRC routines and the one-second step of the thermostat, and
proves what they keep, deliver and undo.

How the model is laid out:

| file | models |
|---|---|
| `Alignment.dfy`, `Words.dfy`, `RingList.dfy`, `Lists.dfy` | `RT_ALIGN`, word memory and `rt_memcpy`, the circular doubly linked lists of `rtservice.h`, list helpers |
| `SmallHeap.dfy` | `mem.c`: memory is an array of words, block headers are written in place |
| `MemHeap.dfy` | `memheap.c`: address list and free list, as header fields by block address |
| `PageAlloc.dfy`, `SlabZones.dfy`, `SlabHeap.dfy` | the page allocator of `slab.c`, the zones above it, and both together |
| `MemPool.dfy` | `mempool.c` |
| `ByteTable.dfy`, `Ffs.dfy`, `Scheduler.dfy` | tables of 256 entries, `__rt_ffs`, `scheduler.c` and the thread operations of `thread.c` |
| `WaitList.dfy`, `Handoff.dfy` | suspend lists, and what all blocking objects have in common |
| `Semaphore.dfy`, `Mutex.dfy`, `Event.dfy`, `Mailbox.dfy`, `MessageQueue.dfy`, `MessagePool.dfy` | `ipc.c` |
| `Register.dfy`, `Crc16.dfy`, `Crc32.dfy` | shift registers in general, the MODBUS CRC with its frames, the table-driven CRC-32 |
| `Thermostat.dfy` | `ControlProgram` and `CtrlRelay` |

Three conventions run through the files.

* An object whose fields the source updates in place is a class. Its methods follow the
  source's statements; their postconditions give the whole new state, either outright or as
  a function of the old one, and every method keeps the object's invariant.
* A protocol is a state, one function per region that the source runs with interrupts
  disabled, and a set of events. Timeouts and resumptions by third parties are events that
  may happen at any moment. A step whose code would follow a bad pointer is not *defined*, and
  after it anything may happen; the theorems about runs show that no such step occurs. The
  theorems quantify over all runs, hence all interleavings.
* What only the proof needs to remember (which chunk is live, what a sender had sent) is an
  extra component of the state; it is recorded, and no outcome depends on it.

Facts of the code that shape the statements:

* `mem.c` does not maintain the back link of its end sentinel on a split, and its search
  passes over a free block that would fit exactly and ends at the sentinel. Both are modelled;
  `RefusedMeansFull` says exactly which requests are refused although the bytes are there, and
  `WholeHeapRefused` shows one.
* `RT_ALIGN` wraps at 32 bits: a request within four bytes of the limit becomes a request for
  nothing. `Align` says so, and `rt_realloc` with such a size frees its block.
* `memheap.c` refuses a request for all the bytes it has (the comparison is strict).
* The test in `rt_memheap_realloc` for growing in place adds 12 to the size in 32 bits. For
  sizes that round to 0xFFFFFFF4 or more it wraps, and with a free block behind it the block
  gets a new header inside its own: `WrapBreaks` shows one, and `Realloc` says that exactly
  these calls leave the heap in disorder. The new header also overwrites the first 12 to 20
  bytes of the block's own data (and for 0xFFFFFFF4 its `prev`); other live blocks keep theirs.
* `Uart1Analysis` takes the length of a frame in 8 bits. `LongFrameIsLost` shows accepted
  frames that never reach a handler.
* A FIFO mutex does not boost the thread it is handed to. `FifoInversion` is a run in which a
  more urgent thread is left waiting for a less urgent owner, and `FifoHandOver` says exactly
  when that does not happen.
* `mempool.c` puts a waiting thread at the head of its list, so that the thread that came last
  is woken first.
* `rt_mq_recv` copies the whole slot, since the length of a message is not stored: what is
  delivered agrees with the message sent as far as both go.
* The guards of `ControlProgram` compare the wiring mode with `MODULE_SLAVE`; they never hold
  in the wired modes 1 to 3.

## Model

| member | source | states |
|---|---|---|
| Alignment.Align | Hvac/Hvac/rt-thread/include/rtdef.h:300 | rounding up to a word, and exactly when the 32-bit addition wraps to 0 |
| RingList.UnlinkKeepsRing | Hvac/Hvac/rt-thread/include/rtservice.h:86-92 | unlinking one node leaves a ring of exactly the others, in order, linked both ways |
| RingList.LinkKeepsRing | Hvac/Hvac/rt-thread/include/rtservice.h:58-80 | linking a node between two neighbours gives the ring with it inserted there |
| RingList.Nodes.Init | Hvac/Hvac/rt-thread/include/rtservice.h:47-50 | the node becomes a ring of its own |
| RingList.Nodes.InsertAfter | Hvac/Hvac/rt-thread/include/rtservice.h:58-65 | the ring becomes the one with the node after the given one; no other list is touched |
| RingList.Nodes.InsertBefore | Hvac/Hvac/rt-thread/include/rtservice.h:73-80 | the same before the given node; before the head is the end |
| RingList.Nodes.Remove | Hvac/Hvac/rt-thread/include/rtservice.h:86-92 | the ring loses exactly that node, which becomes a ring of its own, also when it was alone in it; no other list is touched |
| RingList.Nodes.IsEmpty | Hvac/Hvac/rt-thread/include/rtservice.h:98-101 | true exactly for a ring of the head alone |
| RingList.Nodes.Len | Hvac/Hvac/rt-thread/include/rtservice.h:107-118 | the number of nodes besides the head |
| RingList.RemoveUndoesInsert | Hvac/Hvac/rt-thread/include/rtservice.h:58-92 | removing what was inserted restores every `next` and `prev` in memory |
| SmallHeap.SplitKeepsTiling | Hvac/Hvac/rt-thread/src/mem.c:329-348 | a new header inside a block keeps the blocks tiling the heap with right links both ways |
| SmallHeap.MergeKeepsTiling | Hvac/Hvac/rt-thread/src/mem.c:165-193 | so does taking a header away |
| SmallHeap.Accounting | Hvac/Hvac/rt-thread/src/mem.c:349-369 | the sum of used extents moves by what one changed block gained |
| SmallHeap.TilesExactly | Hvac/Hvac/rt-thread/src/mem.c:156-194 | every address of the heap lies in exactly one block |
| SmallHeap.HeadersFixLinks | Hvac/Hvac/rt-thread/src/mem.c:331-348 | the set of headers determines every link |
| SmallHeap.LiveDataDisjoint | Hvac/Hvac/rt-thread/src/mem.c:371-396 | data areas are word aligned, disjoint and hold no header |
| SmallHeap.RefusedMeansFull | Hvac/Hvac/rt-thread/src/mem.c:305-312 | a request is refused exactly when the only free blocks large enough are an exact fit at the heap's end |
| SmallHeap.WholeHeapRefused | Hvac/Hvac/rt-thread/src/mem.c:305-312 | an empty heap refuses a request for all its bytes and serves every smaller one from its start |
| SmallHeap.DrainedIsPristine | Hvac/Hvac/rt-thread/src/mem.c:595-613 | with nothing in use the heap is the single initial free block, `lfree` 0, nothing counted as used |
| SmallHeap.Heap.constructor | Hvac/Hvac/rt-thread/src/mem.c:204-257 | one free block spans the region, whatever the memory held |
| SmallHeap.Heap.PlugForward | Hvac/Hvac/rt-thread/src/mem.c:165-180 | a free successor is swallowed; every other block keeps header and data |
| SmallHeap.Heap.PlugBackward | Hvac/Hvac/rt-thread/src/mem.c:182-193 | afterwards no two neighbours are free and `lfree` is the lowest free block |
| SmallHeap.Heap.PlugHoles | Hvac/Hvac/rt-thread/src/mem.c:156-194 | the block and its free neighbours become one; the rest of the heap is untouched |
| SmallHeap.Heap.Free | Hvac/Hvac/rt-thread/src/mem.c:552-615 | the invariant, which blocks remain, exact statistics, live data untouched; null and foreign pointers change nothing |
| SmallHeap.Heap.FindFit | Hvac/Hvac/rt-thread/src/mem.c:305-312 | starting at `lfree` finds the block a first-fit scan from offset 0 finds, and fails only if there is none |
| SmallHeap.Heap.TakeBlock | Hvac/Hvac/rt-thread/src/mem.c:316-371 | the block is used and has fewer than 24 bytes more than asked for; if the free block had that many to spare it has exactly those asked for and the rest is a free block behind it; `used_mem` and `max_mem` count it |
| SmallHeap.Heap.AdvanceLowest | Hvac/Hvac/rt-thread/src/mem.c:380-387 | `lfree` becomes the lowest free block, or the end if there is none |
| SmallHeap.Heap.Malloc | Hvac/Hvac/rt-thread/src/mem.c:272-410 | null exactly when nothing fits; else the lowest fit, live, large enough and cut down as `TakeBlock` says, all other live data untouched, statistics exact |
| SmallHeap.Heap.Shrink | Hvac/Hvac/rt-thread/src/mem.c:471-504 | the tail becomes a free block, merged with a free successor; the kept data is unchanged |
| SmallHeap.Heap.MemCopy | Hvac/Hvac/rt-thread/src/kservice.c:210-280 | the words are copied and nothing else is written |
| Words.MemCpy | Hvac/Hvac/rt-thread/src/kservice.c:210-280 | the block, word and byte loops leave exactly the bytes of the source area at the destination, for every alignment and count |
| Words.CopyWords | Hvac/Hvac/rt-thread/src/kservice.c:210-280 | the loop copies the words and writes nothing else |
| SmallHeap.WrappedRequests | Hvac/Hvac/rt-thread/src/mem.c:272-300 | a request is rounded up exactly up to 0xFFFFFFFC; 0xFFFFFFFF becomes 0 bytes for `rt_realloc` and 12 for `rt_malloc` |
| SmallHeap.Heap.Move | Hvac/Hvac/rt-thread/src/mem.c:507-516 | the common prefix arrives in the new block, which is cut down to size, the old one is freed, others are untouched; or null and nothing changed |
| SmallHeap.Heap.Resize | Hvac/Hvac/rt-thread/src/mem.c:461-516 | kept, cut down in place, refused unchanged, or moved, each exactly when |
| SmallHeap.Heap.Realloc | Hvac/Hvac/rt-thread/src/mem.c:421-516 | all of these by size and pointer; a zero (or wrapped) size frees; a block returned for a live one has the bytes asked for, fewer than 24 more, and the old data as far as both go |
| MemHeap.PrevInvertsNext | Hvac/Hvac/rt-thread/src/memheap.c:50-121 | `prev` inverts `next` all the way round the circular list |
| MemHeap.SplitKeepsTiling | Hvac/Hvac/rt-thread/src/memheap.c:192-213 | a split keeps the blocks tiling the pool with at least 12 data bytes each |
| MemHeap.MergeKeepsTiling | Hvac/Hvac/rt-thread/src/memheap.c:549-573 | so does a merge |
| MemHeap.FreeBelowChange | Hvac/Hvac/rt-thread/src/memheap.c:230-242 | the free byte count moves by what the changed blocks gained |
| MemHeap.TakeEffect | Hvac/Hvac/rt-thread/src/memheap.c:237-258 | taking a listed block whole keeps list, flags and byte count in agreement |
| MemHeap.SplitTakeEffect | Hvac/Hvac/rt-thread/src/memheap.c:188-236 | so does splitting it and listing the rest |
| MemHeap.MergeLeftEffect | Hvac/Hvac/rt-thread/src/memheap.c:540-557 | so does merging a freed block into its free predecessor |
| MemHeap.MergeRightEffect | Hvac/Hvac/rt-thread/src/memheap.c:559-578 | so does merging the free successor, which leaves the list |
| MemHeap.GrowEffect | Hvac/Hvac/rt-thread/src/memheap.c:350-393 | so does moving the border of a block into the free one after it |
| MemHeap.CutEffect | Hvac/Hvac/rt-thread/src/memheap.c:432-452 | so does building a free block at the end of a used one |
| MemHeap.Release | Hvac/Hvac/rt-thread/src/memheap.c:495-595 | one free block takes the place of the freed one and its free neighbours; list, count and links agree; no live block moves |
| MemHeap.Grow | Hvac/Hvac/rt-thread/src/memheap.c:350-402 | the header fields after growing in place: in order when the border lies in the next block, in no order at all when it lies in the block's own header |
| MemHeap.OverrunBreaks | Hvac/Hvac/rt-thread/src/memheap.c:350-387 | with a header built inside the header of the block no set of headers tiles the pool |
| MemHeap.WrapBreaks | Hvac/Hvac/rt-thread/src/memheap.c:350-387 | a concrete heap and the size 0xFFFFFFF8 for which that happens |
| MemHeap.CutAndList | Hvac/Hvac/rt-thread/src/memheap.c:432-485 | the header fields after shrinking in place, the tail merged and listed |
| MemHeap.WriteInBlock | Hvac/Hvac/rt-thread/src/memheap.c:192-206 | what is written inside one block, header apart, changes the data of no other live block |
| MemHeap.ExpandKeepsData | Hvac/Hvac/rt-thread/src/memheap.c:370-393 | the header built at the border changes the data of no live block but, after a wrap, of the block itself |
| MemHeap.Heap.constructor | Hvac/Hvac/rt-thread/src/memheap.c:50-121 | one free block and the tail header; all statistics |
| MemHeap.Heap.Search | Hvac/Hvac/rt-thread/src/memheap.c:169-180 | the first listed block large enough, or none is |
| MemHeap.Heap.Alloc | Hvac/Hvac/rt-thread/src/memheap.c:138-272 | refused exactly when the request is all there is or nothing fits; else first fit, with fewer than 36 bytes too many, and exactly the size asked for with the rest free behind it when there was that much to spare; count, list and high-water mark exact; live blocks kept with their data, and nothing written but the header of a split |
| MemHeap.WholePoolRefused | Hvac/Hvac/rt-thread/src/memheap.c:155 | a fresh heap refuses exactly its own size, though its block fits, and serves every smaller request |
| MemHeap.Heap.Free | Hvac/Hvac/rt-thread/src/memheap.c:495-595 | the invariant, the merged block, the exact byte count, the mark unchanged; live blocks and data kept |
| MemHeap.Heap.Expand | Hvac/Hvac/rt-thread/src/memheap.c:350-402 | the new links, flags, count and mark; the words written are those of the header at the border, so all live data is kept, but for the start of the block's own data when the size plus 12 wraps; the heap stays in order if and only if it does not wrap |
| MemHeap.Heap.Shrink | Hvac/Hvac/rt-thread/src/memheap.c:432-491 | the block has exactly the wanted size and keeps that much data, its tail is free and merged, count exact, mark unchanged, other live data kept |
| MemHeap.Heap.Move | Hvac/Hvac/rt-thread/src/memheap.c:408-416 | null exactly when nothing fits, and then nothing changed; else the data is in a new block of first fit, the old one is freed, the others keep their data, and the mark has seen both at once |
| MemHeap.Heap.Resize | Hvac/Hvac/rt-thread/src/memheap.c:310-492 | kept, cut down, grown, refused or moved, each exactly when, with exact count and mark |
| MemHeap.Heap.Realloc | Hvac/Hvac/rt-thread/src/memheap.c:284-492 | all cases by size and pointer with exact state, count and high-water mark; a block returned for a live one has the bytes asked for, at most 36 more, and the old data as far as both go; the heap stays in order if and only if the rounded size plus 12 fits into 32 bits or the next block is used |
| MemHeap.DataDisjoint | Hvac/Hvac/rt-thread/src/memheap.c:138-272 | data areas are word aligned, disjoint and at least 12 bytes large |
| MemHeap.DrainedIsInitial | Hvac/Hvac/rt-thread/src/memheap.c:495-595 | with nothing in use the heap is the single initial free block, listed alone, all its bytes available |
| PageAlloc.PagesDetermineList | Hvac/Hvac/rt-thread/src/slab.c:236-322 | a sorted, disjoint, coalesced list is determined by its set of free pages |
| PageAlloc.FreedKeepsCanonical | Hvac/Hvac/rt-thread/src/slab.c:272-322 | freeing keeps the list sorted, disjoint and fully coalesced |
| PageAlloc.FreedPages | Hvac/Hvac/rt-thread/src/slab.c:272-322 | exactly the freed pages become free |
| PageAlloc.AllocatedKeepsCanonical | Hvac/Hvac/rt-thread/src/slab.c:236-270 | allocating keeps the list in that form |
| PageAlloc.AllocatedPages | Hvac/Hvac/rt-thread/src/slab.c:236-270 | the pages returned were free and are the only ones that no longer are |
| PageAlloc.AllocatedIsFirstFit | Hvac/Hvac/rt-thread/src/slab.c:246-264 | the lowest extent large enough; none exactly when all are too small |
| PageAlloc.FreeUndoesAlloc | Hvac/Hvac/rt-thread/src/slab.c:236-322 | freeing what was just allocated restores the identical list |
| PageAlloc.FreesCommute | Hvac/Hvac/rt-thread/src/slab.c:272-322 | the order of two frees does not show in the list |
| PageAlloc.RunsAreSafe | Hvac/Hvac/rt-thread/src/slab.c:236-334 | in every run each page of the pool is free or in exactly one live extent |
| PageAlloc.DrainedIsInitial | Hvac/Hvac/rt-thread/src/slab.c:236-334 | when all is freed the list is the one initial extent |
| PageAlloc.Give | Hvac/Hvac/rt-thread/src/slab.c:286-316 | the loop of `rt_page_free` computes the specified list |
| PageAlloc.Pages.constructor | Hvac/Hvac/rt-thread/src/slab.c:327-334 | the list of one extent |
| PageAlloc.Pages.AllocPages | Hvac/Hvac/rt-thread/src/slab.c:236-270 | the loop of `rt_page_alloc` gives the specified list and answer |
| PageAlloc.Pages.FreePages | Hvac/Hvac/rt-thread/src/slab.c:272-322 | the specified list, still in canonical form |
| SlabZones.ChunkFits | Hvac/Hvac/rt-thread/src/slab.c:401-459 | a chunk holds the request, wastes less than max(8, n/8) bytes, and the index is below 72 |
| SlabZones.ZoneIndexMonotone | Hvac/Hvac/rt-thread/src/slab.c:401-459 | the index is monotone on 1..16383 |
| SlabZones.ChunkSizeOfIndex | Hvac/Hvac/rt-thread/src/slab.c:401-459 | the chunk size is a function of the index alone, also at the seams |
| SlabZones.SizesGrow | Hvac/Hvac/rt-thread/src/slab.c:401-459 | class sizes grow strictly with the index |
| SlabZones.IndexFixesSize | Hvac/Hvac/rt-thread/src/slab.c:401-459 | equal index if and only if equal chunk size |
| SlabZones.SmallestClass | Hvac/Hvac/rt-thread/src/slab.c:401-459 | a request gets the smallest class it fits into |
| SlabZones.ZoneHasRoom | Hvac/Hvac/rt-thread/src/slab.c:625-648 | a new zone has at least two chunks, all behind its header and inside it, and one more would not fit |
| SlabZones.ChunksAligned | Hvac/Hvac/rt-thread/src/slab.c:625-648 | chunks of a power-of-two size start at its multiples, all others at multiples of 8, the first as close to the header as that allows |
| SlabZones.TakeChunkOk | Hvac/Hvac/rt-thread/src/slab.c:544-568 | the chunk taken was not live: the next never used, or the one freed last; `z_nfree` stays never-used chunks plus free list |
| SlabZones.GiveChunkOk | Hvac/Hvac/rt-thread/src/slab.c:830-842 | the chunk given back is free; the counts stay right |
| SlabZones.TakeUndoesGive | Hvac/Hvac/rt-thread/src/slab.c:544-568 | in a zone whose chunks have all been used the chunk freed last is taken next, and the zone is as before |
| SlabZones.FullMeansNoneLive | Hvac/Hvac/rt-thread/src/slab.c:854-855 | `z_nfree` is `z_nmax` exactly when nothing of the zone is live |
| SlabZones.MallocKeeps | Hvac/Hvac/rt-thread/src/slab.c:534-659 | never hands out a live chunk; which requests are refused; zones stay linked if and only if they have free chunks |
| SlabZones.MallocReuses | Hvac/Hvac/rt-thread/src/slab.c:534-659 | a zone is taken into use only when none of the class has a free chunk, first a spare one, then new pages |
| SlabZones.FreeKeeps | Hvac/Hvac/rt-thread/src/slab.c:822-904 | exactly the freed chunk stops being live, also when its zone is given up |
| SlabZones.FreeGivesUp | Hvac/Hvac/rt-thread/src/slab.c:854-904 | a zone is given up exactly when its last chunk is freed and another zone of its class has a free one; two are kept spare, any more go back |
| SlabZones.RunsAreSafe | Hvac/Hvac/rt-thread/src/slab.c:534-904 | the zone invariants hold in every state of every run |
| SlabZones.ChunksApart | Hvac/Hvac/rt-thread/src/slab.c:544-568 | live chunks of a zone do not overlap and stay inside it |
| SlabZones.Allocator.constructor | Hvac/Hvac/rt-thread/src/slab.c:344-394 | the zone size for the heap size; no zone, empty lists |
| SlabZones.ZoneSizeFor | Hvac/Hvac/rt-thread/src/slab.c:374-377 | the loop chooses 32, 64 or 128 kilobytes, each exactly when |
| SlabZones.Allocator.AllocChunk | Hvac/Hvac/rt-thread/src/slab.c:534-652 | the statements of the zone path of `rt_malloc` compute the specified state and answer |
| SlabZones.Allocator.FreeChunk | Hvac/Hvac/rt-thread/src/slab.c:825-904 | the statements of the zone path of `rt_free` compute the specified state |
| SlabZones.Unlinked | Hvac/Hvac/rt-thread/src/slab.c:862-865 | the loop takes exactly that zone out of its list |
| SlabHeap.NewPageIsFresh | Hvac/Hvac/rt-thread/src/slab.c:597-606 | the page allocator never returns a page a zone starts at |
| SlabHeap.SmallAllocKeeps | Hvac/Hvac/rt-thread/src/slab.c:534-659 | zones and page allocator stay in agreement, and the chunk handed out was not live |
| SlabHeap.SmallFreeKeeps | Hvac/Hvac/rt-thread/src/slab.c:822-904 | the same for a freed chunk, also when its zone goes back to the page allocator |
| SlabHeap.RunsAreSafe | Hvac/Hvac/rt-thread/src/slab.c:478-904 | in every run of small and large allocations and frees every zone has an extent of its own |
| SlabHeap.NothingLeaks | Hvac/Hvac/rt-thread/src/slab.c:478-904 | in every run the live pages are those of zones and of large blocks asked for as such: no other call leaves pages behind |
| SlabHeap.ChunksDisjoint | Hvac/Hvac/rt-thread/src/slab.c:478-665 | different live chunks, of whatever zones, occupy disjoint bytes |
| SlabHeap.ChunkApartFromLarge | Hvac/Hvac/rt-thread/src/slab.c:478-665 | nor does a chunk share a byte with a large block |
| MemPool.NextKeeps | Hvac/Hvac/rt-thread/src/mempool.c:303-449 | every step keeps count, chain, partition and the wake-up balance |
| MemPool.RunsAreSafe | Hvac/Hvac/rt-thread/src/mempool.c:77-449 | in every run blocks are free once or handed out, and a thread waits only while every free block is matched by a woken thread |
| MemPool.CallsProceedOrWait | Hvac/Hvac/rt-thread/src/mempool.c:303-449 | in every run a call gets a block exactly if one is free, waits if it may, and else changes nothing; a block given back is handed out next and wakes the latest waiter |
| MemPool.Blocks.constructor | Hvac/Hvac/rt-thread/src/mempool.c:77-124 | the chain runs through all blocks in address order |
| MemPool.Blocks.Take | Hvac/Hvac/rt-thread/src/mempool.c:371-382 | the first block leaves the chain and points to the pool; no other header changes |
| MemPool.Blocks.Give | Hvac/Hvac/rt-thread/src/mempool.c:418-423 | the block becomes the first of the chain |
| MemPool.Blocks.Follow | Hvac/Hvac/rt-thread/src/mempool.c:303-449 | at every step of the protocol the calls on the chain are allowed, chain and count move as the protocol's do, and every block handed out holds its pool's address |
| Ffs.LookupRight | Hvac/Hvac/rt-thread/src/kservice.c:1293-1311 | every entry of the byte table is the lowest one bit of its index |
| Ffs.FfsFindsLowest | Hvac/Hvac/rt-thread/src/kservice.c:1323-1337 | the lowest one bit of any word, counted from 1; 0 exactly for 0 |
| Ffs.Set | Hvac/Hvac/rt-thread/src/scheduler.c:728 | or-ing in a mask adds exactly that priority to the group |
| Ffs.Clear | Hvac/Hvac/rt-thread/src/scheduler.c:820 | and-ing out a mask takes exactly that priority away |
| Scheduler.InsertKeeps | Hvac/Hvac/rt-thread/src/scheduler.c:699-733 | inserting a thread keeps group and lists in agreement |
| Scheduler.RemoveKeeps | Hvac/Hvac/rt-thread/src/scheduler.c:796-826 | so does removing one and changing its state |
| Scheduler.SetPriorityKeeps | Hvac/Hvac/rt-thread/src/thread.c:663-714 | so does a change of priority, in whatever state |
| Scheduler.CloseKeeps | Hvac/Hvac/rt-thread/src/thread.c:105-141 | so does closing a thread |
| Scheduler.ScheduleKeeps | Hvac/Hvac/rt-thread/src/scheduler.c:409-529 | so does scheduling, and unlocked it leaves the most urgent ready or running thread running |
| Scheduler.ScheduleIsFair | Hvac/Hvac/rt-thread/src/scheduler.c:424-505 | a running thread stays exactly while everybody ready is less urgent, or as urgent and it has not yielded, and then leaves all lists as they were; else it goes to the end of its list and the first of the most urgent one runs |
| Scheduler.ScheduleReplaces | Hvac/Hvac/rt-thread/src/scheduler.c:424-505 | a current thread that has stopped running gives way to the first of the most urgent list and is not put back |
| Scheduler.FfsIsFirst | Hvac/Hvac/rt-thread/src/scheduler.c:153-175 | what `__rt_ffs` finds in the group word is the most urgent ready priority |
| Scheduler.NextKeeps | Hvac/Hvac/rt-thread/src/thread.c:315-880 | every thread operation, with its rescheduling, keeps the invariant |
| Scheduler.RunsAreSafe | Hvac/Hvac/rt-thread/src/scheduler.c:153-961 | in every run: bit set iff list non-empty, each ready thread once in its list, only the current thread running and in no list |
| Scheduler.RunsDispatchTheMostUrgent | Hvac/Hvac/rt-thread/src/scheduler.c:409-529 | in every run starting the scheduler, starting a thread, a timeout, a yield, an exit, a schedule call and leaving the critical section, unless it is still locked, leave the most urgent thread running |
| Scheduler.RunsPreemptFairly | Hvac/Hvac/rt-thread/src/scheduler.c:409-529 | in every run a running thread loses the processor only by exiting, to a more urgent thread, or to an equal after it yielded; then it is last in its list |
| Scheduler.OperationsTakeEffect | Hvac/Hvac/rt-thread/src/thread.c:105-890 | in every run threads started, resumed or timed out are ready or running, those suspended or closed are that; nobody else changes but between ready and running; priorities and lock count change as asked only |
| Scheduler.ReadyIsLast | Hvac/Hvac/rt-thread/src/scheduler.c:699-733 | a thread that becomes ready, or changes priority while it is, goes to the end of the list of its priority |
| Scheduler.YieldRotates | Hvac/Hvac/rt-thread/src/thread.c:508-521 | a yield turns the circle of equal-priority threads by one place |
| Scheduler.YieldsGoRound | Hvac/Hvac/rt-thread/src/thread.c:508-521 | k yields among k equals let each run exactly once and restore the order |
| Scheduler.Cpu.constructor | Hvac/Hvac/rt-thread/src/scheduler.c:182-230 | no thread ready, no current thread, unlocked |
| Scheduler.Cpu.InsertThread | Hvac/Hvac/rt-thread/src/scheduler.c:699-733 | the fields, and the group word, after insertion |
| Scheduler.Cpu.RemoveThread | Hvac/Hvac/rt-thread/src/scheduler.c:796-826 | the fields, and the group word, after removal |
| Scheduler.Cpu.HighestReady | Hvac/Hvac/rt-thread/src/scheduler.c:153-175 | the first thread of the most urgent ready priority; nobody ready is more urgent |
| Scheduler.Cpu.Dispatch | Hvac/Hvac/rt-thread/src/scheduler.c:409-529 | the statements of `rt_schedule` compute the specified state and keep the invariant |
| WaitList.Suspend | Hvac/Hvac/rt-thread/src/ipc.c:83-129 | the loop inserts where the specification says |
| WaitList.JoinedIsFair | Hvac/Hvac/rt-thread/src/ipc.c:83-129 | a PRIO list stays sorted; a newcomer stands behind equals and before the less urgent; nobody else moves |
| WaitList.JoinedAdds | Hvac/Hvac/rt-thread/src/ipc.c:83-129 | joining adds that waiter once, with FIFO at the end |
| Semaphore.NextKeeps | Hvac/Hvac/rt-thread/src/ipc.c:330-487 | every step keeps the balance; release overflows exactly at 65535 |
| Semaphore.RunsConserve | Hvac/Hvac/rt-thread/src/ipc.c:330-531 | start + releases = value + grants, and nobody waits while the value is positive |
| Semaphore.CallsProceedOrWait | Hvac/Hvac/rt-thread/src/ipc.c:330-531 | in every run a take gets a unit exactly if there is one, waits if it may, and else changes nothing; a release goes to the first waiter or adds a unit up to 65535 |
| Semaphore.GrantsTheFirst | Hvac/Hvac/rt-thread/src/ipc.c:439-487 | in every run a release goes to the waiter that came first, with PRIO to the most urgent and among equals the first |
| Semaphore.NobodyIsPassedOver | Hvac/Hvac/rt-thread/src/ipc.c:330-487 | whoever waited earlier and is ahead of the one granted was granted before, resets and its own timeout aside |
| Semaphore.Object.TakeUnit | Hvac/Hvac/rt-thread/src/ipc.c:330-415 | the specified state and outcome |
| Semaphore.Object.ReleaseUnit | Hvac/Hvac/rt-thread/src/ipc.c:439-487 | the specified state and outcome |
| Mutex.TakeKeeps | Hvac/Hvac/rt-thread/src/ipc.c:670-815 | a take keeps ownership, inheritance and order; it overflows exactly on a 256th recursive take |
| Mutex.ReleaseKeeps | Hvac/Hvac/rt-thread/src/ipc.c:826-933 | so does a release, and it never overflows |
| Mutex.RunsAreSafe | Hvac/Hvac/rt-thread/src/ipc.c:546-933 | value is 1 iff no owner iff hold is 0; with PRIO the list is sorted and the owner at least as urgent as every waiter |
| Mutex.RunsRestorePriority | Hvac/Hvac/rt-thread/src/ipc.c:869-890 | in every run whoever does not own the mutex is back at its own priority |
| Mutex.OnlyRecursionOverflows | Hvac/Hvac/rt-thread/src/ipc.c:697-709 | the other overflow returns are never taken |
| Mutex.RunsCountHolds | Hvac/Hvac/rt-thread/src/ipc.c:670-933 | in every run, while a thread owns the mutex, `hold` is its successful takes less its releases and its priority the most urgent of its own and of all who came to wait; it ceases to be the owner exactly at the release that brings the difference to 0 |
| Mutex.TakesProceedOrWait | Hvac/Hvac/rt-thread/src/ipc.c:670-815 | in every run a take of a free mutex makes the taker its owner, one of a mutex owned by another joins the waiters if it may and else changes nothing |
| Mutex.NobodyIsDropped | Hvac/Hvac/rt-thread/src/ipc.c:670-933 | in every run a waiter goes on waiting until the mutex is handed to it or its time is up |
| Mutex.HandsToMostUrgent | Hvac/Hvac/rt-thread/src/ipc.c:877-905 | a PRIO mutex is handed to a most urgent waiter, among equals to the one that came first |
| Mutex.HandsToTheFirst | Hvac/Hvac/rt-thread/src/ipc.c:877-905 | in every run a mutex passes from one thread to the next by hand-over to the waiter ahead of all others, FIFO or PRIO, and these go on waiting |
| Mutex.FifoHandOver | Hvac/Hvac/rt-thread/src/ipc.c:877-905 | a FIFO hand-over leaves the owner urgent enough if and only if nobody behind it was more urgent |
| Mutex.OtherStepsKeepUrgent | Hvac/Hvac/rt-thread/src/ipc.c:670-933 | no other step makes a FIFO owner less urgent than a waiter |
| Mutex.FifoRunsAreUrgent | Hvac/Hvac/rt-thread/src/ipc.c:670-933 | over a run of a FIFO mutex the owner is always urgent enough if and only if every hand-over met that condition |
| Mutex.FifoInversion | Hvac/Hvac/rt-thread/src/ipc.c:877-905 | a run in which it does not |
| Mutex.Lock.constructor | Hvac/Hvac/rt-thread/src/ipc.c:546-568 | a free mutex |
| Mutex.Lock.TakeLock | Hvac/Hvac/rt-thread/src/ipc.c:670-815 | the specified state and outcome |
| Mutex.Lock.ReleaseLock | Hvac/Hvac/rt-thread/src/ipc.c:826-933 | the specified state and outcome |
| Event.SweepSuffices | Hvac/Hvac/rt-thread/src/ipc.c:1106-1160 | after one pass no remaining waiter is satisfied by the flags left |
| Event.SweepIsRetry | Hvac/Hvac/rt-thread/src/ipc.c:1081-1305 | a send resumes whom, reports what and clears what the waiters' own retries in list order would |
| Event.NobodyWaitsInVain | Hvac/Hvac/rt-thread/src/ipc.c:1081-1345 | in every run no suspended thread's condition is met |
| Event.SendsAreRetries | Hvac/Hvac/rt-thread/src/ipc.c:1081-1305 | in every run each send is such a round of retries |
| Event.ReceivesProceedOrWait | Hvac/Hvac/rt-thread/src/ipc.c:1186-1305 | in every run a receive succeeds exactly when all, or with OR any, of its flags are up, returns those and clears what it asked for if it says so; else it waits if it may, or changes nothing |
| Event.SendsAreHonest | Hvac/Hvac/rt-thread/src/ipc.c:1081-1168 | in every run a send resumes each waiter or keeps it, tells those it resumes of flags that are up and asked for, and leaves the flags nobody cleared |
| Event.OtherCallsDo | Hvac/Hvac/rt-thread/src/ipc.c:1317-1345 | a reset leaves no flag and nobody waiting; a timeout takes its waiter only |
| Event.Pass | Hvac/Hvac/rt-thread/src/ipc.c:1106-1160 | the loop over the suspended threads computes the specified pass |
| Event.Object.constructor | Hvac/Hvac/rt-thread/src/ipc.c:967-984 | no flag set, nobody waiting |
| Event.Object.SendFlags | Hvac/Hvac/rt-thread/src/ipc.c:1081-1168 | the specified state and grants |
| Event.Object.ReceiveFlags | Hvac/Hvac/rt-thread/src/ipc.c:1186-1305 | the specified state and outcome |
| Mailbox.NextKeeps | Hvac/Hvac/rt-thread/src/ipc.c:1510-1795 | every step keeps ring, count and wake-up balance; the overflow return is never taken |
| Mailbox.RunsAreSafe | Hvac/Hvac/rt-thread/src/ipc.c:1510-1795 | in = (out + entry) mod size, and nobody is stranded at either end |
| Mailbox.CallsProceedOrWait | Hvac/Hvac/rt-thread/src/ipc.c:1510-1795 | in every run a send is done exactly if there is room and a receive if there is a mail; else the call waits if it may, or changes nothing |
| Mailbox.WakesTheFirst | Hvac/Hvac/rt-thread/src/ipc.c:1620-1795 | in every run a mail posted wakes the first receiver, a mail fetched the first sender, and no other step of a call wakes anybody |
| Mailbox.NobodyIsDropped | Hvac/Hvac/rt-thread/src/ipc.c:1510-1795 | in every run a waiter goes on waiting until it is woken, its time is up, or the mailbox is reset |
| Mailbox.RunsAreFifo | Hvac/Hvac/rt-thread/src/ipc.c:1510-1795 | over any stretch without a reset, mails at the start and then sent are those read at `out_offset` and then left, in that order |
| Mailbox.Object.constructor | Hvac/Hvac/rt-thread/src/ipc.c:1362-1389 | an empty mailbox |
| Mailbox.Object.Send | Hvac/Hvac/rt-thread/src/ipc.c:1510-1638 | the specified state; sent exactly when there was room |
| Mailbox.Object.Receive | Hvac/Hvac/rt-thread/src/ipc.c:1667-1795 | the specified state; the mail is the oldest one sent |
| MessageQueue.OwnedAlone | Hvac/Hvac/rt-thread/src/ipc.c:2160-2169 | a slot a sender is copying into is in no other hands |
| MessageQueue.ReceivedAlone | Hvac/Hvac/rt-thread/src/ipc.c:2436-2461 | nor is a slot a receiver is copying out of |
| MessageQueue.PublishCounts | Hvac/Hvac/rt-thread/src/ipc.c:2186-2195 | `entry` is below its maximum whenever a slot is published |
| MessageQueue.CopyInKeeps | Hvac/Hvac/rt-thread/src/ipc.c:2166-2169 | a byte copied with interrupts enabled stays in its slot and disturbs nothing queued, sent or received |
| MessageQueue.PublishKeeps | Hvac/Hvac/rt-thread/src/ipc.c:2171-2208 | linking a filled slot keeps partition, contents and wake-up balance |
| MessageQueue.NextKeeps | Hvac/Hvac/rt-thread/src/ipc.c:2056-2546 | so does every other step, and none is undefined |
| MessageQueue.InitialInv | Hvac/Hvac/rt-thread/src/ipc.c:1862-1912 | the initial queue satisfies the invariant |
| MessageQueue.RunsAreSafe | Hvac/Hvac/rt-thread/src/ipc.c:1862-2546 | in every run slots are partitioned, bytes in flight are intact, no step is undefined, no overflow return is taken |
| MessageQueue.NobodyIsStranded | Hvac/Hvac/rt-thread/src/ipc.c:2056-2484 | suspended receivers (senders) only while every message (free slot) is matched by a woken one; `entry` is the queue length |
| MessageQueue.SendsProceedOrWait | Hvac/Hvac/rt-thread/src/ipc.c:2056-2322 | in every run a send that fits gets the first free slot, waits if there is none and it may, and else changes nothing; an urgent send never waits |
| MessageQueue.ReceivesProceedOrWait | Hvac/Hvac/rt-thread/src/ipc.c:2337-2449 | in every run a receive takes the first message with the size asked for, waits if there is none and it may, and else changes nothing |
| MessageQueue.PublishesTheMessage | Hvac/Hvac/rt-thread/src/ipc.c:2166-2322 | in every run what is published is the message the send came with, whole, first in the queue if urgent and else last |
| MessageQueue.WakesTheFirst | Hvac/Hvac/rt-thread/src/ipc.c:2186-2484 | in every run publishing wakes the first receiver, giving a slot back the first sender, and no other step of a call wakes anybody |
| MessageQueue.NobodyIsDropped | Hvac/Hvac/rt-thread/src/ipc.c:2056-2534 | in every run a waiter goes on waiting until it is woken, its time is up, or the queue is reset |
| MessageQueue.DeliversTheMessage | Hvac/Hvac/rt-thread/src/ipc.c:2436-2461 | in every run what a receive hands over is as long as its buffer, but at most a slot, and agrees with the message its slot was sent with; a buffer as long as the message gets all of it |
| MessageQueue.RunsConserve | Hvac/Hvac/rt-thread/src/ipc.c:2056-2484 | over any stretch without a reset nothing is lost and nothing doubled, urgent or not |
| MessageQueue.RunsAreFifo | Hvac/Hvac/rt-thread/src/ipc.c:2056-2484 | over any such stretch the ordinary messages leave in the order sent, whatever urgent ones are sent meanwhile |
| MessageQueue.TakesWhatIsDue | Hvac/Hvac/rt-thread/src/ipc.c:2436-2449 | every receive takes the urgent message sent last, and if none is urgent the message sent first |
| MessageQueue.NobodyIsPassedOver | Hvac/Hvac/rt-thread/src/ipc.c:2056-2484 | when a message is taken, every one queued earlier and due before it has been taken |
| MessageQueue.UrgentIsNext | Hvac/Hvac/rt-thread/src/ipc.c:2244-2322 | an urgent message is what a receive takes that comes in the very next step (`TakesWhatIsDue` has the order in general) |
| MessagePool.Links.constructor | Hvac/Hvac/rt-thread/src/ipc.c:1891-1903 | all slots chained as free, the last one first |
| MessagePool.Links.TakeFree | Hvac/Hvac/rt-thread/src/ipc.c:2160-2167 | the first free slot, or null when there is none |
| MessagePool.Links.Append | Hvac/Hvac/rt-thread/src/ipc.c:2173-2195 | the slot is last in the queue; both chains intact; no overflow |
| MessagePool.Links.Prepend | Hvac/Hvac/rt-thread/src/ipc.c:2286-2303 | the slot is first in the queue; both chains intact; no overflow |
| MessagePool.Links.TakeHead | Hvac/Hvac/rt-thread/src/ipc.c:2436-2449 | the first slot leaves the queue |
| MessagePool.Links.Release | Hvac/Hvac/rt-thread/src/ipc.c:2459-2461 | the slot is first in the free chain |
| MessagePool.Links.Reset | Hvac/Hvac/rt-thread/src/ipc.c:2516-2534 | the queue is empty and all its slots are free |
| MessagePool.HeldApart | Hvac/Hvac/rt-thread/src/ipc.c:2160-2461 | a slot that a call holds is a slot of the pool, in neither chain and in no other call's hands |
| MessagePool.Links.Follow | Hvac/Hvac/rt-thread/src/ipc.c:2056-2534 | at every step of the protocol the calls on the chains are allowed, and free chain, queue chain and `entry` move exactly as the protocol's lists do |
| Register.RunInjective | Hvac/Hvac/applications/Gpio/Gpio.c:99-119 | different registers stay different however the input goes on |
| Register.ChangeShows | Hvac/Hvac/applications/Gpio/Gpio.c:99-119 | a reversible register that tells w symbols apart shows every change within w consecutive symbols |
| Register.BurstShows | Hvac/Hvac/applications/Gpio/Gpio.c:99-119 | such a register shows every change within as many consecutive bits as w symbols have, wherever they start |
| Crc16.TurnEight | Hvac/Hvac/applications/Gpio/Gpio.c:106-114 | the inner loop is eight turns of the register |
| Crc16.ModbusCrc | Hvac/Hvac/applications/Gpio/Gpio.c:99-119 | the nested loops compute the CRC register from seed 0xFFFF |
| Crc16.CheckValue | Hvac/Hvac/applications/Gpio/Gpio.c:99-119 | the CRC of the characters 123456789 is 0x4B37 |
| Crc16.RunWord | Hvac/Hvac/applications/Gpio/Gpio.c:99-119 | two bytes are absorbed as one 16-bit word |
| Crc16.TwoByteChangeShows | Hvac/Hvac/applications/Gpio/Gpio.c:99-119 | equal-length messages that differ only within two consecutive bytes have different CRCs |
| Crc16.ByteIsSerial | Hvac/Hvac/applications/Gpio/Gpio.c:103-115 | absorbing a byte is absorbing its bits one turn each, the lowest first |
| Crc16.SixteenBitChangeShows | Hvac/Hvac/applications/Gpio/Gpio.c:99-119 | equal-length messages that differ only within 16 consecutive bits, across byte borders or not, have different CRCs |
| Crc16.AcceptsIffResidueZero | Hvac/Hvac/applications/Uart/UartDataLayer.c:36-39 | the receiver's test is that the CRC over the whole frame is 0 |
| Crc16.SealedIsAccepted | Hvac/Hvac/applications/Uart/UartDataLayer.c:501-503 | low-then-high CRC bytes are the only two that make a body acceptable |
| Crc16.DamagedFrameRefused | Hvac/Hvac/applications/Uart/UartDataLayer.c:36-39 | an accepted frame damaged within two consecutive bytes is refused |
| Crc16.BurstRefused | Hvac/Hvac/applications/Uart/UartDataLayer.c:36-39 | so is one damaged within 16 consecutive bits |
| Crc16.Receiver.Input | Hvac/Hvac/applications/Uart/UartDataLayer.c:24-53 | accepted exactly with residue 0 and two bytes; the flag is set exactly for frames addressed here |
| Crc16.Screen | Hvac/Hvac/applications/Uart/UartDataLayer.c:110-125 | handled exactly when the first size mod 256 bytes are more than two and have residue 0 |
| Crc16.AcceptedReaches | Hvac/Hvac/applications/Uart/UartDataLayer.c:110-125 | an accepted frame below 256 bytes reaches the handlers exactly with more than two bytes |
| Crc16.LongFrameIsLost | Hvac/Hvac/applications/Uart/UartDataLayer.c:110-125 | every sealed body of 254 bytes is accepted and then lost |
| Crc16.Seal | Hvac/Hvac/applications/Uart/UartDataLayer.c:501-503 | the buffer ends in its CRC and is acceptable; nothing else is written |
| Crc16.RegisterFrame | Hvac/Hvac/applications/Uart/UartDataLayer.c:479-506 | the 15 bytes of the registration frame, acceptable to the receiver; 0 for no buffer |
| Crc16.RegisterReadBack | Hvac/Hvac/applications/Uart/UartDataLayer.c:479-506 | code, length, address, kind, the whole id and the CRC can be read back from the frame |
| Crc16.WriteReply | Hvac/Hvac/applications/Uart/UartDataLayer.c:245-253 | the 8 bytes of the write-multiple reply, acceptable to the receiver |
| Crc32.EntryRight | Hvac/Hvac/applications/crc_32.c:13-46 | each of the 256 table entries is the remainder of its index |
| Crc32.TableStep | Hvac/Hvac/applications/crc_32.c:57-58 | one lookup is eight steps of the reflected division |
| Crc32.CyclicCrc | Hvac/Hvac/applications/crc_32.c:48-62 | the table loop is the bit-by-bit division, for every input and start value |
| Crc32.Crc | Hvac/Hvac/applications/crc_32.c:64-67 | the checksum of section 8 of RFC 1952 |
| Crc32.CheckValue | Hvac/Hvac/applications/crc_32.c:64-67 | the checksum of the characters 123456789 is 0xCBF43926 |
| Crc32.RunConcat | Hvac/Hvac/applications/crc_32.c:48-62 | a message may be fed in pieces |
| Crc32.FourByteChangeShows | Hvac/Hvac/applications/crc_32.c:48-62 | equal-length messages that differ only within four consecutive bytes have different checksums |
| Crc32.ThirtyTwoBitChangeShows | Hvac/Hvac/applications/crc_32.c:48-62 | the same for 32 consecutive bits, across byte borders or not |
| Thermostat.RelaysAreDetermined | Hvac/Hvac/applications/Control/Control.c:298-368 | in a wired mode the relays follow from reading, stage and mode alone |
| Thermostat.RelaysFollowTheTemperature | Hvac/Hvac/applications/Control/Control.c:311-368 | after every step of every run, from the reading alone: above the band it cools, below it heats, each with the relays of its mode, and between or without a reading all is off |
| Thermostat.SecondStageIsExact | Hvac/Hvac/applications/Control/Control.c:341-355 | in every run the second stage is on if and only if more than 300 counts after the readings turned to this side the temperature was still within 10 of what it was then |
| Thermostat.TurnExists | Hvac/Hvac/applications/Control/Control.c:341-348 | every reading outside the band has such a turn behind it |
| Thermostat.ReportsTheSide | Hvac/Hvac/applications/Control/Control.c:298-368 | the direction reported in every mode; modes that are not wired only ever switch relays off |
| Thermostat.RunsAreSteady | Hvac/Hvac/applications/Control/Control.c:341-355 | what the static variables remember about the readings so far |
| Thermostat.RunsAreSafe | Hvac/Hvac/applications/Control/Control.c:298-368 | never W2 with Y2; G iff W or Y; second stage only after more than 300 counts of one direction |
| Thermostat.Program.CtrlRelay | Hvac/Hvac/applications/Control/Control.c:447-560 | the five relays by direction, stage and mode |
| Thermostat.Program.Control | Hvac/Hvac/applications/Control/Control.c:298-368 | the step as specified |

## Left out

- The SMP, signal, module and more-than-32-priorities branches, which the configured build does not contain.
- Timer internals: starting and stopping a timer has no state here, and expiry is an event that may happen at any moment.
- Hooks, debug output, memory tracing, stack checks, the hardware context switch and `rt_current_priority`, which nothing modelled reads.
- Detaching or deleting an IPC object or a memory pool while threads wait on it.
- Resuming a thread that waits on a semaphore, mutex or event from outside: its call would return success without a grant. The mailbox, message queue and memory pool retry, and there it is modelled.
- Mutexes taken together: inheritance through more than one mutex, and `rt_thread_control` changing the priority of a waiting or owning thread meanwhile.
- The lock of the small heap: `rt_realloc` releases it between its allocation, copy and free; the model runs them in one piece.
- SmallHeap.Heap.MemCopy: copies whole words between disjoint aligned areas, because the heap is modelled by words and `rt_realloc` only ever asks for that; `Words.MemCpy` has the general case.
- Words.CopyWords: the same.
- Words.MemCpy: overlapping areas, for which the result depends on the alignment, and counts of 2^31 and more are not modelled.
- SmallHeap.Heap.constructor: the two half words of a block's tag are one word, and regions too small for one minimal block are excluded because the search never ends on them.
- MemHeap.Heap.constructor: pools below two headers and 12 bytes are excluded because `rt_memheap_init` lays its headers over each other there; block headers are fields by address, apart from the words of the data areas, so of `data` nothing is stated under a header, in free memory or in a block not yet written, beyond which words a call writes.
- `rt_calloc`, `rt_malloc_align`, the heap wrappers of `memheap.c`, and `rt_realloc` of `slab.c`, which only call what is modelled.
- MemPool.Blocks.constructor: a pool without a block is excluded because `rt_mp_init` writes before it.
- SlabHeap.RunsAreSafe: how a large size in bytes is rounded to pages, the page table that leads `rt_free` from an address to its zone, and the memory statistics of `slab.c`, are not modelled; a chunk is named by zone and place, a large block by its extent.
- PageAlloc.Pages.AllocPages: the list is a sequence of extents rather than links stored in the free pages themselves.
- Event.Object.SendFlags: a 32-bit mask is the set of its one bits, and options with neither AND nor OR are excluded, as the source asserts.
- Crc16.Screen: the handlers behind the check, the register map and the read-multiple reply are not modelled.
- Thermostat.Program.Control: time does not wrap, the readings and settings are arguments, and the order in which one call writes the relays is not modelled.
- Drivers, board setup, flash, display, buttons, `Communicate.c`, `Ntc.c`, `object.c`, `device.c`, `idle.c`: input, output and plumbing.
