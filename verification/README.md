# Verified models of the systems programs

This project models the data-structure cores of a collection of C programs and proves what they
promise. `dafny verify dfyconfig.toml` checks all of it.

**The explicit-free-list allocator** (`Efficient Mallocs/mm_freeList.c` over `memlib.c`, with the
`mm_realloc` of the first copy in `test.c`). `Allocators.Allocator` is the program: a word array, the break and
the list head, with one method for each function. Every method is proved against a function on
`HeapSpec.Heap`, a value made of the set of blocks, the free list and the break. `HeapMemory.Rep` says that
memory represents such a value: each block's header and footer, the epilogue, and the two links in every free
payload. `HeapOutcomes` says of each operation, on every path, which block it takes and what becomes of the space.
What the program promises is proved of the functions (tiling, no two adjacent free blocks, first fit,
conservation, safety over whole runs) and of memory itself (`HeapDecode` reads blocks and list back from the
words alone). The driver of `mdriver.c` runs on top of this class.

**uthash** (`Simple XSSHell/uthash.h`). Elements, table and bucket array are heap objects that the methods
relink in place. `Uthash.HashHead.Valid` says that the application list `A`, the chains `B` and the counters
agree; it is stronger than the library's `HASH_FSCK`, which `HashCheck.Fsck` models: it finds exactly the wrong
links back and counts, and so nothing here. Each operation is tied to a finite map and an insertion order.

`HASH_SRT` is the library's own copy of the bottom-up merge sort, on null-terminated lists; it shares the theory
of `StableSort` with the sort of list.h.

**list.h** and its in-place merge sort, **disksim.c**'s disk-arm schedulers over those lists, the K-best
sampler of **fcyc.c**, and **fcfs_tick** of `schedsim.c`.

## How to read the models

- An address is an offset from `mem_heap_lo()`, which is taken to be 8-aligned; the null pointer is 0, an offset
  no block has. A pointer is one 4-byte word, as the `-m32` build makes it. The arithmetic of `size_t` wraps at
  2^32 exactly where the code computes block sizes.
- `mm_init` leaves the word at offset 40 as it finds it, and `coalesce` reads it as the size of a block left of
  the first. That it holds no size (is below 8) is a precondition of `Allocator.Init`; nothing ever writes it.
- `HeapSpec.Build` selects the constants of `mm_freeList.c` or of `test.c`. The algorithms agree, so one class
  serves both. What is proved of `mm_realloc` for the constants of `mm_freeList.c` is about no program of the
  repository: that function is `test.c`'s, and only its own constants make it so. In `mm_freeList.c` `CHUNKSIZE`
  is `1<<12` without parentheses, so that `CHUNKSIZE/WSIZE` is `1<<(12/4)`: the first extension is 8 words, not
  the 4096 bytes its comment suggests.
- Hash values come from an arbitrary function of the key; a key is a string compared by length and content.
- A handle lies at a fixed offset in its structure, so an element and its handle are one object; likewise a
  `list_head` and the structure around it.
- The random direction that `Up_or_Down` draws, a function's measured times and the lines of the input files are
  parameters.
- Some methods carry out part of one C function (`MergeRuns`, `PlaceRest`, `RefileChain` and others); their
  comments say which. Ghost parameters name the sequences of nodes that the pointers link.

## Where the code differs from what it is for

Each of these has its exact condition, for all inputs, and a lemma with an input at which it shows.

- A request above 2^32 - 16 bytes wraps to a small block (`HeapSpec.BlockSizeFits`, `HeapRuns.WrappedRequest`).
- `mem_sbrk` compares a 32-bit pointer sum with the end of the storage. Its test refuses exactly what the
  storage cannot hold if and only if the sum does not wrap; a sum that wraps is let pass
  (`Allocators.BreakTest`, `Allocators.BreakTestPasses`). `Allocator.Malloc` requires that the sum does not wrap
  when it has to extend the heap (`Allocator.CanAsk`); the driver's passes require it of every size in the trace
  (`Allocator.Askable`).
- The driver's overlap test looks at the end points only, and misses exactly a new range that strictly contains
  an old one (`Traces.EndTestMisses`, `Traces.EndTestMissesOne`). This allocator never gives it one
  (`Traces.NewRangeFits`).
- The driver compares a signed `char` with `index & 0xFF`, so the REALLOC check reports lost data exactly when
  the low byte of the index is 128 or more (`Traces.KeptDataMatches`, `Traces.KeptDataReported`,
  `Drivers.Driver.ValidRealloc`).
- `sstf_tick` sorts once by distance from the start. The order it serves takes a nearest request at every step
  if and only if each crossing from one side of the start to the other is no longer than the way to what is left
  behind, a comparison of recorded distances (`DiskOrders.SstfIsNearestFirst`); from 50, the requests 60, 35 and
  75 break it (`DiskOrders.SstfIsNotNearestFirst`).
- `cscan_tick` adds `abs(prevDist + cylinder)` at the ends of the disk. What it reports exceeds the distance
  travelled by exactly 400 for each entry at cylinder 200, and there is always one (`DiskSims.CscanTick`,
  `DiskOrders.CscanOverstates`). The same expression in `clook_tick` is reached at cylinder 0 only, where it is
  the distance: that total is right (`DiskSims.ClookTick`).

## Model

| member | source | states |
|---|---|---|
| HeapSpec.BlockSizeAligned | Efficient Mallocs/mm_freeList.c:166-166 | adjusted sizes are multiples of 8 and at least 24, for every 32-bit request |
| HeapSpec.BlockSizeFits | Efficient Mallocs/mm_freeList.c:166-166 | the adjusted size has room for the request if and only if the request is at most 2^32 - 16 |
| HeapSpec.CoalesceKeeps | Efficient Mallocs/mm_freeList.c:272-313 | in each of the four cases, from a heap right but for one free unlisted block, coalescing restores tiling, list and absence of adjacent free blocks |
| HeapSpec.ReleaseKeeps | Efficient Mallocs/mm_freeList.c:255-262 | freeing any allocated block keeps the whole invariant |
| HeapSpec.PlaceKeeps | Efficient Mallocs/mm_freeList.c:227-250 | both branches of place keep the whole invariant |
| HeapSpec.ExtendKeeps | Efficient Mallocs/mm_freeList.c:129-153 | extension keeps the whole invariant, with the old last block free or not |
| HeapSpec.ExtendFits | Efficient Mallocs/mm_freeList.c:182-190 | what a successful extension returns holds the request even after merging to the left |
| HeapSpec.MallocKeeps | Efficient Mallocs/mm_freeList.c:163-191 | mm_malloc keeps the invariant for every size |
| HeapSpec.CutKeeps | Efficient Mallocs/test.c:226-240 | splitting an allocated block in mm_realloc keeps the invariant |
| HeapSafety.ReleaseLive | Efficient Mallocs/mm_freeList.c:255-262 | exactly the freed block stops being live; every other keeps its place and size |
| HeapSafety.PlaceLive | Efficient Mallocs/mm_freeList.c:227-250 | exactly one block becomes live, at the split size or whole |
| HeapSafety.MallocLive | Efficient Mallocs/mm_freeList.c:163-191 | a success adds one block that was not live, at most 23 bytes larger than the adjusted size; a failure changes nothing |
| HeapTheorems.FirstFit | Efficient Mallocs/mm_freeList.c:200-216 | the search returns the first listed block that fits, or null when none does |
| HeapTheorems.FirstFitComplete | Efficient Mallocs/mm_freeList.c:200-216 | null is returned if and only if no free block anywhere in the heap fits |
| HeapTheorems.MallocComplete | Efficient Mallocs/mm_freeList.c:163-191 | null if and only if the size is 0, or nothing fits and mem_sbrk refuses; the break moves only when nothing fits |
| HeapTheorems.PlaceSplits | Efficient Mallocs/mm_freeList.c:227-250 | the coalescing inside a split merges nothing: the rest becomes its own block at the head of the list |
| HeapTheorems.WalkMember | Efficient Mallocs/mm_freeList.c:58-58 | stepping right from any block meets every block from there on, and no other |
| HeapTheorems.Conservation | Efficient Mallocs/mm_freeList.c:255-313 | the blocks in address order tile the heap: their sizes add up to mem_heapsize() - 48 |
| HeapTheorems.AllFreed | Efficient Mallocs/mm_freeList.c:255-313 | with nothing live the heap is one free block of everything |
| HeapOutcomes.CoalesceGivesBack | Efficient Mallocs/mm_freeList.c:272-313 | the space is in one free block that covers the free neighbours too, in front of the list; every other block is as it was, and the list goes on in its old order |
| HeapOutcomes.ReleaseGivesBack | Efficient Mallocs/mm_freeList.c:255-262 | freeing gives exactly the space of the block back in this way |
| HeapOutcomes.ExtendGivesBack | Efficient Mallocs/mm_freeList.c:129-153 | extending gives exactly the new space back in this way and moves the break by it |
| HeapOutcomes.BlockSizeLeast | Efficient Mallocs/mm_freeList.c:166-166 | the adjusted size is the least that a block with room for the request can have; when the sum wraps it is 24 |
| HeapOutcomes.Growth | Efficient Mallocs/mm_freeList.c:183-184 | mm_freeList.c extends by 4096 bytes or what is needed, whichever is more; test.c by what is needed |
| HeapOutcomes.PlaceUses | Efficient Mallocs/mm_freeList.c:227-250 | 24 bytes or more left over are split off and are then first on the list; less stays with the block |
| HeapOutcomes.MallocOutcome | Efficient Mallocs/mm_freeList.c:163-191 | if any free block fits, the first on the list that does is used; else, if the storage holds the extension, the free space that then ends at the break; else nothing happens |
| HeapOutcomes.ReallocOfNull | Efficient Mallocs/test.c:212-220 | of a null pointer: null exactly when the size is 0 or mm_malloc cannot serve it, else one new live block less than 24 bytes above the adjusted size |
| HeapOutcomes.ReallocShrinks | Efficient Mallocs/test.c:221-240 | of a block large enough: it stays, with at most 24 bytes to spare; more than 24 left over are given back, and the break does not move |
| HeapOutcomes.ReallocGrows | Efficient Mallocs/test.c:241-252 | of a block too small: null, and nothing happens, exactly when mm_malloc cannot serve the size; else a new block where mm_malloc puts it, and the old one given back |
| HeapOutcomes.ReallocFrees | Efficient Mallocs/test.c:212-216 | of size 0: null, and the block is given back |
| HeapRuns.ReallocKeeps | Efficient Mallocs/test.c:207-252 | every path of mm_realloc keeps the invariant and changes no live block but the one given (what each path does: HeapOutcomes) |
| HeapRuns.ReallocFails | Efficient Mallocs/test.c:241-245 | on a positive size and a live block, null is returned only if mm_malloc fails |
| HeapRuns.StepKeeps | Efficient Mallocs/mm_freeList.c:163-262 | every legal request keeps the invariant, and what each live block was asked to hold stays in step with the heap |
| HeapRuns.Run | Efficient Mallocs/mm_freeList.c:86-313 | so does every sequence of requests that were legal when made |
| HeapRuns.RunsAreSafe | Efficient Mallocs/mm_freeList.c:86-313 | over every run of allocations, frees and resizes, live blocks are aligned, inside the heap, disjoint and large enough (exactly when sizes do not wrap) |
| HeapRuns.RunsGiveAllBack | Efficient Mallocs/mm_freeList.c:255-313 | after any run that ends with nothing live, in any order of frees, the heap is one free block of all of it |
| HeapRuns.WrappedRequest | Efficient Mallocs/mm_freeList.c:163-191 | on the first heap a request for 2^32 - 8 bytes is given a block of 32 bytes, or 24 |
| HeapDecode.MemoryWords | Efficient Mallocs/mm_freeList.c:43-66 | the words themselves: prologue, epilogue and every tag as size plus allocated bit; start is the head of the list, or the prologue when it is empty |
| HeapDecode.MemoryTiles | Efficient Mallocs/mm_freeList.c:46-59 | walking the headers in memory meets exactly the blocks, each footer equal to its header |
| HeapDecode.MemoryList | Efficient Mallocs/mm_freeList.c:200-216 | following prev links in memory from start visits exactly the blocks tagged free, each once |
| HeapDecode.MemoryLinks | Efficient Mallocs/mm_freeList.c:322-349 | next links are the inverse of prev links; the head has none and the last leads to the prologue |
| HeapMemory.LeftReads | Efficient Mallocs/mm_freeList.c:275-275 | the words that coalesce reads tell exactly whether the left neighbour is free, for the first block too |
| HeapMemory.RightReads | Efficient Mallocs/mm_freeList.c:276-276 | the words that coalesce reads tell exactly whether the right neighbour is free, at the epilogue too |
| Allocators.Allocator.constructor | Efficient Mallocs/memlib.c:25-35 | storage at a given address inside the 32-bit space, nothing in use; its zeros are an assumption |
| Allocators.Allocator.ResetBrk | Efficient Mallocs/memlib.c:48-51 | the heap is empty again, the storage keeps its contents |
| Allocators.BreakTest | Efficient Mallocs/memlib.c:62-62 | the test refuses exactly what the storage cannot hold if and only if the 32-bit sum does not wrap; a sum that wraps is never refused |
| Allocators.BreakTestPasses | Efficient Mallocs/memlib.c:62-62 | storage at 0xF0000000 and a request for 256 MB |
| Allocators.Allocator.Sbrk | Efficient Mallocs/memlib.c:58-69 | the break moves by the increment and the old one is returned, or -1 and nothing changes; when the sum wraps the break leaves the storage |
| Allocators.Allocator.InsertBlock | Efficient Mallocs/mm_freeList.c:322-328 | memory represents the list with the block in front; no live word changes |
| Allocators.Allocator.RemoveBlock | Efficient Mallocs/mm_freeList.c:338-349 | memory represents the list without the block, wherever it stood; only link words change |
| Allocators.Allocator.CoalesceBlock | Efficient Mallocs/mm_freeList.c:272-313 | memory afterwards represents the coalesced heap, with the full invariant; no live word changes |
| Allocators.Allocator.Free | Efficient Mallocs/mm_freeList.c:255-262 | memory represents the released heap; no word of another live payload changes |
| Allocators.Allocator.FindFreeBlock | Efficient Mallocs/mm_freeList.c:200-216 | the loop over links in memory computes first fit |
| Allocators.Allocator.PlaceBlock | Efficient Mallocs/mm_freeList.c:227-250 | memory represents the heap with the block placed; no live word changes |
| Allocators.Allocator.ExtendHeap | Efficient Mallocs/mm_freeList.c:129-153 | memory represents the extended heap, or null and nothing changes |
| Allocators.Allocator.Malloc | Efficient Mallocs/mm_freeList.c:163-191 | memory afterwards represents the heap of HeapOutcomes.MallocOutcome; live payloads are untouched; failure changes nothing |
| Allocators.Allocator.Init | Efficient Mallocs/mm_freeList.c:86-119 | the first heap: prologue, and one free block of the first extension, 32 bytes with the constants of mm_freeList.c and 24 with those of test.c |
| Allocators.Allocator.Memcpy | Efficient Mallocs/test.c:248-248 | the first n bytes are copied, other live payloads untouched |
| Allocators.Allocator.Memset | Efficient Mallocs/mdriver.c:625-625 | n bytes of one payload hold the value, other live payloads are untouched |
| Allocators.Allocator.Realloc | Efficient Mallocs/test.c:207-252 | memory afterwards represents the heap of the HeapOutcomes lemmas; on every path the first min(old payload, size) bytes are kept, other payloads untouched, and the old block is untouched when allocation fails |
| Traces.EndTestMisses | Efficient Mallocs/mdriver.c:407-416 | overlap and a passed end-point test occur together if and only if the new range strictly contains the old |
| Traces.EndTestMissesOne | Efficient Mallocs/mdriver.c:407-416 | the range 48 to 63 passes the test against 56 to 60 |
| Traces.NewRangeFits | Efficient Mallocs/mdriver.c:381-429 | a block from this allocator passes all three checks of add_range |
| Traces.KeptDataMatches | Efficient Mallocs/mdriver.c:653-661 | the data comparison succeeds on correctly kept data if and only if the low byte of the index is below 128 |
| Traces.KeptDataReported | Efficient Mallocs/mdriver.c:653-661 | one kept byte of index 128 is reported as lost |
| Traces.TotalFits | Efficient Mallocs/mdriver.c:729-734 | the bytes asked for in live blocks never exceed the heap |
| Traces.TotalStep | Efficient Mallocs/mdriver.c:713-775 | the running total is the sum of the live requests after each operation |
| Traces.TotalMoves | Efficient Mallocs/mdriver.c:713-775 | what each operation adds to the live total: its size, less the size recorded before for REALLOC and FREE |
| Traces.LiveIs | Efficient Mallocs/mdriver.c:604-675 | an index is live after a trace if and only if the last operation on it is not FREE |
| Traces.SizeIs | Efficient Mallocs/mdriver.c:724-747 | the size recorded for an index is that of its last ALLOC or REALLOC |
| Traces.RemoveFirstIs | Efficient Mallocs/mdriver.c:440-448 | removing an address from a range list drops exactly the first range that starts there |
| Drivers.Driver.AddRange | Efficient Mallocs/mdriver.c:381-429 | accepts exactly aligned ranges inside the heap without an end point in an old one, and then records the range |
| Drivers.Driver.RemoveRange | Efficient Mallocs/mdriver.c:434-449 | the first range with that address leaves the list |
| Drivers.Driver.ValidAlloc | Efficient Mallocs/mdriver.c:604-630 | never reports a range error; heap, slots, ranges and contents still agree; fails only when the heap cannot hold the block |
| Drivers.Driver.ValidRealloc | Efficient Mallocs/mdriver.c:632-667 | never reports a range error; reports lost data if and only if the index's low byte is 128 or more |
| Drivers.Driver.ValidFree | Efficient Mallocs/mdriver.c:669-675 | heap, slots, ranges and contents agree on what is left |
| Drivers.Driver.EvalValid | Efficient Mallocs/mdriver.c:577-685 | on every well-formed trace no alignment, bounds or overlap error; a verdict names the first failing operation, which is a request the heap cannot hold or a REALLOC of an index whose low byte is 128 or more; on success the range list is exactly the live payloads |
| Drivers.Driver.EvalUtil | Efficient Mallocs/mdriver.c:698-778 | the exact maximum of the live totals, at most mem_heapsize() - 48, and its ratio to mem_heapsize(), below 1 |
| Bits.AndMask | Simple XSSHell/uthash.h:207-210 | masking with 2^k - 1 is the remainder by 2^k |
| Bits.ShrDivides | Simple XSSHell/uthash.h:688-690 | shifting right by k is the quotient by 2^k |
| HashSpec.FiledIn | Simple XSSHell/uthash.h:287-337 | an element is in the table if and only if it is on its home chain, and then on no other |
| HashSpec.PushFiles | Simple XSSHell/uthash.h:622-628 | adding at the head of the home chain files one element more |
| HashSpec.DropFiles | Simple XSSHell/uthash.h:636-646 | unlinking from a chain files one element less |
| HashSpec.ExpandFiles | Simple XSSHell/uthash.h:677-723 | expansion keeps every element exactly once, on its home chain among twice the buckets |
| HashSpec.ExpandMoves | Simple XSSHell/uthash.h:692-712 | an element of bucket b is afterwards in exactly one of b and b + num_buckets |
| HashSpec.IdealIsCeiling | Simple XSSHell/uthash.h:657-690 | ideal_chain_maxlen is the ceiling of items over new buckets, and is not 0 when there are items |
| HashSpec.ExpandBounds | Simple XSSHell/uthash.h:697-701 | after an expansion the multipliers bound every chain and the whole table |
| HashSpec.MultBetween | Simple XSSHell/uthash.h:699-703 | expand_mult times the ideal length is at most the count, and one more would exceed it; 0 up to the ideal length |
| HashSpec.ExcessIsBehind | Simple XSSHell/uthash.h:697-703 | nonideal_items is the number of elements that stand behind ideal_chain_maxlen or more others on their chains |
| HashSpec.RefilingReverses | Simple XSSHell/uthash.h:694-710 | on each new chain the elements stand in the reverse of the order in which they were met |
| HashSpec.PushedIdeal | Simple XSSHell/uthash.h:629-632 | any expansion that a full bucket triggers computes an ideal chain length from 1 to 10 |
| HashTables.ExpandBuckets | Simple XSSHell/uthash.h:677-723 | twice the buckets, every element on the chain of its hash value modulo their number; expand_mult of each bucket as the quotient of count and ideal length beyond it and 0 up to it; nonideal items counted; noexpand exactly after two ineffective expansions in a row |
| HashTables.AddToBkt | Simple XSSHell/uthash.h:622-633 | the element is filed; the buckets are doubled exactly when the bucket reaches its threshold and expansion is not inhibited |
| HashTables.DelInBkt | Simple XSSHell/uthash.h:636-646 | the chain without the element, relinked both ways, and its count |
| HashTables.FindInBkt | Simple XSSHell/uthash.h:608-619 | an element of the chain with the key, or null when there is none |
| Uthash.HashHead.Find | Simple XSSHell/uthash.h:103-114 | the element with the key, or null if and only if there is none |
| Uthash.HashHead.Add | Simple XSSHell/uthash.h:182-205 | the element goes last in application order, the map gains its key, the two structures agree |
| Uthash.HashHead.Delete | Simple XSSHell/uthash.h:224-257 | the element leaves both structures, order and all other elements are kept |
| Uthash.HashHead.Replace | Simple XSSHell/uthash.h:172-180 | returns and removes the element that had the key, and adds the new one last |
| Uthash.HashHead.Count | Simple XSSHell/uthash.h:889-890 | the number of elements, which is the number of keys |
| Uthash.HashHead.Sort | Simple XSSHell/uthash.h:730-815 | application order ascends in cmp, and elements that cmp holds equal keep their old order; chains, and so every lookup, are unchanged |
| HashSort.SortList | Simple XSSHell/uthash.h:730-815 | the list ascends in cmp, equal elements in their old order; prev, next, head and tail are right |
| Uthash.ContentsHold | Simple XSSHell/uthash.h:103-114 | the map has exactly the elements of the application list, each under its key |
| Uthash.ContentsDropped | Simple XSSHell/uthash.h:224-257 | dropping an element drops exactly its key from the map and its place from the order |
| HashRuns.Do | Simple XSSHell/uthash.h:172-257 | one operation does to the hash what it does to a finite map with its insertion order, and answers with the element that had the key |
| HashRuns.Run | Simple XSSHell/uthash.h:103-257 | every run of adds of new keys, replacements, deletions and lookups leaves the map and the order of the dictionary, and every answer is the dictionary's |
| HashCheck.Fsck | Simple XSSHell/uthash.h:287-337 | the library's own integrity check finds nothing if and only if every link back and every count is right |
| HashCheck.ValidIsIntact | Simple XSSHell/uthash.h:287-337 | on every hash that the operations build they are right, so it never complains |
| HashCheck.ChainsStayShort | Simple XSSHell/uthash.h:648-656 | while expansion is not inhibited no chain exceeds 10 * (expand_mult + 1) and the load is at most 19 per bucket |
| LinkedLists.AddBetween | Disk Scheduling/list.h:79-87 | the circle with the node between its two neighbours |
| LinkedLists.Add | Disk Scheduling/list.h:97-100 | the circle with the node after its head |
| LinkedLists.AddTail | Disk Scheduling/list.h:110-113 | the circle with the node at its end |
| LinkedLists.Delete | Disk Scheduling/list.h:135-140 | the circle without the node |
| StableSort.SortSorted | Disk Scheduling/list.h:363-430 | the specification is sorted, for any total preorder |
| StableSort.SortElements | Disk Scheduling/list.h:363-430 | the specification is a permutation |
| StableSort.SortStable | Disk Scheduling/list.h:363-430 | equivalent elements keep their order |
| StableSort.SortOrders | Disk Scheduling/list.h:363-430 | for positions i < j of the sorted sequence: in order, and if equivalent then the one at i preceded the other |
| StableSort.MergeSorts | Disk Scheduling/list.h:385-417 | merging two sorted pieces is the stable sort of the two pieces joined |
| StableSort.PassDoubles | Disk Scheduling/list.h:370-424 | a pass at width w turns sorted runs of w into sorted runs of 2w |
| ListSorts.MergeRuns | Disk Scheduling/list.h:385-417 | the merge loop appends the merge of the two runs, with fewer comparisons than nodes |
| ListSorts.SortPass | Disk Scheduling/list.h:371-421 | a pass rebuilds the circle as the pass of the specification, in ceil(n / 2w) merges |
| ListSorts.ListSort | Disk Scheduling/list.h:363-430 | the circle through head ascends in cmp with equal nodes in their old order, after max(1, ceil(log2 n)) passes of at most n - 1 comparisons |
| DiskOrders.MakeTaskPlaces | Disk Scheduling/disksim.c:348-355 | up exactly for a cylinder above the start, so not for the start itself; dist is the distance |
| DiskOrders.ComparatorsOrder | Disk Scheduling/disksim.c:247-298 | all three comparators are total preorders on any tasks |
| DiskOrders.TwoSides | Disk Scheduling/disksim.c:256-298 | the service order is one side's requests, sorted, followed by the other side's |
| DiskOrders.TwoSweeps | Disk Scheduling/disksim.c:256-298 | SCAN and LOOK: two opposite monotone sweeps; CSCAN and CLOOK: two in the same direction |
| DiskOrders.StartServed | Disk Scheduling/disksim.c:256-298 | a request at the start itself counts as one below it: going up it is served after every request above, in CSCAN last of all; going down it is served first |
| DiskOrders.ServedAsTheyCame | Disk Scheduling/disksim.c:247-298 | requests at the same distance, on the same side for all but SSTF, are served as they came |
| DiskOrders.LookTravels | Disk Scheduling/disksim.c:180-205 | LOOK's distance in closed form |
| DiskOrders.ScanTravels | Disk Scheduling/disksim.c:86-126 | SCAN travels start + 200 or 400 - start whatever the requests, and LOOK never more |
| DiskOrders.LookIsOptimal | Disk Scheduling/disksim.c:180-205 | no path that serves every request is shorter than the better of LOOK's two |
| DiskOrders.LookBoundsAll | Disk Scheduling/disksim.c:41-205 | so it is a lower bound on FCFS, SSTF, SCAN, CSCAN and CLOOK |
| DiskOrders.SstfIsNearestFirst | Disk Scheduling/disksim.c:61-84 | SSTF's order serves a nearest request at every step if and only if, at every crossing from a task a to a task b on the other side, each task left on a's side is at least 2 a.dist + b.dist from the start |
| DiskOrders.SstfIsNotNearestFirst | Disk Scheduling/disksim.c:247-254 | from 50, requests 60, 35, 75 are served in this order, though 75 is nearer to 60 than 35 is |
| DiskOrders.CscanOverstates | Disk Scheduling/disksim.c:165-173 | from 50 going up, one request at 60 makes the arm travel 350, with one entry at cylinder 200 |
| DiskOrders.EndsAtTop | Disk Scheduling/disksim.c:128-173 | among what CSCAN queues there is one entry at cylinder 200 more than among the requests |
| DiskOrders.AtTopIs | Disk Scheduling/disksim.c:165-165 | the entries at cylinder 200 are counted by position |
| DiskSims.FcfsTick | Disk Scheduling/disksim.c:41-59 | requests in order of arrival, and the distance of that order |
| DiskSims.SstfTick | Disk Scheduling/disksim.c:61-84 | the stable order by distance from the start, not affected by the field left uncopied |
| DiskSims.ScanTick | Disk Scheduling/disksim.c:86-126 | SCAN's order of the requests with both ends of the disk, and its distance |
| DiskSims.LookTick | Disk Scheduling/disksim.c:180-205 | LOOK's order of the requests, and its distance |
| DiskSims.CscanTick | Disk Scheduling/disksim.c:128-178 | CSCAN's order; the report exceeds the distance by exactly 400 for each entry at cylinder 200, hence always |
| DiskSims.ClookTick | Disk Scheduling/disksim.c:207-244 | CLOOK's order; the report is the distance |
| DiskSims.ReadConfig | Disk Scheduling/disksim.c:342-358 | the source list holds one task for each cylinder, in order; up exactly when it is above the start, dist its distance |
| DiskSims.Simulate | Disk Scheduling/disksim.c:392-402 | each of the six reports is the distance of its own policy's order, CSCAN's with 400 more for the end of the disk and for each request at 200; each is at least the better LOOK, and SCAN's independent of the requests |
| Samplers.Sampler.constructor | Efficient Mallocs/fcyc.c:45-62 | no samples yet |
| Samplers.Sampler.AddSample | Efficient Mallocs/fcyc.c:67-88 | values holds the least k samples of all seen, sorted |
| Samplers.Sampler.HasConverged | Efficient Mallocs/fcyc.c:93-98 | true if and only if at least kbest of the samples seen are at most (1 + epsilon) times the least of them |
| Samplers.InsertKeeps | Efficient Mallocs/fcyc.c:70-76 | a sample changes the least k only if it is below the k-th, and then displaces that one |
| Samplers.LeastKept | Efficient Mallocs/fcyc.c:67-88 | the first k of the ranked samples are k of the samples, ascending, and no other sample is less |
| Samplers.CountIs | Efficient Mallocs/fcyc.c:93-98 | the samples at most x are counted by position, so with multiplicity |
| Samplers.LeastIs | Efficient Mallocs/fcyc.c:93-98 | the least sample is one of them and at most every other |
| Samplers.ConvergedIs | Efficient Mallocs/fcyc.c:93-98 | the comparison of the first and the k-th of the ranked samples decides the count |
| Samplers.Fcyc | Efficient Mallocs/fcyc.c:129-168 | the least of all samples, taken until the first count at which kbest of them are within epsilon of the least, or which reaches the limit; at most max(1, maxsamples) |
| Arrivals.UptoSorts | Cpu Scheduling/schedsim.c:35-51 | queueing tick by tick is the stable sort by arrival of the processes within the span |
| Arrivals.AtHolds | Cpu Scheduling/schedsim.c:39-49 | a tick queues exactly the processes that arrive at it |
| Arrivals.ArrivalOrder | Cpu Scheduling/schedsim.c:35-51 | arrivals ascend in the queue, and those of the same tick stand as in the source list |
| Arrivals.AllArrived | Cpu Scheduling/schedsim.c:37-38 | once every process is queued later ticks add none, so leaving early is safe |
| Arrivals.FcfsTick | Cpu Scheduling/schedsim.c:28-53 | exactly the processes that arrive within the span, each once, in stable order of arrival |

## Left out

- `mm_realloc` of `Efficient Mallocs/mm_freeList.c`: it calls the C library's malloc and mistakes the logical link for the physical neighbour; the one of `test.c` is modelled.
- `mm_check`, `mm_checkBlock`, `mm_checkheap`: printing checks; the invariant is stated instead.
- `Efficient Mallocs/mm_seggregatedLists.c`, `Efficient Mallocs/mm-original.c`: the first reads uninitialised variables and builds no list, the second is a bump allocator.
- Failure of the first `mem_sbrk` in `mm_init`, which returns -1 while `mm_init` tests for null: the storage is larger than 48 bytes.
- Pointer sums other than the one in `mem_sbrk` that would leave the 32-bit space: the storage lies inside it. Requests whose adjusted size is negative as an `int` argument of `mem_sbrk` fail there, as in the code.
- Allocators.Allocator.constructor: does not model that `malloc` leaves the storage's contents open or that its failure exits; the storage is zeroed and exists.
- Allocators.Allocator.Init: requires that the word at offset 40 holds no size, which the code leaves to the storage it is given; with another word there `coalesce` may look for a block left of the first. Both of the driver's passes need this, and nothing writes that word.
- Allocators.Allocator.Malloc: requires that the sum in `mem_sbrk` does not wrap when the heap has to be extended; when it wraps, the break leaves the storage and nothing more holds of the heap. The same of `Realloc` and of the driver's passes.
- Drivers.Driver.EvalUtil: the ratio is a real number, so the rounding of `double` is not modelled. Trace parsing, timing, the libc comparisons and the printed messages are not modelled.
- Traces that ask for 0 bytes: mm_malloc answers null and the driver gives up, as its messages say; `Traces.WellFormed` demands positive sizes.
- 32-bit overflow of uthash's counters, of cylinder distances and of `int` totals: unbounded integers.
- uthash: concrete hash functions, the Bloom filter, `HASH_SELECT`, `HASH_CLEAR`, `HASH_OVERHEAD` and failing allocations.
- Uthash.HashHead.Add: requires the key and the node to be absent, as the library documents; `add` in `xssh.h` can break this and is not modelled.
- LinkedLists.Delete: the two poison pointers are null here.
- ListSorts.ListSort: requires a non-empty list; the code follows a poison pointer on an empty one. For the same reason the sorting ticks other than SCAN and CSCAN require a request.
- The CSV output of the disk simulator and the counter `processes` that only punctuates it.
- `sjf_tick`, `stcf_tick` and `run_simulator` of `schedsim.c`: heuristics that can leave processes unscheduled, and output formatting.
- Samplers.Fcyc: cycle counts are reals, so rounding is not modelled; a zero K is excluded, since the code would then index before its array.
- Clearing the cache, clock counters, `MCGrep`, the shell's process control and the kernel modules: input, output and threads around little logic.
