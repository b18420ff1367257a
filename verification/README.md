# ucore memory management

A model of the memory-management code of the ucore teaching kernel for 64-bit RISC-V, with
proofs about whole runs of it.

The code is C that updates structures in place, and the model keeps that shape. Each component
is a class whose fields are the C fields, as maps from addresses or page numbers. Its methods
make the C assignments in the same order and take the same branches. Ghost fields give the
abstract state, such as the blocks of a free list in address order. A method's contract says
how that state changes, and lemmas say what the changes add up to.

| file | component |
|---|---|
| `Lists.dfy` | the circular doubly linked list of `list.h` |
| `FreeBlocks.dfy` | sorted, disjoint, non-adjacent block lists: taking from and giving back |
| `FrameAllocator.dfy` | best-fit and first-fit page-frame allocators |
| `Powers.dfy`, `Buddy.dfy` | the buddy allocator, allocation only |
| `Slob.dfy`, `Kmalloc.dfy` | the SLOB heap, `kmalloc` and `kfree` |
| `Sv39.dfy`, `PageTables.dfy` | address and entry arithmetic, page tables, reference counts |
| `Replacement.dfy` | the clock and FIFO replacement policies |
| `VmaList.dfy` | virtual memory areas |
| `SwapDisk.dfy` | the swap device and its slots |
| `PageViews.dfy`, `Paging.dfy` | where pages' bytes are; faults, eviction and reload over the parts above |
| `FlatMemory.dfy` | demand paging as a flat memory of bytes |
| `PagingExamples.dfy` | short runs: two faults that panic or grant nothing, and a page that returns from the last slot |
| `NumText.dfy` | `printnum` and `strtol` |

The main results:

* `FlatMemory.Run` and `FlatMemory.ReadBack`: any run of loads and stores, with the faults and
  evictions it causes, returns what a plain array of bytes would return.
* `Paging.Vm.DoPgfault` and `Paging.Vm.AllocPage`: how every fault ends, when it panics and which
  frames it moves; an allocation evicts at most one page, the oldest.
  `Replacement.Replay`: the clock evicts like a FIFO queue.
* `PageTables.AddressSpace.PageInsert`: one insertion changes one translation, the tables stay
  an unaliased tree, and reference counts equal the numbers of mappings.
* `Slob.SlobHeap.SlobAlloc` and `Kmalloc.KernelHeap.KmallocThenKfree`: the heap invariant,
  termination with at most one page asked for, and restoration of the free list.
* `FrameAllocator.FrameArea.FreePages`: freeing keeps the doubly linked list intact exactly if
  the block goes below the topmost free block or into an empty list.
* `Buddy.BuddyArea.AllocPages`: exact outcome and exact free lists of every allocation.

Some operations do not do what their comments or callers suggest. The model follows the code.
Each item names the exact condition and an input that meets it:

* Freeing above the topmost free block links the block to itself
  (`FrameAllocator.FrameArea.FreePages`, `FrameAllocator.TailFreeExample`).
* `buddy_init` leaves the last of its list heads uninitialised, and `buddy_init_memmap` uses that
  head from 2^20 pages on (`Buddy.BuddyArea.InitMemmap`, `Buddy.LastListExample`).
* Buddy allocation panics when the free pages suffice but no block does
  (`Buddy.BuddyArea.AllocPages`, `Buddy.FragmentedExample`).
* `kmalloc` of 4064 to 4079 bytes fails an assertion
  (`Kmalloc.KernelHeap.Kmalloc`, `Kmalloc.AssertionExample`).
* `find_order` drops low bits, and the bits that do not fit an `int`, and can give too few pages
  (`Kmalloc.OrderCovers`, `Kmalloc.OrderFallsShort`).
* `page_insert` is documented to return 0 always. It fails if a table cannot be allocated
  (`PageTables.AddressSpace.PageInsert`, `PageTables.InsertFailsExample`).
* A clock eviction that follows another one, with the victim not mapped again, returns the same
  frame; if that frame had been the last of the list, every frame mapped since is dropped from the
  list (`Replacement.Clock.SwapOutVictim`, `Replacement.LostFrameExample`).
* The swap device is said to hold 7 pages. Slot 0 is refused and a page's slot is its number plus
  one, so only pages 0 to 5 can be evicted
  (`Paging.Vm.SwapOut`, `PagingExamples.SlotExample`, `PagingExamples.LastSlotExample`).
* A page fault that must evict to get a page table panics at its next allocation: the clock's hand
  stays on the frame that became the table (`Paging.Vm.DoPgfault`, `PagingExamples.TableExample`).
* A page fault in an area that is not writable returns success, but the page gets neither read nor
  write permission and the access faults again. The second fault takes the page's own entry for a
  swap entry and panics, unless its allocation has just evicted that very page; then the page is
  reloaded with no more rights than before
  (`Paging.Vm.DoPgfault`, `PagingExamples.ClosedExample`, `PagingExamples.EndlessExample`).
* `strtol` in base 16 skips a zero in front of an x as a prefix even if no digit follows
  (`NumText.FieldParses`, `NumText.ZeroXExample`).
* `printnum` is documented for base 1, where it ends for zero only (`NumText.PrintNumEnds`).
* The comment on `floor_pow2` in `buddy.c` has the direction of the bound reversed
  (`Buddy.FloorPow2`).

## Model

| member | source | states |
|---|---|---|
| `Lists.ListStore.Init` | lab2/libs/list.h:40-43 | the node becomes a ring of its own |
| `Lists.ListStore.AddAfter` | lab2/libs/list.h:79-82 | on a ring, the node goes behind its anchor and both directions still form one ring |
| `Lists.ListStore.AddBefore` | lab2/libs/list.h:66-69 | the same, in front of the anchor, also when that is the head of an empty list |
| `Lists.ListStore.Del` | lab2/libs/list.h:91-94 | on a ring, exactly the node leaves it; a node that is alone keeps its links |
| `Lists.InsertKeepsRing` | lab2/libs/list.h:141-146 | linking keeps `next` and `prev` inverse along one cycle with the node inserted at its place |
| `Lists.RemoveKeepsRing` | lab2/libs/list.h:154-158 | unlinking keeps them inverse along the cycle without the node |
| `Lists.SelfPrevIsAlone` | lab2/kern/mm/best_fit_pmm.c:160-172 | on a ring, a node that precedes itself is alone, so a self-link breaks any longer list |
| `FreeBlocks.TakeRemoves` | lab2/kern/mm/best_fit_pmm.c:127-138 | taking from the front of a block leaves a sorted, disjoint, non-adjacent list covering exactly the other units |
| `FreeBlocks.GiveAdds` | lab2/kern/mm/best_fit_pmm.c:174-201 | giving units back with two-sided merging keeps the list canonical, covers exactly the old units and the new ones, and adds the size to the total |
| `FreeBlocks.CanonicalIsUnique` | lab4/kern/mm/kmalloc.c:152-184 | a canonical list is determined by the set of units it covers |
| `FreeBlocks.GiveUndoesTake` | lab2/kern/mm/best_fit_pmm.c:127-201 | freeing what was just split off restores the list: same blocks, sizes and order |
| `FreeBlocks.GivesCommute` | lab4/kern/mm/kmalloc.c:152-184 | two frees in either order give the same list |
| `FreeBlocks.GapExists` | lab4/kern/mm/kmalloc.c:165-167 | a run that meets no free block has its place between two neighbours of the list |
| `FrameAllocator.FrameArea.InitMemmap` | lab2/kern/mm/best_fit_pmm.c:69-103 | a run of reserved pages becomes one more block, with every descriptor given; links agree if and only if it goes below the topmost block; then the list is the old one with the run at its place, unmerged, and the invariant holds again if and only if the run touches no free block |
| `FrameAllocator.FrameArea.LinkSorted` | lab2/kern/mm/best_fit_pmm.c:84-102 | the insertion loop, including the missing exit after the tail insertion: sorted place below the top, a self-linked node above it |
| `FrameAllocator.FrameArea.FreePages` | lab2/kern/mm/best_fit_pmm.c:142-202 | links agree afterwards if and only if the list was empty or the run lies below its topmost block; in that case the list is the old one with the run merged in, flags stand exactly on heads and the count is exact |
| `FrameAllocator.FrameArea.Coalesce` | lab2/kern/mm/default_pmm.c:152-172 | the merge steps, left first, give the list with the adjacent neighbours fused |
| `FrameAllocator.GiveIsFusion` | lab2/kern/mm/default_pmm.c:125-173 | insertion followed by the two merge steps is the one-step return of the run |
| `FrameAllocator.TailInsertDisagrees` | lab2/kern/mm/best_fit_pmm.c:168-169 | after a tail insertion the links of a nonempty list never agree |
| `FrameAllocator.TailFreeExample` | lab2/kern/mm/best_fit_pmm.c:142-202 | a concrete allocate-and-free sequence that ends with disagreeing links |
| `FrameAllocator.FrameArea.AllocBestFit` | lab2/kern/mm/best_fit_pmm.c:105-140 | none exactly if no block is large enough; else the lowest-addressed of the smallest blocks that fit, its first pages taken and the rest relinked |
| `FrameAllocator.FrameArea.ScanBestFit` | lab2/kern/mm/best_fit_pmm.c:106-126 | the scan with its `nr_free + 1` start value finds that block, because no block exceeds the free count |
| `FrameAllocator.BestFitIsUnique` | lab2/kern/mm/best_fit_pmm.c:111-126 | there is only one block that best-fit may choose |
| `FrameAllocator.FrameArea.AllocFirstFit` | lab2/kern/mm/default_pmm.c:95-123 | none exactly if no block is large enough; else the first that fits |
| `FrameAllocator.FrameArea.CutBlock` | lab2/kern/mm/best_fit_pmm.c:127-138 | the chosen block loses its first pages, in the links, in the flags and in the count |
| `FrameAllocator.FrameArea.AllocThenFree` | lab2/kern/mm/best_fit_pmm.c:105-202 | allocating n pages and freeing them restores the free list, except for a whole topmost block among others, where the links end up broken |
| `Buddy.Log2` | lab2/kern/mm/buddy.c:14-23 | the order whose power of two is at most n and more than half of it |
| `Buddy.FloorPow2` | lab2/kern/mm/buddy.c:26-35 | the largest power of two not above n |
| `Buddy.CeilPow2` | lab2/kern/mm/buddy.c:38-42 | the least power of two not below n, and 2 for n = 0 |
| `Buddy.BuddyArea.constructor` | lab2/kern/mm/buddy.c:45-51 | list heads for the orders 0 to 19 are initialised, the one for order 20 is not |
| `Buddy.BuddyArea.InitMemmap` | lab2/kern/mm/buddy.c:54-72 | succeeds exactly for 1 to 2^20 - 1 pages if all pages to be managed are still reserved; then one free block of the largest order that fits tiles those pages, exactly they are reserved no more, and all but the first have order 0 |
| `Buddy.LastListExample` | lab2/kern/mm/buddy.c:45-72 | 2^20 - 1 reserved pages are accepted, 2^20 are not |
| `Buddy.HalvingTiles` | lab2/kern/mm/buddy.c:82-90 | a block's halves are aligned to their size and tile what it covered |
| `Buddy.BuddyArea.Split` | lab2/kern/mm/buddy.c:75-91 | fails exactly if no order from the requested one on has a block; else cuts down the smallest such order, leaving one upper half in each order in between; the tiling, the free count and every allocated block are kept |
| `Buddy.CountDecides` | lab2/kern/mm/buddy.c:94-104 | with at most one block in each order, a block of the needed order or more exists if and only if the free count reaches its size |
| `Buddy.BuddyArea.AllocPages` | lab2/kern/mm/buddy.c:94-112 | null exactly if n exceeds the free count, panic exactly if the count lies between n and the rounded size, else an aligned block of the least sufficient order from the smallest order that has one, with all lists given; free and allocated blocks tile the region and earlier allocations stay |
| `Buddy.FragmentedExample` | lab2/kern/mm/buddy.c:94-112 | one page from four, then three of the remaining three: the second request panics |
| `Slob.SlobHeap.FindSpot` | lab4/kern/mm/kmalloc.c:163-167 | the wrap-around search from the rover stops, and at the one block behind which the freed block belongs |
| `Slob.ExitTest` | lab4/kern/mm/kmalloc.c:165-167 | the two exit tests hold at exactly one block of the cycle |
| `Slob.SlobHeap.Insert` | lab4/kern/mm/kmalloc.c:163-181 | linking and two-sided merging give the canonical list with the block; the rover ends on its predecessor; only the two headers involved change |
| `Slob.SlobHeap.SlobFree` | lab4/kern/mm/kmalloc.c:152-184 | the block leaves the live set and its units join the free list; free and live units still tile the arena and the pages, and no live header changes |
| `Slob.SlobHeap.CutAt` | lab4/kern/mm/kmalloc.c:122-131 | unlinking or splitting the chosen block; the rover moves to its predecessor |
| `Slob.SlobHeap.Walk` | lab4/kern/mm/kmalloc.c:106-135 | one round from behind the rover: the first block that fits, or proof that none does |
| `Slob.GrownFits` | lab4/kern/mm/kmalloc.c:135-148 | after growth some block has at least 256 units, enough for any legal request |
| `Slob.SlobHeap.SlobAlloc` | lab4/kern/mm/kmalloc.c:97-150 | terminates, asks for one page exactly if no block fits and for none otherwise, returns null exactly if that page is refused, panics exactly for sizes of 4080 and more; the block is the first fit behind the rover, after growth from where growth left it, and the rover ends on the block before |
| `Slob.TiledGrow` | lab4/kern/mm/kmalloc.c:141-147 | a fresh page keeps free and live units a tiling of the arena and the pages |
| `Slob.SlobHeap.Store` | lab4/kern/mm/kmalloc.c:217-226 | an owner that overwrites its own block's header leaves the free list sound |
| `Kmalloc.FindOrder` | lab4/kern/mm/kmalloc.c:209-215 | the least number of halvings that brings a size, which is an `int`, to a page or less |
| `Kmalloc.OrderCovers` | lab4/kern/mm/kmalloc.c:209-215 | the pages of the order recorded for a size hold it if and only if the size is below 2^31 and not just above a power of two of pages |
| `Kmalloc.OrderFallsShort` | lab4/kern/mm/kmalloc.c:209-215 | 8193 bytes get two pages |
| `Kmalloc.KernelHeap.KmallocSmall` | lab4/kern/mm/kmalloc.c:223-226 | the pointer is one unit behind a new live block, with room for the bytes asked for |
| `Kmalloc.KernelHeap.KmallocBig` | lab4/kern/mm/kmalloc.c:228-244 | a record and the pages, of the order that `find_order` gives for the size cut to 32 bits, or null with the record given back and the live set unchanged |
| `Kmalloc.KernelHeap.Kmalloc` | lab4/kern/mm/kmalloc.c:217-251 | panics exactly for 4064 to 4079 bytes, null exactly if a page request is refused, else a new live block disjoint from all others |
| `Kmalloc.AssertionExample` | lab4/kern/mm/kmalloc.c:99-224 | kmalloc of 4064 bytes on a new heap panics |
| `Kmalloc.KernelHeap.FindBig` | lab4/kern/mm/kmalloc.c:262-275 | the record whose pages start at the pointer, or none if there is none |
| `Kmalloc.KernelHeap.Kfree` | lab4/kern/mm/kmalloc.c:254-279 | frees exactly the block behind the pointer, small or big, and gives back the pages of the recorded order; of the big-block list exactly that record goes |
| `Kmalloc.SmallIsNotBig` | lab4/kern/mm/kmalloc.c:262-277 | a pointer from the small path is never mistaken for a big block |
| `Kmalloc.KernelHeap.KmallocThenKfree` | lab4/kern/mm/kmalloc.c:217-279 | the live set and the big-block list are exactly restored, and without growth the free list too |
| `Sv39.SplitRebuilds` | lab3/kern/mm/mmu.h:38-51 | the indices and offset of a 39-bit address rebuild it |
| `Sv39.BuildSplits` | lab3/kern/mm/mmu.h:38-51 | an address built from indices and offset splits into them |
| `Sv39.IndicesOfPage` | lab3/kern/mm/mmu.h:38-45 | the walk of an address depends on its page number only, and ignores bits 39 and up |
| `Sv39.PageFromIndices` | lab3/kern/mm/mmu.h:38-42 | different pages differ in some index |
| `Sv39.PteRoundTrip` | lab3/kern/mm/pmm.h:138-140 | an entry gives back its frame number and flags, and is valid |
| `Sv39.SwapEntryRoundTrip` | lab3/kern/mm/swap.h:25-31 | the swap entry of page p is (p + 1) * 256; it gives back its slot p + 1 and is not valid |
| `PageTables.NoAliases` | lab3/kern/mm/pmm.c:219-272 | no two table frames have the same place in the tree |
| `PageTables.HangKeepsTree` | lab3/kern/mm/pmm.c:236-270 | creating a table keeps the tree |
| `PageTables.HangKeepsEntries` | lab3/kern/mm/pmm.c:236-270 | and changes no translation |
| `PageTables.WriteChangesOne` | lab3/kern/mm/pmm.c:342-359 | writing one entry changes one page's translation and no table's place |
| `PageTables.WriteCounts` | lab3/kern/mm/pmm.c:289-359 | reference counts stay equal to the numbers of mapping entries if the old frame loses one and the new one gains one |
| `PageTables.AddressSpace.GetPte` | lab3/kern/mm/pmm.c:219-272 | succeeds exactly if the missing tables can be built from the free frames, and takes exactly those frames; a new directory entry is a pointer, with the low bits 17; every translation and the kernel's own root entries are kept, also when it fails half-way, with no frame left |
| `PageTables.AddressSpace.HangTable` | lab3/kern/mm/pmm.c:265-269 | a zeroed, once-counted table in its place of the tree; no translation changes and every pointer stays |
| `PageTables.AddressSpace.GetPage` | lab3/kern/mm/pmm.c:275-284 | the frame of the page's valid entry, or none, with nothing changed |
| `PageTables.AddressSpace.PageRemove` | lab3/kern/mm/pmm.c:327-332 | clears exactly one translation; its frame becomes free exactly if that was its last mapping |
| `PageTables.AddressSpace.PageInsert` | lab3/kern/mm/pmm.c:342-359 | the page translates to the frame with the permissions and no other translation changes; counts stay exact, also when a page is mapped onto itself or over another frame; the free frames are fewer by the missing tables and more by a frame that lost its last mapping; it fails exactly for want of table frames, and then keeps every translation |
| `PageTables.InsertFailsExample` | lab3/kern/mm/pmm.c:342-346 | with the only frame taken, the insertion fails |
| `PageTables.AddressSpace.PgdirAllocPage` | lab3/kern/mm/pmm.c:368-387 | with eviction off: a free frame mapped at the address, every other free frame still free unless it became a table, and as many tables as were missing; or no translation changed and every frame that became no table free again, the one allocated for the page included |
| `Replacement.Clock.constructor` | lab3/kern/mm/swap_clock.c:33-47 | an empty list with the hand on its head |
| `Replacement.Clock.MapSwappable` | lab3/kern/mm/swap_clock.c:51-66 | the frame goes to the back with its visited bit set; a hand off the list stays so, with its links, unless the frame is the one it stands on |
| `Replacement.Clock.SwapOutVictim` | lab3/kern/mm/swap_clock.c:71-105 | hand on the list: the first unvisited frame from it, or the frame at it if all are visited; exactly the bits passed are cleared, the rest keeps its order, the hand stays on the unlinked frame. Hand off the list: that frame again, and if it had been the last, all frames mapped since leave the list |
| `Replacement.EvictionIsShort` | lab3/kern/mm/swap_clock.c:78-104 | at most one frame more is inspected than there are visited frames on the list |
| `Replacement.Clock.EvictTwice` | lab3/kern/mm/swap_clock.c:92-96 | with no mapping in between, a second eviction returns the first victim again |
| `Replacement.Clock.EvictMapEvict` | lab3/kern/mm/swap_clock.c:51-105 | evict, map another frame, evict: the first victim again; the other frame is lost from the list exactly if the victim had been the last |
| `Replacement.LostFrameExample` | lab3/kern/mm/swap_clock.c:51-105 | frame 0 is evicted, frame 1 mapped, and the next eviction returns frame 0 and leaves the list empty |
| `Replacement.Fifo.MapSwappable` | lab3/kern/mm/swap_fifo.c:44-56 | the frame becomes the newest of the queue |
| `Replacement.Fifo.SwapOutVictim` | lab3/kern/mm/swap_fifo.c:61-78 | the oldest frame, or none from an empty queue |
| `Replacement.ShapeEvictsOldest` | lab3/kern/mm/swap_clock.c:71-105 | as long as only mapping sets visited bits, the clock evicts the oldest frame |
| `Replacement.Replay` | lab3/kern/mm/swap_clock.c:33-105 | over whole runs in which each victim is the next frame mapped, clock and FIFO evict the same frames |
| `Replacement.VictimsInMapOrder` | lab3/kern/mm/swap_fifo.c:44-78 | those victims leave in the order in which they were mapped |
| `VmaList.ScanIsUnique` | lab3/kern/mm/vmm.c:94-117 | in a sorted disjoint list the area found is the only one that contains the address |
| `VmaList.MmStruct.FindVma` | lab3/kern/mm/vmm.c:94-117 | with any cache contents, the answer of a scan without the cache; a found area is the new cache |
| `VmaList.ChecksSuffice` | lab3/kern/mm/vmm.c:121-159 | the two neighbour assertions hold if and only if the new area meets no area of the list |
| `VmaList.MmStruct.CreateVma` | lab3/kern/mm/vmm.c:79-89 | null exactly if there is no memory for the record, with nothing changed; else a record that is on no list yet; the list and the cache stay valid |
| `VmaList.MmStruct.InsertVma` | lab3/kern/mm/vmm.c:130-159 | succeeds exactly for a nonempty area disjoint from all others; the list stays sorted and disjoint and `map_count` is its length |
| `SwapDisk.SlotsAreApart` | lab3/kern/fs/swapfs.c:18-26 | writing a slot stores the page there and leaves every other slot as it was |
| `SwapDisk.Disk.WriteSecs` | lab3/kern/driver/ide.c:27-32 | exactly those bytes of the device are replaced |
| `SwapDisk.Disk.SwapfsRead` | lab3/kern/fs/swapfs.c:18-21 | the page at the slot's place on the device, or a panic exactly for a slot other than 1 to 6 |
| `SwapDisk.Disk.SwapfsWrite` | lab3/kern/fs/swapfs.c:23-26 | the page at the slot's place is replaced, or a panic exactly for a slot other than 1 to 6 |
| `Paging.Vm.FindEntry` | lab3/kern/mm/swap.c:101-103 | the entry under the address noted for the victim, and whether it is valid, which is what swap_out asserts |
| `PageViews.ResidentSites` | lab3/kern/mm/swap.c:101-103 | a listed frame is mapped by exactly one entry, that of the page noted for it, so the assertion holds for it |
| `PageViews.OwnerLeaves` | lab3/kern/mm/swap.c:105-115 | the swap entry written for the oldest frame makes its page, and no other page, absent |
| `PageViews.Evicted` | lab3/kern/mm/swap.c:105-115 | moving the oldest page to its slot changes the bytes of no page |
| `Paging.Vm.WriteBack` | lab3/kern/mm/swap.c:101-115 | fails exactly for pages above 5; else the frame is free, its page is in its slot, the rest of the device is as before, and every page keeps its bytes |
| `Paging.Vm.SwapOut` | lab3/kern/mm/swap.c:82-119 | evicts the oldest listed frame and keeps the residency invariant; fails exactly if its page is above 5 or the hand stands on a frame whose page is gone; the page's entry becomes (p + 1) * 256 and its bytes go to slot p + 1; no other page becomes absent |
| `Paging.Vm.AllocPage` | lab3/kern/mm/pmm.c:51-68 | with a frame free or listed: evicts at most one page, the oldest, only if no frame is free; fails exactly if that page has no slot or the hand stands on a frame whose page is gone; no page's bytes change |
| `Paging.Vm.MakeTable` | lab3/kern/mm/pmm.c:236-270 | a table from a free frame changes no page; from an evicted frame it leaves the hand on a frame whose page is gone |
| `Paging.Vm.WalkCreate` | lab3/kern/mm/pmm.c:219-272 | with enough free frames for the missing tables they are built and no page's bytes change; with fewer, the walk panics or leaves a state in which the next allocation does |
| `Paging.Vm.Install` | lab3/kern/mm/vmm.c:411-414 | the frame is mapped once, with the rights of the area, listed at the back and named by its address; no other page's bytes or rights change |
| `Paging.Vm.PgdirAllocPage` | lab3/kern/mm/pmm.c:368-387 | a first touch, evicting if need be; the frame goes to the back of the list and the assertion on the reference count holds |
| `Paging.Vm.SwapIn` | lab3/kern/mm/swap.c:121-138 | a frame filled with the bytes the page had, even when getting the frame evicted another page; for a page that is present it panics unless getting the frame evicted that page |
| `PageViews.FrameIsNoSlot` | lab3/kern/mm/swap.h:25-31 | the entry of a present page, read as a swap entry, names a slot beyond the device |
| `Paging.Vm.DoPgfault` | lab3/kern/mm/vmm.c:330-424 | outside all areas nothing changes; else it panics exactly if the free frames are fewer than the missing tables, or as many and the oldest page has no slot, or the page is present already and is not the one that gets evicted; otherwise the page is present with the bytes it had, its entry has the bits for valid and user, and those for read and write exactly in a writable area, every other page keeps its bytes and becomes no more accessible, and the frames used are given |
| `Paging.Vm.OpenBits` | lab3/kern/mm/vmm.c:349-352 | an open page's entry has the bits for valid, user, read and write |
| `Paging.Vm.Translate` | lab3/kern/mm/vmm.c:349-352 | an access with at most one fault: granted if the page is open or its area is writable and the fault succeeds, denied exactly if the fault succeeds in an area that is not writable; then the page is present and closed |
| `PageViews.FramesAreApart` | lab3/kern/mm/swap.c:82-138 | resident pages do not share frames, so writing one changes no other page |
| `Paging.Vm.NeverStuck` | lab3/kern/mm/swap.h:25-31 | while every page ever touched has a slot, no eviction panics |
| `Paging.Vm.Load` | lab3/kern/trap/trap.c:114-121 | a load that is granted returns the page's byte and changes no page's bytes, and one that is denied changes none either; how it ends and which frames it moves are given |
| `Paging.Vm.Store` | lab3/kern/trap/trap.c:114-121 | a store that is granted changes one byte of one page, and one that is denied changes none; how it ends and which frames it moves are given |
| `PagingExamples.SlotExample` | lab3/kern/mm/swap.h:25-31 | touching page 6 and then page 7 with one data frame panics on slot 7 |
| `PagingExamples.LastSlotExample` | lab3/kern/fs/swapfs.c:18-26 | pages 5 and 4 share one frame: page 5 goes to the last slot and comes back with the byte stored in it |
| `PagingExamples.TableExample` | lab3/kern/mm/swap.c:101-103 | touching pages 0 and 0x40000 with three frames panics: the frame of page 0 becomes a table and the hand stays on it |
| `PagingExamples.ClosedExample` | lab3/kern/mm/vmm.c:349-352 | two stores to a page of an area that is not writable, with a frame to spare: the first is denied, the second panics |
| `PagingExamples.EndlessExample` | lab3/kern/mm/vmm.c:349-352 | the same without a spare frame: both are denied, and the page has been evicted and reloaded in between |
| `FlatMemory.Run` | lab3/kern/mm/vmm.c:330-424 | the outputs of a run of loads and stores are those of a flat memory that agrees with every page touched before, and afterwards the pages agree with that memory; with all pages in writable areas, in slot range, under existing tables and not closed by an earlier fault, no access fails |
| `FlatMemory.LoadsSeeLastStore` | lab3/kern/mm/swap.c:82-138 | in the flat memory each load returns the byte last stored to its address, or the initial one |
| `FlatMemory.ReadBack` | lab3/kern/mm/swap.c:82-138 | so does each load of a run of the system, whatever was evicted and reloaded in between |
| `NumText.Sink.PrintNum` | lab4/libs/printfmt.c:36-52 | the padding to the width, then the digits, most significant first; for every base from 1 to 16 and number for which it ends |
| `NumText.DigitChar` | lab4/libs/printfmt.c:51 | the character for a digit is that of code 48 + d below 10 and 97 + d - 10 from 10 on |
| `NumText.PrintNumEnds` | lab4/libs/printfmt.c:39-46 | the recursion ends if and only if the base is at least 2 or the number is below it |
| `NumText.Strtol` | lab4/libs/string.c:203-259 | the value of the digits behind blanks, sign and prefix, wrapped to 64 bits, and where they end |
| `NumText.CharsOfValue` | lab4/libs/string.c:236-246 | the value of a character is 0 to 9 for the digits and 10 to 35 for the letters, the same in both cases |
| `NumText.ParseIsUnique` | lab4/libs/string.c:203-259 | a string has one such value and end |
| `NumText.DigitsHaveValue` | lab4/libs/printfmt.c:39-51 | the digits printed for a number have its value |
| `NumText.FieldParses` | lab4/libs/printfmt.c:36-52 | printed text of any width, padded with blanks or zeros and followed by no digit of the base, parses to the number, wrapped to 64 bits, and ends where it ends, except exactly for a lone zero in front of an x in base 16, behind which every parse ends |
| `NumText.ZeroXExample` | lab4/libs/string.c:222-230 | a printed zero in front of an x, read in base 16, does not end behind the zero |
| `NumText.RoundTrip` | lab4/libs/string.c:203-259 | `strtol` of what `printnum` printed is the number wrapped to a signed 64-bit one, and the number itself if and only if that is below 2^63, for every printable number and base up to 16; it stops right behind the text, with that one exception |

## Left out

- `FrameAllocator.FrameArea.FreePages`: above the topmost free block it states that the links disagree, and says nothing about later operations on that list.
- `FrameAllocator.FrameArea.AllocThenFree`: a whole topmost block that is not the only block falls in that case.
- `Kmalloc.KernelHeap.Kmalloc`: does not model `kmalloc(0)`, a request of one unit, which could take the one-unit arena node off the list.
- `Kmalloc.KernelHeap.KmallocSmall`: likewise for sizes from 1.
- `Kmalloc.KernelHeap.KmallocThenKfree`: likewise for sizes from 1.
- `Slob.SlobHeap.CutAt`: likewise for cuts of 2 units and more.
- `Slob.SlobHeap.SlobAlloc`: likewise for requests of 2 units and more; the `align` path is left out because every caller passes zero; the pages handed to the heap are assumed not to abut the arena.
- `Kmalloc.KernelHeap.Kfree`: freed pages go back to a page allocator outside this model; only their order is stated.
- `Buddy.BuddyArea.InitMemmap`: what the write through the uninitialised head does, from 2^20 pages on, is not described, only that the call does not succeed.
- `Buddy.BuddyArea.AllocPages`: the order lists are sequences, not linked nodes, and only runs without frees are covered.
- `buddy_free_pages` and `get_buddy` are not modelled: the merge loop neither relinks the merged block nor recomputes its buddy.
- `PageTables.AddressSpace.GetPte`: addresses under the kernel's own root entries are excluded, the frame allocator is a set of free frames, and `alloc_page` does not evict here.
- `PageTables.AddressSpace.GetPage`: addresses under the kernel's own root entries are excluded.
- `PageTables.AddressSpace.PageRemove`: addresses under the kernel's own root entries are excluded.
- `PageTables.AddressSpace.PageInsert`: the same three limits as for `GetPte`.
- `PageTables.AddressSpace.PgdirAllocPage`: the same three limits as for `GetPte`.
- `Paging.Vm.DoPgfault`: with no frame on the list yet, the free frames must do for the tables and the page, because the clock would otherwise read a frame descriptor out of the list head.
- `Paging.Vm.AllocPage`: for the same reason a frame must be free or on the list.
- `Paging.Vm.PgdirAllocPage`: the walk of the fault that calls it has built the page's table.
- `Paging.Vm.Translate`: the limits of `DoPgfault`; the hardware's translation is the walk of `get_pte` with a check of the permission bits, without fault causes, accessed and dirty bits or TLB; after a denied access the machine would fault again, which here is another access.
- `Paging.Vm.Load`: the limits of `Translate`.
- `Paging.Vm.Store`: the limits of `Load`.
- `FlatMemory.Run`: the limits of `Load`.
- `FlatMemory.ReadBack`: the limits of `Load`.
- `NumText.Sink.PrintNum`: `width` is an unbounded integer, and `-` padding and negative numbers in front of blanks are not modelled.
- Every operation is atomic on one hart: no interrupts, locks or device timing.
- Frame contents on a first touch are whatever the frame held; zeroing is not claimed because the code does not do it.
- `_lru_tick_event` in `swap_lru.c`: its loop revisits the list head's predecessor and need not end; the rest of that file repeats the FIFO policy.
- The `check_*` self-tests, boot code, console, traps other than the page fault, and the copies of the same files in other lab directories.
