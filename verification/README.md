# A verified model of the miaow kernel's memory management, formatter and scheduler

This project models the core of the kernel: the buddy page allocator, the slab layer above it, the early interval
allocator, the boot code that hands memory from one to the other, the three-level page tables, the printf formatter with
its number parser, the list and memory primitives below all of these, and the trap handler with its round-robin scheduler.
Code that updates memory in place is modelled by classes and methods over arrays, lists and maps; each method is specified
by a function or relation on values, and the laws of the system are lemmas about those.

Files, lowest layer first:

| file | contents |
|---|---|
| `Machine.dfy`, `Options.dfy`, `Sets.dfy` | constants of the memory map, small helpers |
| `IntrusiveList.dfy` | circular lists over one pool of nodes |
| `ByteStrings.dfy` | words in memory; `memset`, `memcpy`, `memmove` |
| `BuddyBlocks.dfy` | aligned blocks and the canonical decomposition of a set of pages |
| `PageAlloc.dfy`, `PageRuns.dfy` | the buddy allocator; whole runs of it |
| `SlabPages.dfy`, `SlabHeap.dfy` | one slab page as bytes; the heap as a value |
| `Kmalloc.dfy`, `KmallocRuns.dfy` | the slab allocator; whole runs of it |
| `Regions.dfy`, `RegionBytes.dfy`, `Memblock.dfy`, `FreeRanges.dfy` | interval lists, their bytes, the early allocator and its walk |
| `MemInit.dfy` | boot: from the early allocator to the buddy and slab allocators |
| `PageTables.dfy`, `AddressSpace.dfy` | descriptors, the radix tree and its flat view; the address spaces of the kernel |
| `Format.dfy`, `Vsprintf.dfy`, `Strtoul.dfy`, `FormatLaws.dfy` | the ideal text of a format, the bounded formatter, parsing and round trips; the laws of both in literal characters |
| `Tasks.dfy`, `TrapLaws.dfy`, `Diagnostics.dfy` | traps and scheduling as a step machine, loading, the handler; each kind of trap in the numbers of the architecture; the text of the messages |
| `KernelMemory.dfy` | page tables, boot and allocation together |

The central ideas:

- **Buddy allocator.** A block is *canonical* for a set of free pages when it is aligned, wholly free, and its parent is
  not wholly free (or it has the largest order). The invariant says that the free lists hold exactly the canonical blocks
  of the free pages. Allocation and release keep it, so allocation fails only when no aligned free run exists, and the
  lists depend on nothing but which pages are free. Buddies are computed from absolute frame numbers, so the managed
  range may start and end anywhere.
- **Slab layer.** A heap value holds lists, descriptors, memory bytes and, as ghost state, the free chain of each slab.
  Consistency says that each chain is what one reads by following the words stored in the free objects, that a slab is
  listed exactly when its chain is not empty, and that free pages, slab pages and large blocks partition the pages in
  play. Callers may write anything into the objects they hold.
- **memblock.** A region list stands for a set of addresses; canonical lists (sorted, non-touching) are unique for their
  set. The specification is set algebra, the code shifts an array of 16.
- **Page tables.** A ghost map records which entry each pool table hangs from; the words in memory are determined by it.
  The hardware's walk through the words equals a flat map from pages to descriptors.
- **Formatter.** `Render` gives the text of a format without any buffer; the formatter writes what fits of it.
- **Scheduler.** A trap is a relation between states; statements about runs are for any number of tasks.
- **Numbers.** What the named constants and shared definitions amount to is stated again in plain numbers and characters: free
  pages by address, translations by descriptor bit, traps by register value, text by digit table, object sizes in bytes.

Where code and documentation differ, the code is followed, and the exact condition is proved:

- An empty region list stores the size it is given without capping it, so a list stays well formed exactly when the range
  does not wrap or the list was not empty (`Memblock.RegionList.AddRange`, `Memblock.UncappedInput`).
- A zero result of `memblock_phys_alloc` is documented as "no free range fits". It also means success when the extent fits
  at address zero (`FreeRanges.ZeroMeansFailure`), and where nothing fits and rounding up wraps around, the range from
  address zero on is reserved although it need not be memory (`FreeRanges.AllocatesExactly`).
- `__free_memory_core` rounds the start of a range up in 64 bits. For a range that starts in the last page of the address
  space the sum wraps, and every managed page below its end is freed (`PageAlloc.FreedExactly`, `PageAlloc.WrappedRange`,
  `Seeding.SeedRangeExactly`).
- `%#X` does not read back with base zero (`Strtoul.UpperPrefixLost`), and log prefixes name only the first ten tasks
  (`Diagnostics.PrefixNames`).

## Model

| member | source | states |
|---|---|---|
| `IntrusiveList.ListPool.InitListHead` | include/miaow/list.h:27-31 | A fresh head starts an empty list; every other list of the pool is unchanged and all rings stay closed |
| `IntrusiveList.ListPool.InsertBetween` | include/miaow/list.h:33-39 | Linking between two neighbours inserts at that position of exactly that list |
| `IntrusiveList.ListPool.Add` | include/miaow/list.h:41-44 | Pushes at the front; other lists unchanged |
| `IntrusiveList.ListPool.AddTail` | include/miaow/list.h:46-49 | Pushes at the back; other lists unchanged |
| `IntrusiveList.ListPool.Del` | include/miaow/list.h:51-57 | Given the node alone, removes it from the one list it is on; it is then on no list |
| `IntrusiveList.ListPool.IsEmpty` | include/miaow/list.h:59-62 | True exactly for the empty sequence |
| `IntrusiveList.ListPool.ForEach` | include/miaow/list.h:65-71 | Following `next` from the head visits the sequence in order and ends |
| `IntrusiveList.TraversalsAreReverses` | include/miaow/list.h:19-57 | In a closed ring the walk along `prev` is the reverse of the walk along `next` |
| `IntrusiveList.RingInsert` | include/miaow/list.h:33-39 | The four pointer writes turn the ring of a sequence into the ring of the sequence with the node inserted |
| `IntrusiveList.RingRemove` | include/miaow/list.h:51-57 | The two bypassing writes turn the ring of a sequence into the ring without that node |
| `ByteStrings.Memset` | lib/string.c:17-32 | Eight bytes at a time or one, the range holds the byte and everything else is unchanged |
| `ByteStrings.Memcpy` | lib/string.c:34-49 | For disjoint ranges or a destination below the source: destination equals the original source bytes, nothing else changes |
| `ByteStrings.Memmove` | lib/string.c:51-74 | However the ranges overlap, the destination equals the original source bytes and nothing else changes |
| `ByteStrings.CopyUpStep` | lib/string.c:34-49 | A chunk copied upwards, overlap included, extends the copied prefix by the original bytes |
| `ByteStrings.CopyDownStep` | lib/string.c:62-72 | A chunk copied downwards extends the copied suffix by the original bytes |
| `RegionBytes.MoveRecords` | mm/memblock.c:43-43 | The byte-wise memmove over an array of 16-byte regions moves whole regions, whatever the overlap |
| `RegionBytes.MovedBytes` | mm/memblock.c:61-61 | On encodings, overlaying a slice of bytes is copying a slice of the region sequence |
| `Memblock.RegionList.MoveRegions` | mm/memblock.c:43-43 | Moves whole regions within the array, and the bytes of the array become what memmove leaves of them |
| `BuddyBlocks.CanonicalDisjoint` | mm/page_alloc.c:116-142 | Two different canonical blocks share no page |
| `BuddyBlocks.CanonicalCover` | mm/page_alloc.c:179-198 | Every free aligned block lies inside a canonical block of at least its order |
| `BuddyBlocks.CanonicalUnion` | mm/page_alloc.c:116-142 | The pages of the canonical blocks are exactly the free pages |
| `BuddyBlocks.RemoveCanonical` | mm/page_alloc.c:152-168 | Taking one canonical block out of the free set leaves exactly the other canonical blocks |
| `BuddyBlocks.MergeStep` | mm/page_alloc.c:119-137 | While the buddy is free it is canonical, and absorbing it keeps the merge invariant with the next order |
| `BuddyBlocks.MergeDone` | mm/page_alloc.c:116-142 | When no buddy can be absorbed, the merged block together with the canonical blocks outside it are exactly the canonical blocks of the larger free set |
| `BuddyBlocks.UpperHalf` | mm/page_alloc.c:152-168 | The upper half that a split gives back merges with nothing |
| `BuddyBlocks.GreedyNoMerge` | mm/page_alloc.c:222-242 | A largest-piece seeding step over an isolated run never finds its buddy free |
| `PageAlloc.PageAllocator.constructor` | mm/page_alloc.c:93-104 | No page is free, every list is empty, every descriptor is zero, and the allocator invariant holds |
| `PageAlloc.PageAllocator.FreeOnePage` | mm/page_alloc.c:116-142 | Adds exactly the block to the free set, keeps the lists canonical, and merges unless the buddy is not free |
| `PageAlloc.PageAllocator.Expand` | mm/page_alloc.c:152-168 | Splitting down to the order returns everything but the front block to the lists |
| `PageAlloc.PageAllocator.AllocPages` | mm/page_alloc.c:179-198 | None exactly when the order is too large or no naturally aligned free run of that order exists, and then nothing changes; otherwise the front of the first block of the smallest sufficient order, which is a smallest sufficient canonical block, removed from the free set; total free count stays the sum over orders |
| `PageAlloc.PageAllocator.FreePages` | mm/page_alloc.c:206-210 | The block's pages become free, the count grows by its size, other lists are untouched |
| `PageAlloc.LargestOrder` | mm/page_alloc.c:234-238 | The largest order that is aligned at the page and fits before the limit |
| `PageAlloc.PageAllocator.FreeMemoryCore` | mm/page_alloc.c:222-242 | Frees exactly the managed pages from the start rounded up, in 64 bits, to the end rounded down; if the run is isolated, what reaches the lists is exactly its greedy pieces, the largest aligned blocks from the front, in that order and none merged |
| `PageAlloc.FreedExactly` | mm/page_alloc.c:222-242 | These are the managed pages wholly in the range exactly when rounding up does not wrap or the clipped run is empty |
| `PageAlloc.WrappedRange` | mm/page_alloc.c:224-232 | An input on which they are not: a hundred bytes in the last page of the address space free every managed page |
| `PageAlloc.PushAllListed` | mm/page_alloc.c:139-141 | After pushing pieces without merging, the listed blocks are those listed before and the pieces |
| `BuddyBlocks.GreedyNext` | mm/page_alloc.c:233-241 | One round of the seeding loop takes the first of the greedy pieces of the remaining run |
| `PageAlloc.NothingSufficient` | mm/page_alloc.c:184-197 | With the lists of all sufficient orders empty no free aligned run of the order exists |
| `PageRuns.ListsDetermined` | mm/page_alloc.c:116-142 | The blocks on the free lists are a function of the free page set |
| `PageRuns.TakeLease` | mm/page_alloc.c:179-198 | A block taken from the free pages overlaps no held block, and every page stays free or held exactly once |
| `PageRuns.DropLease` | mm/page_alloc.c:206-210 | A released block leaves every page free or held exactly once |
| `PageRuns.Run` | mm/page_alloc.c:179-210 | Over any sequence of allocations and releases every call does what it should: an allocation fails, changing nothing, exactly when no aligned free run exists, else takes the front of the first block of the smallest sufficient order; held blocks are disjoint and with the free pages make up the initial free pages; when nothing is held the free pages and the blocks on every list are the initial ones |
| `SlabPages.PopObject` | mm/slab.c:123-131 | Taking the first object keeps the chain stored in the objects, its length, the descriptor count and the next free pointer |
| `SlabPages.PushObject` | mm/slab.c:144-150 | Linking a live object in front keeps the chain acyclic, on object boundaries and of length objects minus in-use |
| `SlabPages.WriteLive` | mm/slab.c:48-62 | Bytes a caller writes into a live object change no link of the chain |
| `SlabPages.CarvedSlab` | mm/slab.c:74-97 | A freshly carved page is a slab whose chain holds every object |
| `SlabHeap.LiveDisjoint` | mm/slab.c:109-131 | In every consistent heap different live objects, small or large, do not overlap |
| `SlabHeap.LiveInPages` | mm/slab.c:191-214 | A live object lies within pages that are in play and not free |
| `SlabHeap.LiveAligned` | mm/slab.c:171-214 | Every object is 16-byte aligned, small ones to their class size, large ones to a page |
| `Kmalloc.SlabAllocator.constructor` | mm/slab.c:31-40 | Eight caches over an allocator without slabs: nothing live, free lists unchanged |
| `Kmalloc.SlabAllocator.NewSlab` | mm/slab.c:74-97 | For pages that end below the end of the address space: fails exactly when no page is free, changing nothing; otherwise one page becomes a listed slab with every object free |
| `Kmalloc.SlabAllocator.CarveBound` | mm/slab.c:88-92 | The bound of the carving loop lies beyond the page exactly when the page does not end at the end of the address space |
| `Kmalloc.SlabAllocator.SlabAlloc` | mm/slab.c:109-131 | Zero exactly when the cache has no listed slab and no page is free, and then nothing changes; otherwise one new live object of the cache |
| `Kmalloc.SlabAllocator.SlabFree` | mm/slab.c:144-162 | The object is no longer live, a full slab is listed again, an empty one goes back to the page allocator |
| `Kmalloc.KmallocIndex` | mm/slab.c:171-179 | The smallest size class that holds the size |
| `Kmalloc.KmallocOrder` | mm/slab.c:196-204 | The smallest order that holds the size; none exactly when the largest block is too small |
| `Kmalloc.SizeLaw` | mm/slab.c:171-214 | What kmalloc hands out is the smallest power of two that holds the request, at least 16 bytes: an object of a slab up to 2048 bytes, whole pages beyond, up to 4 MiB |
| `Kmalloc.ServeLaw` | mm/slab.c:109-214 | A request can be served exactly when, up to 2048 bytes, a page is free or a slab of the smallest sufficient object size has an object that is not live, and beyond that when an aligned free run of the smallest sufficient size exists |
| `Kmalloc.StartLaw` | mm/slab.c:74-131 | Where an object is: its page in the linear map at 0xffffffc000000000, object number times object size into it |
| `Kmalloc.SlabAllocator.Kmalloc` | mm/slab.c:191-214 | Zero exactly for size zero or when neither a free object of the class nor a free page (or no free run of the order) exists, and then nothing changes; otherwise exactly one new live object of the right size, every other object unmoved with its contents |
| `Kmalloc.SlabAllocator.Kzalloc` | mm/slab.c:222-230 | As kmalloc, and the requested bytes are zero |
| `Kmalloc.SlabAllocator.Kfree` | mm/slab.c:241-254 | Nothing for null; otherwise exactly that object stops being live, all others keep place and contents |
| `Kmalloc.SlabAllocator.CallerStore` | mm/slab.c:48-62 | Arbitrary bytes written into a live object keep the whole heap consistent |
| `KmallocRuns.NoIdleSlab` | mm/slab.c:144-162 | Between calls every slab has a live object |
| `KmallocRuns.AllReleased` | mm/slab.c:144-254 | With nothing live there is no slab and no large block and every page in play is free |
| `KmallocRuns.Run` | mm/slab.c:191-254 | Over any run of kmalloc, kzalloc, kfree and caller writes every call does what it should: an allocation fails, changing nothing, exactly when it cannot be served, else gives one new object of the right size, zeroed if asked; a release or write changes exactly its object. The pages in play are constant, the handles name exactly the live objects, and after freeing all of them the free pages and the blocks on the free lists are the initial ones |
| `Regions.TotalIsCardinality` | mm/memblock.c:39-48 | The total size of ordered regions is the number of addresses they cover |
| `Regions.CanonicalUnique` | mm/memblock.c:75-95 | Two canonical lists that cover the same addresses are equal |
| `Regions.GapsCountStretches` | mm/memblock.c:130-168 | What the counting pass counts is the number of maximal uncovered stretches of the range |
| `Regions.AddedOne` | mm/memblock.c:109-182 | Adding one range to a canonical list adds at most one region |
| `Memblock.RegionList.InsertRegion` | mm/memblock.c:39-48 | Inserts the region at the index, later ones shifted; total size grows by it |
| `Memblock.RegionList.RemoveRegion` | mm/memblock.c:56-63 | Removes the region at the index, later ones shifted; total size shrinks by it |
| `Memblock.RegionList.MergeRegions` | mm/memblock.c:75-95 | From an ordered list, touching only in the window, to a canonical list that covers the same addresses |
| `Memblock.RegionList.CountPass` | mm/memblock.c:130-168 | The number of regions that the inserting pass will insert |
| `Memblock.RegionList.InsertPass` | mm/memblock.c:130-168 | Inserts exactly as many regions as counted, one per uncovered stretch |
| `Memblock.RegionList.AddRange` | mm/memblock.c:109-182 | The covered set becomes the union with the capped range, in canonical form; fails exactly when count plus uncovered stretches exceeds 16, and then nothing changes; well formed afterwards exactly when the list was non-empty or the range does not wrap |
| `Memblock.UncappedInput` | mm/memblock.c:122-127 | An input on which a list does not stay well formed: a range past the end of the address space added to an empty list |
| `Memblock.RegionList.IsolateRange` | mm/memblock.c:195-239 | At most two splits make the regions of an index window exactly those inside the range; fails exactly when fewer than two slots are free |
| `Memblock.RegionList.RemoveRange` | mm/memblock.c:250-262 | The covered set becomes the difference with the capped range, in canonical form; fails exactly when fewer than two slots are free, and then nothing changes |
| `FreeRanges.WalkedAll` | mm/memblock.c:315-345 | A complete walk lists every maximal free range |
| `FreeRanges.ReportedNonEmpty` | mm/memblock.c:315-345 | A reported range is non-empty exactly when the gap is, which the non-touching invariant guarantees |
| `EarlyAllocator.EarlyMemory.NextFree` | mm/memblock.c:315-345 | The next maximal range of memory minus reserved, nothing free skipped; none exactly when nothing free is left |
| `EarlyAllocator.EarlyMemory.Walk` | mm/memblock.c:315-345 | From a zero cursor: all maximal free ranges, ascending, at most as many as both lists have regions |
| `EarlyAllocator.EarlyMemory.Add` | mm/memblock.c:272-275 | Memory becomes the union; reserved unchanged; failure exactly when there is no room |
| `EarlyAllocator.EarlyMemory.Reserve` | mm/memblock.c:285-288 | Reserved becomes the union; memory unchanged; failure exactly when there is no room |
| `EarlyAllocator.EarlyMemory.PhysFree` | mm/memblock.c:298-301 | Reserved becomes the difference; memory unchanged |
| `EarlyAllocator.EarlyMemory.ReserveAndFree` | mm/memblock.c:285-301 | Reserving a range that meets no reserved region and freeing it again, both successfully, gives back the identical list |
| `EarlyAllocator.EarlyMemory.PhysAlloc` | mm/memblock.c:358-378 | For every input: the least aligned address whose whole extent is free is reserved and returned if the list has room, otherwise zero and no change; except that where nothing fits and rounding wraps, the range from address zero on is reserved and zero returned |
| `FreeRanges.AllocatesExactly` | mm/memblock.c:358-378 | The search keeps its promise exactly unless nothing fits, rounding wraps at a free range, the list has room and the range from zero on is not reserved already |
| `FreeRanges.WrapExample` | mm/memblock.c:371-373 | An input on which it does not: a hundred bytes at the end of the address space, page alignment |
| `FreeRanges.NoFitPastWrap` | mm/memblock.c:371-373 | Where rounding up wraps, no aligned address is left before the end of the address space |
| `FreeRanges.ZeroMeansFailure` | mm/memblock.c:358-378 | Zero means failure and non-zero success exactly unless the extent fits at address zero and the list has room for it |
| `FreeRanges.ZeroExample` | mm/memblock.c:358-378 | Inputs on which zero means success: memory from address zero on, nothing reserved |
| `MemInit.ReserveBoot` | mm/init.c:22-48 | Adding memory and reserving cannot fail; reserved are exactly the kernel, 0x41000000 to 0x41060000, and the device tree if its pointer is in memory and 8-byte aligned and its magic is 0xd00dfeed |
| `MemInit.UsableAddress` | mm/init.c:22-48 | By address: memory above the kernel, outside the application slots, and outside the device tree if one is found |
| `MemInit.UsablePage` | mm/init.c:36-57 | A page is to be freed exactly when it lies in memory above the kernel and meets no application slot, no device tree that is found, and no byte of the page map of 48 bytes a page |
| `MemInit.MapFitsAt` | mm/init.c:50-53 | The page map fits exactly at 8-byte aligned addresses whose whole extent is usable |
| `Seeding.SeedRange` | mm/init.c:55-57 | The pages of one free range are exactly the new wholly free pages, and their neighbours are not free |
| `Seeding.SeedRangeExactly` | mm/init.c:55-57 | One more range keeps the free pages right, each page freed once, exactly when rounding its start up does not wrap or no managed page lies below its end |
| `Seeding.NoWrapSafe` | mm/init.c:55-57 | Memory that ends a page below the end of the address space is safe to seed |
| `MemInit.SeedAll` | mm/init.c:55-57 | If every free range is safe in that sense: after the loop exactly the managed pages wholly inside free memory are free, and the lists are the greedy pieces of all maximal free ranges, in ascending order, pushed one by one: no merge within or across ranges |
| `MemInit.MemInit` | mm/init.c:36-59 | Panics exactly when the page map fits nowhere; otherwise the map has the least address, the free pages are exactly those meeting no kernel, application, device tree or map byte, stated also in plain addresses with the conditions under which a device tree counts, the lists are the greedy pieces of the maximal available ranges, none merged, these pieces are the canonical blocks, and the slab layer starts empty |
| `MemInit.SeedCanonical` | mm/page_alloc.c:222-242 | Pieces pushed on empty lists without a merge are exactly the canonical blocks of the free pages |
| `MemInit.RangesAvailable` | mm/init.c:55-57 | The walk over free memory lists exactly the maximal ranges clear of kernel, applications, device tree and page map |
| `Descriptors.SplitWord` | mm/mmu.c:23-34 | A descriptor built from a page address and attributes gives both back |
| `Descriptors.OrSplit` | mm/mmu.c:150-154 | Bitwise or joins the bits above and below any position separately |
| `Descriptors.OrIsSum` | mm/mmu.c:212-217 | Bitwise or of a page address and attributes is their sum |
| `RadixTree.Radix.WalkIsLeaf` | mm/mmu.c:146-157 | The hardware walk through the stored words ends at the flat view's entry for every root and page |
| `RadixTree.Radix.AddL2` | mm/mmu.c:146-152 | A new level 2 table keeps the tree and every translation |
| `RadixTree.Radix.AddL3` | mm/mmu.c:152-157 | A new level 3 table keeps the tree and every translation |
| `RadixTree.Radix.SetLeaf` | mm/mmu.c:212-217 | Writing one level 3 entry changes the flat view at that page of that root only |
| `RadixTree.Radix.ReferredOnce` | mm/mmu.c:118-157 | Every pool table in use is referred to by exactly one entry |
| `Mappings.IndexBits` | mm/mmu.c:20-23 | The three table indices are bits 38..30, 29..21 and 20..12 of the address |
| `Mappings.HardwareWalk` | mm/mmu.c:20-26 | Translation in plain numbers: three words, each at the index the address gives in the table that bits 47..12 of the word before refer to, give page and attributes; a fault exactly when one of them does not end in binary 11 |
| `PageTables.Tables.WalkToPte` | mm/mmu.c:146-157 | Finds the level 3 entry, taking at most the two tables the page needs, with every translation unchanged |
| `PageTables.Tables.CreatePgdMapping` | mm/mmu.c:212-217 | Entries in the range become physical address plus offset joined bitwise with the protection, all others stay, and the tables in use grow by exactly those the range needs |
| `Mappings.MappingTranslates` | mm/mmu.c:212-217 | For every root and every 64-bit address: translated into the range inside it, unchanged outside it and in other roots |
| `Mappings.BuiltStep` | mm/mmu.c:225-242 | After any sequence of mappings the last one covering a page decides its entry |
| `AddressSpace.SharedWalk` | mm/mmu.c:241-242 | Copying the linear map's entry makes the identity map walk the linear map and changes no other walk |
| `AddressSpace.PlanTables` | mm/mmu.c:49-50 | Every table counted in the pool size is needed |
| `AddressSpace.FinalSpace` | mm/mmu.c:225-242 | The finished tables translate every address of every root as laid out: linear map, devices, applications, identity map, and faults elsewhere |
| `AddressSpace.MapKernelSegment` | mm/mmu.c:220-223 | Maps the segment's pages of the linear map with the protection |
| `AddressSpace.MmuInit` | mm/mmu.c:225-242 | Uses exactly the whole pool, builds exactly the laid-out translations, and every translation meets the permission rules and has, by descriptor bit, the rights it needs, for all page-aligned segment bounds and memory sizes |
| `AddressSpace.SpacePermitted` | mm/mmu.c:27-47 | No address is writable and executable at one level, no mapping of text or read-only data is writable, only kernel text is executable at EL1, and EL0 has no access to kernel mappings |
| `AddressSpace.SpaceRights` | mm/mmu.c:25-47 | Address by address and bit by bit: linear map and identity map valid, Normal, access flag set, closed to EL0, executable in text only, writable outside text and read-only data; devices with attribute index 0; image pages readable and executable, stack pages readable and writable at EL0; nothing else mapped |
| `Vsprintf.ToDigits` | lib/vsprintf.c:199-211 | The digits, last first, in at most 64 of the 66 places for every base |
| `FormatLaws.DigitTables` | lib/vsprintf.c:42-43 | The two digit tables, 0 to 9 and then a to z or A to Z |
| `FormatLaws.NumeralLaw` | lib/vsprintf.c:199-211 | Positional notation: every character of a numeral is the table entry for the digit of the value in its place |
| `FormatLaws.NumeralLength` | lib/vsprintf.c:199-211 | A numeral has at least one digit and no more than the value needs |
| `Vsprintf.Number` | lib/vsprintf.c:164-273 | Null exactly for a base outside 2 to 36; otherwise appends the ideal field, clipped to the buffer |
| `FormatText.NumberText` | lib/vsprintf.c:164-273 | A numeric field has length max(width, sign and prefix plus max(precision, digits)) |
| `FormatLaws.HeadLaw` | lib/vsprintf.c:178-250 | Sign, magnitude and prefix for every 64-bit pattern: minus, plus or space; 0, 0x or 0X |
| `FormatLaws.FieldLaw` | lib/vsprintf.c:164-273 | A field is spaces, sign, prefix, zeros, digits, spaces: spaces behind only when left justified, in front only when neither left justified nor zero padded, zeros beyond the precision only when zero padded |
| `Vsprintf.SkipAtoi` | lib/vsprintf.c:146-154 | The value of the digit run and the position after it |
| `Strtoul.AtoiReadsBack` | lib/vsprintf.c:146-154 | Inverts decimal printing for every value: zeros and a decimal numeral are read as the value, and exactly they are read |
| `Vsprintf.Strnlen` | lib/vsprintf.c:45-53 | The first NUL, or the count or the end if that comes first: no NUL before the result |
| `Vsprintf.ReadSpec` | lib/vsprintf.c:319-376 | Flags, width, precision and qualifier of a conversion, with the arguments they consume; widths and precisions within `int` |
| `FormatLaws.SpecReads` | lib/vsprintf.c:319-376 | Reading is the inverse of writing a specification: any flags in any order, width and precision absent, a number or a star, a dot alone, a negative star, and each qualifier |
| `FormatLaws.ArgumentLaw` | lib/vsprintf.c:499-518 | What an argument means under each qualifier: a 64-bit word, or the number of 16 or 32 bits, signed or unsigned, equal to the `int` modulo its size; no value exactly when the type is wrong |
| `FormatLaws.IntegerLaw` | lib/vsprintf.c:465-519 | d and i are signed decimal, u unsigned decimal, o octal, x and X hexadecimal in lower and upper case |
| `FormatLaws.PointerLaw` | lib/vsprintf.c:435-441 | A pointer is sixteen zero-padded hexadecimal digits unless a width is given |
| `FormatLaws.StringLaw` | lib/vsprintf.c:404-433 | A string up to its NUL and at most the precision, padded to the width on the right side; <NULL> for a null pointer |
| `FormatLaws.OtherLaw` | lib/vsprintf.c:381-497 | A character with its padding, the percent sign, an unknown conversion echoed, and a format that ends in a percent sign |
| `FormatLaws.FormatInteger` | lib/vsprintf.c:285-531 | End to end: a format of one integer conversion with any flags, width, precision and qualifier prints exactly that number as that field |
| `Vsprintf.PutConversion` | lib/vsprintf.c:378-521 | One conversion appends its ideal text, clipped to the buffer, and consumes its arguments |
| `Vsprintf.Vsnprintf` | lib/vsprintf.c:285-531 | For texts whose length fits `int`: the buffer holds the first min(length, size - 1) characters of the ideal text and NUL, nothing else is touched (nothing at all for size zero), and the result is the untruncated length |
| `Strtoul.SimpleStrtoul` | lib/vsprintf.c:61-130 | Value modulo 2^64 and end of the number, base zero decided by the prefix |
| `Strtoul.SimpleStrtol` | lib/vsprintf.c:92-144 | As the unsigned parser, negated modulo 2^64 after a minus sign |
| `FormatLaws.RadixLaw` | lib/vsprintf.c:61-98 | Base zero is 16 after 0x and a hexadecimal digit, 8 after any other zero, else 10; after a minus sign the result is the negation modulo 2^64 |
| `FormatLaws.HexDigitLaw` | lib/vsprintf.c:76-76 | The digits of the parser are 0 to 9, a to f and A to F, with their places in the table as values |
| `FormatLaws.ParseLaw` | lib/vsprintf.c:76-79 | The digit loop takes the longest run of digits below the base, and its value is their positional value modulo 2^64 |
| `Strtoul.PrintParse` | lib/vsprintf.c:61-273 | A 64-bit value printed in a base from 2 to 16, unpadded or zero-padded, reads back in that base, the whole text consumed |
| `Strtoul.PrintParseHex` | lib/vsprintf.c:65-75 | Lower-case `%#x` reads back with base zero |
| `Strtoul.PrintParseOctal` | lib/vsprintf.c:65-75 | `%#o` reads back with base zero |
| `Strtoul.PrintParseDecimal` | lib/vsprintf.c:65-75 | Unpadded decimal reads back with base zero |
| `Strtoul.PrintParseSigned` | lib/vsprintf.c:92-98 | Signed decimal, unpadded or zero-padded, reads back through the signed parser for every 64-bit value |
| `Strtoul.UpperPrefixLost` | lib/vsprintf.c:65-75 | Upper-case `%#X` never reads back with base zero: the parser returns zero after one character |
| `Strtoul.IntArgument` | lib/vsprintf.c:499-520 | An `int` argument reaches a signed conversion with its own sign and absolute value |
| `Strtoul.ShortArgument` | lib/vsprintf.c:508-512 | The `h` qualifier prints the 16-bit number, signed or unsigned, that equals the argument modulo 2^16 |
| `Strtoul.FormatParseUnsigned` | lib/vsprintf.c:285-531 | Formatting any 64-bit word with `%lo`, `%lu`, `%lx` or `%lX` and parsing in base 8, 10 or 16 gives the word back |
| `Strtoul.FormatParseLong` | lib/vsprintf.c:285-531 | Formatting any 64-bit word with `%ld` and parsing the text gives the word back |
| `TaskSteps.StepKeeps` | kernel/task.c:65-105 | One trap keeps the task count, touches no task but the current one, restarts none, and resumes only a runnable one |
| `TaskSteps.NeverResumed` | kernel/task.c:65-105 | Over every run a task that has exited or faulted is never resumed |
| `TaskSteps.NeverAfterEnd` | kernel/task.c:84-99 | A task whose trap is a fault or the exit call is not resumed by that trap or any later one |
| `TaskSteps.Approaches` | kernel/task.h:24-33 | While a runnable task is not picked, each scheduler call brings it at least one place nearer |
| `TaskSteps.RoundRobin` | kernel/task.c:23-39 | A task that stays runnable is picked within as many scheduler calls as there are tasks, for any number of tasks |
| `TrapLaws.TickLaw` | kernel/task.c:78-83 | An accepted timer tick in a running state saves the frame and resumes the first runnable task going round from the next one, the same task only when no other is runnable |
| `TrapLaws.TickRoundRobin` | kernel/task.c:23-39 | Among n tasks one that stays runnable is given the processor within n accepted timer ticks, whatever else happens |
| `TrapLaws.PanicLaw` | kernel/task.c:65-71 | A trap not from EL0, with interrupts open, or with a stack pointer out of the stack or not 16-byte aligned, panics and changes nothing; an accepted one panics only when no task is left and the timer does not stop |
| `TrapLaws.OtherInterruptLaw` | kernel/task.c:79-81 | An accepted interrupt that is no tick goes back to the interrupted task |
| `TrapLaws.FaultLaw` | kernel/task.c:84-90 | A synchronous exception other than class 0x15 with immediate zero is reported with syndrome, fault address and program counter and ends the task; the next task runs, or all is done |
| `TrapLaws.ExitLaw` | kernel/task.c:95-99 | Call 1 ends the task with x0 as exit code and reports it; the next task runs, or all is done |
| `TrapLaws.LogLaw` | kernel/task.c:46-63 | Call 0: above 256 bytes -22, none 0, outside image and 16 KiB stack -14, otherwise the length and exactly those bytes after the prefix; no other register changes |
| `TrapLaws.UnknownCallLaw` | kernel/task.c:100-104 | Every other call returns -38 and prints nothing |
| `TaskSteps.ResumedFrame` | kernel/task.c:65-105 | A resumed task's frame is the one saved at its last trap, except x0 when that trap is the system call now returning |
| `TaskSteps.FirstFrame` | kernel/task.c:107-140 | A task resumed before it ever trapped gets its initial frame |
| `TaskLoading.RunInSlots` | kernel/task.c:65-140 | Over every run each task keeps its slot and its saved frame stays acceptable: EL0, stack pointer aligned and in its own stack |
| `TaskLoading.LogsApart` | kernel/task.c:41-63 | No byte can be logged by two different tasks |
| `TaskLoading.LoadedByte` | kernel/task.c:111-131 | After loading, every byte of every image and stack is the image byte or zero |
| `TaskLoading.UntouchedByte` | kernel/task.c:111-131 | Every other byte of memory is as before |
| `TaskLoading.LoadedMemory` | kernel/task.c:111-131 | Memory after loading by offset: images at 16 MiB plus multiples of 128 KiB, cleared stacks in the last 16 KiB of each slot, all else as before |
| `TaskLoading.InitialRunning` | kernel/task.c:107-140 | In the state the first application is entered in, every task is runnable in its own slot: entered at 0x41000000 plus 0x20000 times its number, stack pointer 0x20000 above that, processor state 0x340, all 31 registers zero; one report each |
| `Tasks.Contains` | kernel/task.c:41-44 | True exactly when the range lies within the region, in unbounded arithmetic: the test cannot be fooled by wrap-around |
| `Tasks.Kernel.NextRunnable` | kernel/task.h:24-33 | The nearest runnable task going round, the current one last; none exactly when none is runnable |
| `Tasks.Kernel.Schedule` | kernel/task.c:23-39 | Moves to that task, or finishes when there is none |
| `Tasks.Kernel.SysLog` | kernel/task.c:46-63 | The result and the exact console output of the log call, with its length and range errors |
| `Tasks.Kernel.Trap` | kernel/task.c:65-105 | One step of the machine whose runs the lemmas above are about, with the words of every diagnostic it prints |
| `Tasks.StartApps` | kernel/task.c:107-140 | Panics exactly when an image is empty or larger than 64 KiB; otherwise memory is the old one with every image copied and every stack cleared, and the tasks and reports are those of the initial state |
| `Diagnostics.RenderPieces` | lib/vsprintf.c:285-531 | A format of fixed text, `%u`, `%ld` and `%016lx` renders to the texts of its parts, one after the other |
| `Diagnostics.DiagnosticText` | kernel/task.c:72-99 | The LOADED, TRAP, FAULT, EXIT and completion messages as the formatter prints them |
| `Diagnostics.LoadedMessage` | kernel/task.c:135-135 | Format, arguments and exact text of the LOADED message |
| `Diagnostics.TrapMessage` | kernel/task.c:74-75 | Format, arguments and exact text of the TRAP message |
| `Diagnostics.FaultMessage` | kernel/task.c:86-87 | Format, arguments and exact text of the FAULT message |
| `Diagnostics.ExitMessage` | kernel/task.c:97-97 | Format, arguments and exact text of the EXIT message, the status signed |
| `Diagnostics.DoneMessage` | kernel/task.c:35-35 | Format, arguments and exact text of the completion message |
| `Diagnostics.HexField` | kernel/task.c:72-88 | A 64-bit field of a diagnostic is 16 characters of 0123456789abcdef, each the digit of the word in its place, and they read back as the word |
| `Diagnostics.PrefixNames` | kernel/task.c:15-21 | The prefix of a log line names the task in decimal exactly for the first ten tasks |
| `Diagnostics.StepPrintable` | kernel/task.c:65-105 | Over every trap each output has a defined text |
| `KernelMemory.LiveAvailable` | mm/slab.c:191-214 | Every byte of a live object is memory clear of kernel, applications, device tree and page map |
| `KernelMemory.AvailableMapped` | mm/mmu.c:225-242 | Such memory is mapped at its kernel address, writable and not executable at EL1 and out of reach of EL0 |
| `KernelMemory.BootAndRun` | mm/init.c:36-59 | After the tables are built, memory is initialised and any run of allocations, releases and writes, each doing what it should, every held byte lies in such memory, has one holder, and translates to itself as kernel data |

## Left out

- The boot assembly, exception vectors, system registers, barriers and TLB maintenance (kernel/boot.S, kernel/vectors.S, mm/mmu.c:244-294): hardware effects; the tables are taken as built and translation is a pure walk.
- Timer, UART and printk's own buffer (kernel/timer.c, kernel/uart.c, lib/printk.c): a timer tick, the syndrome and whether the timer stops are inputs of a trap; the console is a sequence of outputs.
- The device tree (mm/init.c:16-34): its address, magic and size are inputs; its contents are not modelled.
- apps/, tools/, tests/, build files and linker scripts: fixed programs and plumbing; what the linker guarantees about segment bounds is a precondition.
- `memcmp`, the page and address conversions, `snprintf`, `sprintf` and `vsprintf`: one-line wrappers or easy loops that would add only easy members.
- Pointer arithmetic and aliasing of C: pages are named by frame number, list nodes by name, kernel addresses are numbers into one byte array; `list_del` and `kfree` take ghost parameters naming the list or object that their precondition speaks of.
- The exclusive or of the buddy computation, masks and shifts are written as arithmetic on bits, and protections, whose bits are apart, as sums.
- The two flag bits of a page are two booleans, and `struct page` fields that share storage are separate.
- The messages of `mem_init` are not modelled, and the page map is an array of records whose placement is the reserved extent.
- Widths and precisions beyond `int`, `%n` and arguments that do not match the format: `Render` has no value there; a text longer than `int` can count, and a buffer that reaches the end of the address space, are excluded by the precondition of `Vsnprintf`.
- Alignments that are no power of two, which `memblock_phys_alloc` does not support.
- PageAlloc.PageAllocator.FreePages: the caller's block must be held, aligned and in range, as the interface demands; freeing anything else is not modelled.
- MemInit.MemInit: memory is less than the 256 GiB that the linear map reaches, and the kernel ends inside it.
- MemInit.SeedAll: what the freed lists look like after a range that is not safe; the code then frees pages that are free already or are not memory.
- Kmalloc.SlabAllocator.NewSlab: a page that ends at the end of the address space, where the loop bound wraps to zero and one object is chained.
- PageTables.Tables.CreatePgdMapping: the pool must have room for the tables the range needs; the code does not check this and `AddressSpace.MmuInit` shows that it always has.
