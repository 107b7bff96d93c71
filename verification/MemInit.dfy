/** Boot composition (mm/init.c): the free ranges of the early allocator become the free pages of the
    buddy allocator. */
module Seeding {
  import opened Machine
  import opened BuddyBlocks
  import opened PageAlloc
  import opened Regions
  import opened FreeRanges

  /** All bytes of page `p` are memory and not reserved. */
  ghost predicate PageFree(mem: seq<Region>, res: seq<Region>, p: nat) {
    forall x :: p * PAGE_SIZE <= x < (p + 1) * PAGE_SIZE ==> Free(mem, res, x)
  }

  /** The free pages are the managed, wholly free pages that start below `limit`. */
  ghost predicate SeededBelow(mem: seq<Region>, res: seq<Region>, free: set<nat>, base: nat, n: nat, limit: nat) {
    forall p: nat :: p in free <==> base <= p < base + n && PageFree(mem, res, p) && p * PAGE_SIZE < limit
  }

  /** What the loop frees for the range is what the range holds: rounding its start up does not wrap, or no managed page
      lies below its end. */
  predicate SafeRange(base: nat, n: nat, start: nat, end: nat) {
    RoundsUp(start) || LimitPageOf(base, n, end) <= base
  }

  /** So for every free range. */
  ghost predicate SafeToSeed(mem: seq<Region>, res: seq<Region>, base: nat, n: nat) {
    forall start: nat, end: nat :: MaximalFree(mem, res, start, end) ==> SafeRange(base, n, start, end)
  }

  /** Memory that ends a page below the end of the address space is safe to seed. */
  lemma NoWrapSafe(mem: seq<Region>, res: seq<Region>, base: nat, n: nat)
    requires NoWrap(mem, PAGE_SIZE)
    ensures SafeToSeed(mem, res, base, n)
  {
    forall start: nat, end: nat | MaximalFree(mem, res, start, end)
      ensures RoundsUp(start)
    {
      assert Free(mem, res, start);
    }
  }

  /** What the seeding loop frees for a sequence of free ranges: range by range, the greedy pieces of its managed pages. */
  ghost function SeedPieces(ranges: seq<(nat, nat)>, base: nat, n: nat): seq<(nat, nat)> {
    if ranges == [] then [] else
      var last := ranges[|ranges| - 1];
      SeedPieces(ranges[..|ranges| - 1], base, n) + GreedyPieces(FirstPageOf(base, last.0), LimitPageOf(base, n, last.1))
  }

  lemma SeedPiecesNext(ranges: seq<(nat, nat)>, base: nat, n: nat, start: nat, end: nat)
    ensures SeedPieces(ranges + [(start, end)], base, n) ==
            SeedPieces(ranges, base, n) + GreedyPieces(FirstPageOf(base, start), LimitPageOf(base, n, end))
  {
    hide GreedyPieces, FirstPageOf, LimitPageOf;
    var more := ranges + [(start, end)];
    assert more[..|more| - 1] == ranges;
  }

  /** A wholly free page that meets a maximal free range lies inside it. */
  lemma PageInRange(mem: seq<Region>, res: seq<Region>, start: nat, end: nat, p: nat)
    requires MaximalFree(mem, res, start, end)
    ensures start <= p * PAGE_SIZE < end && PageFree(mem, res, p) ==> (p + 1) * PAGE_SIZE <= end
    ensures start <= p * PAGE_SIZE && (p + 1) * PAGE_SIZE <= end ==> PageFree(mem, res, p)
    ensures p * PAGE_SIZE < start <= (p + 1) * PAGE_SIZE ==> !PageFree(mem, res, p)
  {
    hide Free;
    var a, b := p * PAGE_SIZE, (p + 1) * PAGE_SIZE;
    assert PageFree(mem, res, p) && a <= end < b ==> Free(mem, res, end);
    assert PageFree(mem, res, p) && a <= start - 1 < b ==> Free(mem, res, start - 1);
  }

  /** A range that is not safe breaks the seeding: of the pages handed over for it the first is free already, or becomes free
      without being wholly free. So one more range keeps the seeding right exactly when it is safe. */
  lemma SeedRangeExactly(mem: seq<Region>, res: seq<Region>, free: set<nat>, base: nat, n: nat,
                         f: nat, start: nat, end: nat, f': nat)
    requires SeededBelow(mem, res, free, base, n, f) && f <= start && end <= f'
    requires MaximalFree(mem, res, start, end) && NoneFree(mem, res, f, start) && NoneFree(mem, res, end, f')
    ensures var run := PageRun(FirstPageOf(base, start), LimitPageOf(base, n, end));
            run !! free && SeededBelow(mem, res, free + run, base, n, f') <==> SafeRange(base, n, start, end)
  {
    var lo, hi := FirstPageOf(base, start), LimitPageOf(base, n, end);
    RangeBound(mem, res, start, end);
    if SafeRange(base, n, start, end) {
      SeedRange(mem, res, free, base, n, f, start, end, f');
    } else {
      RoundedUp(start);
      UnsafeRange(mem, res, free, base, n, f, start, end, f');
    }
  }

  lemma UnsafeRange(mem: seq<Region>, res: seq<Region>, free: set<nat>, base: nat, n: nat,
                    f: nat, start: nat, end: nat, f': nat)
    requires SeededBelow(mem, res, free, base, n, f) && NoneFree(mem, res, f, start) && MaximalFree(mem, res, start, end)
    requires !SafeRange(base, n, start, end)
    ensures base in PageRun(FirstPageOf(base, start), LimitPageOf(base, n, end))
    ensures base in free || !PageFree(mem, res, base)
  {
    RangeBound(mem, res, start, end);
    RoundedUp(start);
    hide RoundedPage, Free, MaximalFree;
    assert base * PAGE_SIZE < start;
    assert PageFree(mem, res, base) ==> Free(mem, res, base * PAGE_SIZE);
  }

  /** One more safe range: the pages handed over are exactly the new wholly free pages. */
  lemma SeedRange(mem: seq<Region>, res: seq<Region>, free: set<nat>, base: nat, n: nat,
                  f: nat, start: nat, end: nat, f': nat)
    requires SeededBelow(mem, res, free, base, n, f) && f <= start && end <= f'
    requires MaximalFree(mem, res, start, end) && NoneFree(mem, res, f, start) && NoneFree(mem, res, end, f')
    requires SafeRange(base, n, start, end)
    ensures var lo, hi := FirstPageOf(base, start), LimitPageOf(base, n, end);
            && SeededBelow(mem, res, free + PageRun(lo, hi), base, n, f')
            && PageAlloc.Isolated(free, lo, hi)
            && forall p: nat :: lo <= p < hi ==> base <= p < base + n && p !in free
  {
    var lo, hi := FirstPageOf(base, start), LimitPageOf(base, n, end);
    forall p: nat
      ensures p in free + PageRun(lo, hi) <==> base <= p < base + n && PageFree(mem, res, p) && p * PAGE_SIZE < f'
    {
      OnePage(mem, res, free, base, n, f, start, end, f', p);
    }
    RangeBound(mem, res, start, end);
    RoundedUp(start);
    hide PageFree, MaximalFree, RoundedPage;
    if 0 < lo < hi {
      PageInRange(mem, res, start, end, lo - 1);
    }
  }

  lemma OnePage(mem: seq<Region>, res: seq<Region>, free: set<nat>, base: nat, n: nat,
                f: nat, start: nat, end: nat, f': nat, p: nat)
    requires SeededBelow(mem, res, free, base, n, f) && f <= start && end <= f'
    requires MaximalFree(mem, res, start, end) && NoneFree(mem, res, f, start) && NoneFree(mem, res, end, f')
    requires SafeRange(base, n, start, end)
    ensures p in free + PageRun(FirstPageOf(base, start), LimitPageOf(base, n, end)) <==>
            base <= p < base + n && PageFree(mem, res, p) && p * PAGE_SIZE < f'
  {
    hide Free, MaximalFree, RoundedPage;
    PageInRange(mem, res, start, end, p);
    RangeBound(mem, res, start, end);
    RoundedUp(start);
    assert PageFree(mem, res, p) ==> Free(mem, res, p * PAGE_SIZE);
  }
}

module MemInit {
  import opened Machine
  import opened Options
  import opened PowersOfTwo
  import opened BuddyBlocks
  import opened IntrusiveList
  import opened PageAlloc
  import opened Regions
  import opened Memblock
  import opened FreeRanges
  import opened EarlyAllocator
  import opened Seeding
  import opened Kmalloc
  import opened SlabHeap
  import opened Words

  /** Size and alignment of `struct page`. */
  const PAGE_STRUCT_SIZE: nat := 48
  const PAGE_STRUCT_ALIGN: nat := 8

  /** Every page is on no list unless it is free: the state before and during seeding. */
  ghost predicate OnlyFreeLinked(alloc: PageAllocator, lists: Lists)
    reads alloc, alloc.pool
  {
    && (forall p: nat :: Unlinked(lists, Lru(p)))
    && OtherListsSame(lists, alloc.pool.lists)
  }

  /** The walk has listed `ranges` and reached frontier `f`; the free pages are those wholly free below it, put on their
      lists as the greedy pieces of the ranges, none merged. */
  ghost predicate SeededUpTo(early: EarlyMemory, alloc: PageAllocator, f: nat, lists: Lists, ranges: seq<(nat, nat)>)
    reads early, early.memory, early.reserved, early.memory.regions, early.reserved.regions
    reads alloc, alloc.pool, alloc.memMap
  {
    && early.Valid() && alloc.Valid() && OnlyFreeLinked(alloc, lists)
    && Walked(early.Mem(), early.Res(), ranges, f)
    && SafeToSeed(early.Mem(), early.Res(), alloc.basePfn, alloc.memMap.Length)
    && SeededBelow(early.Mem(), early.Res(), alloc.free, alloc.basePfn, alloc.memMap.Length, f)
    && alloc.pool.lists == PushAll(lists, SeedPieces(ranges, alloc.basePfn, alloc.memMap.Length))
  }

  /** Seeding has reached the cursor. */
  ghost predicate SeededTo(early: EarlyMemory, alloc: PageAllocator, cursor: Cursor, lists: Lists, ranges: seq<(nat, nat)>)
    reads early, early.memory, early.reserved, early.memory.regions, early.reserved.regions, cursor
    reads alloc, alloc.pool, alloc.memMap
  {
    early.At(cursor) && SeededUpTo(early, alloc, early.FrontierOf(cursor), lists, ranges)
  }

  /** Hand one free range to the page allocator. */
  method SeedOne(early: EarlyMemory, alloc: PageAllocator, start: nat, end: nat,
                 ghost f: nat, ghost f': nat, ghost lists: Lists, ghost ranges: seq<(nat, nat)>)
    requires SeededUpTo(early, alloc, f, lists, ranges) && f <= start && end <= f'
    requires MaximalFree(early.Mem(), early.Res(), start, end)
    requires NoneFree(early.Mem(), early.Res(), f, start) && NoneFree(early.Mem(), early.Res(), end, f')
    modifies alloc`nrFree, alloc`free, alloc`freeCount, alloc.pool, alloc.memMap
    ensures early.Valid() && early.Mem() == old(early.Mem()) && early.Res() == old(early.Res())
    ensures SeededUpTo(early, alloc, f', lists, ranges + [(start, end)])
    ensures SameSlabBits(old(alloc.memMap[..]), alloc.memMap[..])
  {
    hide PageAllocator.Core, PageAllocator.Valid, MaximalFree, NoneFree, SeededBelow, PushAll, OtherListsSame, Unlinked,
         OnlyBuddyChanged, PageAlloc.Isolated, PageRun, GreedyPieces, SeedPieces, Walked;
    ghost var mem, res := early.Mem(), early.Res();
    RangeBound(mem, res, start, end);
    assert SafeRange(alloc.basePfn, alloc.memMap.Length, start, end);
    hide SafeRange, SafeToSeed, RoundedPage;
    SeedRange(mem, res, alloc.free, alloc.basePfn, alloc.memMap.Length, f, start, end, f');
    HeldRun(alloc, lists, FirstPageOf(alloc.basePfn, start), LimitPageOf(alloc.basePfn, alloc.memMap.Length, end));
    WalkedNext(mem, res, ranges, f, start, end, f');
    ghost var before := alloc.pool.lists;
    alloc.FreeMemoryCore(start, end);
    SeedPiecesNext(ranges, alloc.basePfn, alloc.memMap.Length, start, end);
    PushAllAppend(lists, SeedPieces(ranges, alloc.basePfn, alloc.memMap.Length),
                  GreedyPieces(FirstPageOf(alloc.basePfn, start), LimitPageOf(alloc.basePfn, alloc.memMap.Length, end)));
    OtherListsTransitive(lists, before, alloc.pool.lists);
    SlabBitsKept(old(alloc.memMap[..]), alloc.memMap[..], alloc.basePfn, alloc.free);
  }

  lemma SlabBitsKept(before: seq<Page>, after: seq<Page>, base: nat, pfns: set<nat>)
    requires OnlyBuddyChanged(before, after, base, pfns)
    ensures SameSlabBits(before, after)
  {
    forall i | 0 <= i < |before|
      ensures after[i].slab == before[i].slab
    {
      assert after[i] == before[i].(buddy := after[i].buddy, order := after[i].order);
    }
  }

  lemma HeldRun(alloc: PageAllocator, lists: Lists, lo: nat, hi: nat)
    requires alloc.Valid() && OnlyFreeLinked(alloc, lists)
    requires forall p: nat :: lo <= p < hi ==> alloc.PfnValid(p) && p !in alloc.free
    ensures alloc.RunHeld(lo, hi)
  {
    hide PageAllocator.Core, OtherListsSame, Unlinked;
    forall p: nat | lo <= p < hi
      ensures Unlinked(alloc.pool.lists, Lru(p))
    {
      alloc.StillUnlinked(lists, p);
    }
  }

  /** The slab flag of every page is as before. */
  ghost predicate SameSlabBits(before: seq<Page>, after: seq<Page>) {
    |before| == |after| && forall i :: 0 <= i < |before| ==> after[i].slab == before[i].slab
  }

  /** Seeding is complete: `ranges` are all the maximal free ranges in ascending order, exactly the managed pages that are
      wholly free are free, and the lists are the greedy pieces of the ranges pushed one by one, none merged. */
  ghost predicate Seeded(early: EarlyMemory, alloc: PageAllocator, lists: Lists, ranges: seq<(nat, nat)>)
    reads early, early.memory, early.reserved, early.memory.regions, early.reserved.regions
    reads alloc, alloc.pool, alloc.memMap
  {
    && early.Valid() && alloc.Valid() && Walked(early.Mem(), early.Res(), ranges, UINTPTR_MAX)
    && (forall p: nat :: p in alloc.free <==> alloc.PfnValid(p) && PageFree(early.Mem(), early.Res(), p))
    && alloc.pool.lists == PushAll(lists, SeedPieces(ranges, alloc.basePfn, alloc.memMap.Length))
    && OtherListsSame(lists, alloc.pool.lists)
  }

  lemma SeedStart(early: EarlyMemory, alloc: PageAllocator, cursor: Cursor)
    requires early.Valid() && alloc.Valid() && alloc.free == {} && cursor.memory == 0 && cursor.reserved == 0
    requires forall p: nat :: Unlinked(alloc.pool.lists, Lru(p))
    requires SafeToSeed(early.Mem(), early.Res(), alloc.basePfn, alloc.memMap.Length)
    ensures SeededTo(early, alloc, cursor, alloc.pool.lists, [])
  {
    hide PageAllocator.Core, SafeToSeed;
    var mem, res := early.Mem(), early.Res();
    WalkedStart(mem, res);
    forall p: nat | p * PAGE_SIZE < early.FrontierOf(cursor)
      ensures !PageFree(mem, res, p)
    {
      hide Free, Frontier;
      assert PageFree(mem, res, p) ==> Free(mem, res, p * PAGE_SIZE);
    }
  }

  lemma SeedEnd(mem: seq<Region>, res: seq<Region>, free: set<nat>, base: nat, n: nat, f: nat, p: nat)
    requires SeededBelow(mem, res, free, base, n, f) && NoneFree(mem, res, f, UINTPTR_MAX) && Bounded(mem)
    ensures p in free <==> base <= p < base + n && PageFree(mem, res, p)
  {
    if p * PAGE_SIZE >= UINTPTR_MAX { NoneFreePastEnd(mem, res, p * PAGE_SIZE); }
    hide Free;
    assert PageFree(mem, res, p) ==> Free(mem, res, p * PAGE_SIZE);
  }

  lemma SeedFinished(early: EarlyMemory, alloc: PageAllocator, f: nat, lists: Lists, ranges: seq<(nat, nat)>)
    requires SeededUpTo(early, alloc, f, lists, ranges) && f <= UINTPTR_MAX && NoneFree(early.Mem(), early.Res(), f, UINTPTR_MAX)
    ensures Seeded(early, alloc, lists, ranges)
  {
    hide PageAllocator.Core, PageAllocator.Valid, NoneFree, SeededBelow, PushAll, OtherListsSame, Unlinked, Walked,
         Regions.Canonical, PageFree, TotalSize, SeedPieces, SafeToSeed;
    WalkedDone(early.Mem(), early.Res(), ranges, f);
    forall p: nat
      ensures p in alloc.free <==> alloc.PfnValid(p) && PageFree(early.Mem(), early.Res(), p)
    {
      SeedEnd(early.Mem(), early.Res(), alloc.free, alloc.basePfn, alloc.memMap.Length, f, p);
    }
  }

  /** One round of the seeding loop. */
  method SeedNext(early: EarlyMemory, alloc: PageAllocator, cursor: Cursor, ghost lists: Lists, ghost ranges: seq<(nat, nat)>)
    returns (more: bool, ghost ranges': seq<(nat, nat)>)
    requires SeededTo(early, alloc, cursor, lists, ranges)
    modifies cursor, alloc`nrFree, alloc`free, alloc`freeCount, alloc.pool, alloc.memMap
    ensures if more then SeededTo(early, alloc, cursor, lists, ranges') else Seeded(early, alloc, lists, ranges')
    ensures early.Valid() && early.Mem() == old(early.Mem()) && early.Res() == old(early.Res())
    ensures more ==> cursor.memory + cursor.reserved > old(cursor.memory + cursor.reserved)
    ensures SameSlabBits(old(alloc.memMap[..]), alloc.memMap[..])
  {
    hide PageAllocator.Core, PageAllocator.Valid, MaximalFree, NoneFree, SeededBelow, PushAll, OtherListsSame, Unlinked,
         Regions.Canonical, Bounded, Frontier, TotalSize, OnlyFreeLinked, SeedPieces, Walked, Seeded, SafeToSeed;
    ghost var f := early.FrontierOf(cursor);
    var found, start, end := early.NextFree(cursor);
    more, ranges' := found, ranges;
    if found {
      SeedOne(early, alloc, start, end, f, early.FrontierOf(cursor), lists, ranges);
      ranges' := ranges + [(start, end)];
    } else {
      early.ListsOk();
      FrontierBound(early.Mem(), early.Res(), cursor.memory, cursor.reserved);
      SeedFinished(early, alloc, f, lists, ranges);
    }
  }

  lemma SameSlabTransitive(a: seq<Page>, b: seq<Page>, c: seq<Page>)
    requires SameSlabBits(a, b) && SameSlabBits(b, c)
    ensures SameSlabBits(a, c)
  {
  }

  /** The seeding loop of mem_init, where no free range starts in the last page of the address space while pages lie below
      it; SeedRangeExactly shows that seeding goes wrong otherwise. */
  method SeedAll(early: EarlyMemory, alloc: PageAllocator) returns (ghost ranges: seq<(nat, nat)>)
    requires early.Valid() && alloc.Valid() && alloc.free == {}
    requires SafeToSeed(early.Mem(), early.Res(), alloc.basePfn, alloc.memMap.Length)
    requires forall p: nat :: Unlinked(alloc.pool.lists, Lru(p))
    modifies alloc`nrFree, alloc`free, alloc`freeCount, alloc.pool, alloc.memMap
    ensures Seeded(early, alloc, old(alloc.pool.lists), ranges)
    ensures early.Valid() && early.Mem() == old(early.Mem()) && early.Res() == old(early.Res())
    ensures SameSlabBits(old(alloc.memMap[..]), alloc.memMap[..])
  {
    hide SeededUpTo, Seeded, SameSlabBits, PageAllocator.Valid, Unlinked, SafeToSeed;
    var cursor := new Cursor();
    ranges := [];
    SeedStart(early, alloc, cursor);
    SameSlabRefl(alloc.memMap[..]);
    var more := true;
    while more
      invariant early.Valid() && early.Mem() == old(early.Mem()) && early.Res() == old(early.Res())
      invariant if more then SeededTo(early, alloc, cursor, old(alloc.pool.lists), ranges)
                else Seeded(early, alloc, old(alloc.pool.lists), ranges)
      invariant SameSlabBits(old(alloc.memMap[..]), alloc.memMap[..])
      decreases more, |early.Mem()| + |early.Res()| - cursor.memory - cursor.reserved
    {
      ghost var pages := alloc.memMap[..];
      more, ranges := SeedNext(early, alloc, cursor, old(alloc.pool.lists), ranges);
      SameSlabTransitive(old(alloc.memMap[..]), pages, alloc.memMap[..]);
    }
  }

  lemma SameSlabRefl(a: seq<Page>)
    ensures SameSlabBits(a, a)
  {
  }

  const FDT_MAGIC: nat := 0xd00d_feed

  /** The boot loader left a device tree: its address lies in memory, is aligned, and holds the magic. */
  predicate FdtPresent(ramSize: nat, fdt: nat, magic: nat) {
    PHYS_OFFSET <= fdt < PHYS_OFFSET + ramSize && fdt % 8 == 0 && magic == FDT_MAGIC
  }

  /** Address `x` belongs to the kernel image (and the firmware area below it), an application slot or the device tree. */
  ghost predicate BootReserved(kernelEnd: nat, hasFdt: bool, fdt: nat, fdtSize: nat, x: int) {
    || PHYS_OFFSET <= x < kernelEnd
    || APP_FIRST <= x < APP_FIRST + APP_COUNT * APP_SLOT_SIZE
    || (hasFdt && fdt <= x < fdt + fdtSize)
  }

  /** A short list always has room for one more range. */
  lemma ShortHasRoom(s: seq<Region>, base: nat, size: nat)
    requires Regions.Canonical(s) && |s| <= 7 && base <= UINTPTR_MAX
    ensures !NoRoom(s, base, size)
  {
    var end := base + CapSize(base, size);
    GapsCountStretches(s, 0, base, end);
    GapsBound(s, 0, base, end);
  }

  /** One more reservation at boot cannot fail, and the list stays short. */
  method ReserveShort(early: EarlyMemory, base: nat, size: nat) returns (r: int)
    requires early.Valid() && base + size < UINTPTR_MAX && |early.Res()| <= 7
    modifies early.reserved, early.reserved.regions
    ensures early.Valid() && early.Mem() == old(early.Mem()) && r == 0 && |early.Res()| <= |old(early.Res())| + 1
    ensures forall x :: Covers(early.Res(), x) <==> Covers(old(early.Res()), x) || base <= x < base + size
  {
    hide NoRoom, Covers, Regions.Canonical, Bounded, TotalSize;
    ShortHasRoom(early.Res(), base, size);
    r := early.Reserve(base, size);
    AddedOne(old(early.Res()), early.Res(), base, base + size);
  }

  /** The reservations of mem_init, device tree included; none of them can fail. */
  method ReserveBoot(early: EarlyMemory, ramSize: nat, kernelEnd: nat, fdt: nat, magic: nat, fdtSize: nat)
    returns (ok: bool)
    requires early.Valid() && early.Mem() == [] && early.Res() == []
    requires 0 < ramSize <= 0x40_0000_0000 && PHYS_OFFSET <= kernelEnd <= PHYS_OFFSET + ramSize && fdtSize < 0x1_0000_0000
    modifies early.memory, early.reserved, early.memory.regions, early.reserved.regions
    ensures ok && early.Valid() && early.Mem() == [Region(PHYS_OFFSET, ramSize)] && |early.Res()| <= 3
    ensures forall x :: Covers(early.Res(), x) <==>
              || 0x4000_0000 <= x < kernelEnd
              || 0x4100_0000 <= x < 0x4106_0000
              || (0x4000_0000 <= fdt < 0x4000_0000 + ramSize && fdt % 8 == 0 && magic == 0xd00d_feed && fdt <= x < fdt + fdtSize)
  {
    hide NoRoom, Covers, Regions.Canonical, Bounded, TotalSize;
    NoRegions(early.Res());
    var r := early.Add(PHYS_OFFSET, ramSize);
    if r == 0 {
      r := ReserveShort(early, PHYS_OFFSET, kernelEnd - PHYS_OFFSET);
    }
    if r == 0 {
      r := ReserveShort(early, APP_FIRST, APP_COUNT * APP_SLOT_SIZE);
    }
    if r == 0 && FdtPresent(ramSize, fdt, magic) {
      r := ReserveShort(early, fdt, fdtSize);
    }
    ok := r == 0;
  }

  /** Allocation of the page map: it fails exactly when no free extent fits. */
  method AllocMap(early: EarlyMemory, size: nat) returns (at: nat)
    requires early.Valid() && 0 < size <= UINTPTR_MAX && |early.Res()| <= 3 && NoWrap(early.Mem(), PAGE_STRUCT_ALIGN)
    requires !Covers(early.Mem(), 0)
    modifies early.reserved, early.reserved.regions
    ensures early.Valid() && early.Mem() == old(early.Mem())
    ensures at == 0 <==> forall a :: !Fit(early.Mem(), old(early.Res()), size, PAGE_STRUCT_ALIGN, a)
    ensures at != 0 ==> LeastFit(early.Mem(), old(early.Res()), size, PAGE_STRUCT_ALIGN, at)
    ensures at != 0 ==> forall x :: Covers(early.Res(), x) <==> Covers(old(early.Res()), x) || at <= x < at + size
  {
    hide Fit, NoFitBelow, Covers, Regions.Canonical, Bounded, TotalSize, NoRoom, NoWrap, TakesZero, Allocates;
    ghost var mem, res := early.Mem(), early.Res();
    assert IsPowerOfTwo(PAGE_STRUCT_ALIGN) by { assert Pow2(3) == 8; }
    NoWrapNoZero(mem, res, size, PAGE_STRUCT_ALIGN);
    at := early.PhysAlloc(size, PAGE_STRUCT_ALIGN);
    MapOutcome(mem, res, early.Res(), size, at);
  }

  lemma MapOutcome(mem: seq<Region>, res: seq<Region>, res': seq<Region>, size: nat, at: nat)
    requires Regions.Canonical(res) && |res| <= 7 && size > 0 && !Covers(mem, 0) && Bounded(mem)
    requires Allocates(mem, res, res', size, PAGE_STRUCT_ALIGN, at)
    ensures at == 0 <==> forall a :: !Fit(mem, res, size, PAGE_STRUCT_ALIGN, a)
    ensures at != 0 ==> LeastFit(mem, res, size, PAGE_STRUCT_ALIGN, at)
    ensures at != 0 ==> forall x :: Covers(res', x) <==> Covers(res, x) || at <= x < at + size
  {
    ghost var ok := exists a: nat :: LeastFit(mem, res, size, PAGE_STRUCT_ALIGN, a) && RoomFor(res, a, size);
    assert Fit(mem, res, size, PAGE_STRUCT_ALIGN, 0) ==> Free(mem, res, 0);
    if !ok {
      forall a
        ensures !Fit(mem, res, size, PAGE_STRUCT_ALIGN, a)
      {
        if Fit(mem, res, size, PAGE_STRUCT_ALIGN, a) {
          var b := LeastExists(mem, res, size, PAGE_STRUCT_ALIGN, a);
          assert Free(mem, res, b);
          if b > UINTPTR_MAX { NoneFreePastEnd(mem, res, b); }
          ShortHasRoom(res, b, size);
        }
      }
    }
  }

  lemma {:induction false} LeastExists(mem: seq<Region>, res: seq<Region>, size: nat, align: nat, a: nat) returns (b: nat)
    requires align > 0 && Fit(mem, res, size, align, a)
    ensures LeastFit(mem, res, size, align, b)
  {
    hide Fit;
    if c: nat :| c < a && Fit(mem, res, size, align, c) {
      b := LeastExists(mem, res, size, align, c);
    } else {
      b := a;
      FitNatural(mem, res, size, align);
    }
  }

  lemma FitNatural(mem: seq<Region>, res: seq<Region>, size: nat, align: nat)
    requires align > 0
    ensures forall a :: Fit(mem, res, size, align, a) ==> a >= 0
  {
  }

  /** The free lists as free_area_init leaves them. */
  ghost function EmptyFreeLists(): Lists {
    map k: nat | k < MAX_ORDER :: FreeArea(k) := []
  }

  /** Exactly the managed pages that are wholly free are free. */
  ghost predicate FreePagesAre(free: set<nat>, pages: nat, mem: seq<Region>, res: seq<Region>) {
    forall p: nat :: p in free <==> PHYS_OFFSET / PAGE_SIZE <= p < PHYS_OFFSET / PAGE_SIZE + pages && PageFree(mem, res, p)
  }

  /** free_area_init over a fresh page map. */
  method NewPages(pages: nat) returns (alloc: PageAllocator)
    ensures alloc.Valid() && alloc.free == {} && alloc.pool.lists == EmptyFreeLists()
    ensures alloc.memMap.Length == pages && alloc.basePfn == PHYS_OFFSET / PAGE_SIZE
    ensures forall i :: 0 <= i < pages ==> !alloc.memMap[i].slab
    ensures fresh(alloc) && fresh(alloc.pool) && fresh(alloc.memMap)
  {
    hide PageAllocator.Core;
    var pool := new ListPool<Node>();
    var memMap := new Page[pages](_ => ZERO_PAGE);
    alloc := new PageAllocator(PHYS_OFFSET, memMap, pool);
    NoListsYet(alloc);
  }

  /** free_area_init and the seeding loop. */
  method StartPages(early: EarlyMemory, pages: nat) returns (alloc: PageAllocator, ghost ranges: seq<(nat, nat)>)
    requires early.Valid() && SafeToSeed(early.Mem(), early.Res(), PHYS_OFFSET / PAGE_SIZE, pages)
    ensures early.Valid() && early.Mem() == old(early.Mem()) && early.Res() == old(early.Res())
    ensures alloc.Valid() && alloc.memMap.Length == pages && alloc.basePfn == PHYS_OFFSET / PAGE_SIZE
    ensures FreePagesAre(alloc.free, pages, early.Mem(), early.Res())
    ensures Walked(early.Mem(), early.Res(), ranges, UINTPTR_MAX)
    ensures alloc.pool.lists == PushAll(EmptyFreeLists(), SeedPieces(ranges, PHYS_OFFSET / PAGE_SIZE, pages))
    ensures forall h :: h in alloc.pool.lists ==> h.FreeArea?
    ensures forall i :: 0 <= i < pages ==> !alloc.memMap[i].slab
    ensures fresh(alloc) && fresh(alloc.pool) && fresh(alloc.memMap)
  {
    hide PageAllocator.Core, PageFree, PushAll, Regions.Canonical, Bounded, TotalSize, Walked, SeedPieces, SafeToSeed;
    alloc := NewPages(pages);
    ranges := SeedAll(early, alloc);
  }

  /** free_area_init, the seeding loop and kmem_cache_init. */
  method StartAllocators(early: EarlyMemory, pages: nat, ram: array<Byte>) returns (heap: SlabAllocator, ghost ranges: seq<(nat, nat)>)
    requires early.Valid() && ram.Length == pages * PAGE_SIZE
    requires SafeToSeed(early.Mem(), early.Res(), PHYS_OFFSET / PAGE_SIZE, pages)
    requires Va(PHYS_OFFSET / PAGE_SIZE + pages) < Pow256(WORD_SIZE)
    ensures early.Valid() && early.Mem() == old(early.Mem()) && early.Res() == old(early.Res())
    ensures heap.Valid() && heap.slabs == map[] && heap.large == map[] && heap.owned == heap.pages.free && heap.ram == ram
    ensures heap.pages.memMap.Length == pages && heap.pages.basePfn == PHYS_OFFSET / PAGE_SIZE
    ensures FreePagesAre(heap.pages.free, pages, early.Mem(), early.Res())
    ensures Walked(early.Mem(), early.Res(), ranges, UINTPTR_MAX)
    ensures SameFreeLists(PushAll(EmptyFreeLists(), SeedPieces(ranges, PHYS_OFFSET / PAGE_SIZE, pages)), heap.pages.pool.lists)
    ensures fresh(heap) && fresh(heap.pages) && fresh(heap.pages.pool) && fresh(heap.pages.memMap)
  {
    hide FreePagesAre, PageAllocator.Valid, SameFreeLists, Heap.Consistent, PushAll, Regions.Canonical, Bounded, TotalSize,
         Walked, SeedPieces, SafeToSeed;
    var alloc;
    alloc, ranges := StartPages(early, pages);
    heap := new SlabAllocator(alloc, ram);
  }

  lemma NoListsYet(alloc: PageAllocator)
    requires alloc.Valid()
    requires forall k: nat :: k < MAX_ORDER ==> FreeArea(k) in alloc.pool.lists && alloc.pool.lists[FreeArea(k)] == []
    requires forall h :: h in alloc.pool.lists ==> h.FreeArea?
    ensures alloc.pool.lists == EmptyFreeLists()
  {
    forall h | h in alloc.pool.lists
      ensures h in EmptyFreeLists()
    {
      assert h == FreeArea(h.order);
    }
  }

  /** What mem_init is told about the machine. */
  datatype Boot = Boot(ramSize: nat, kernelEnd: nat, fdt: nat, magic: nat, fdtSize: nat) {
    /** Memory reachable through the linear map; a 32-bit device tree size. */
    ghost predicate Sane() {
      && PAGE_SIZE <= ramSize < 0x40_0000_0000 && PHYS_OFFSET <= kernelEnd <= PHYS_OFFSET + ramSize
      && fdtSize < 0x1_0000_0000
    }

    ghost function Pages(): nat { ramSize / PAGE_SIZE }

    ghost function MapSize(): nat { Pages() * PAGE_STRUCT_SIZE }

    /** Memory that is neither kernel, nor application slot, nor device tree. */
    ghost predicate Usable(x: int) {
      && PHYS_OFFSET <= x < PHYS_OFFSET + ramSize
      && !BootReserved(kernelEnd, FdtPresent(ramSize, fdt, magic), fdt, fdtSize, x)
    }

    /** The page map fits at `a`. */
    ghost predicate MapFits(a: int) {
      0 <= a && a % PAGE_STRUCT_ALIGN == 0 && forall x :: a <= x < a + MapSize() ==> Usable(x)
    }

    /** Usable, and clear of a page map at `at`. */
    ghost predicate Available(at: nat, x: int) {
      Usable(x) && !(at <= x < at + MapSize())
    }

    /** All of page `p` is available. */
    ghost predicate PageUsable(at: nat, p: nat) {
      forall x :: p * PAGE_SIZE <= x < (p + 1) * PAGE_SIZE ==> Available(at, x)
    }

    /** [start, end) is available and cannot be extended on either side. */
    ghost predicate MaximalAvailable(at: nat, start: int, end: int) {
      && 0 <= start < end && (forall x :: start <= x < end ==> Available(at, x))
      && !Available(at, start - 1) && !Available(at, end)
    }

    /** All the maximal available ranges, in ascending order. */
    ghost predicate AvailableRanges(at: nat, ranges: seq<(nat, nat)>) {
      && (forall i :: 0 <= i < |ranges| ==> MaximalAvailable(at, ranges[i].0, ranges[i].1))
      && (forall i, j :: 0 <= i < j < |ranges| ==> ranges[i].1 < ranges[j].0)
      && (forall x :: Available(at, x) ==> InRanges(ranges, x))
    }

    /** The blocks that seeding frees: the greedy pieces of the pages of each range. */
    ghost function Pieces(ranges: seq<(nat, nat)>): seq<(nat, nat)> {
      SeedPieces(ranges, PHYS_OFFSET / PAGE_SIZE, Pages())
    }
  }

  /** mem_init: it panics exactly when the page map fits nowhere; otherwise the free pages are exactly the pages that lie
      wholly in memory and meet no kernel, application, device tree or page map byte. The free lists are the greedy pieces
      of the available ranges, pushed in ascending order and none merged: these pieces already are the canonical blocks. */
  method MemInit(boot: Boot, ram: array<Byte>)
    returns (heap: Option<SlabAllocator>, at: nat, ghost ranges: seq<(nat, nat)>)
    requires boot.Sane() && ram.Length == boot.Pages() * PAGE_SIZE
    ensures heap.None? <==> forall a :: !boot.MapFits(a)
    ensures heap.Some? ==> boot.MapFits(at) && forall a :: a < at ==> !boot.MapFits(a)
    ensures heap.Some? ==> heap.value.Valid() && heap.value.slabs == map[] && heap.value.large == map[]
    ensures heap.Some? ==> forall p: nat :: p in heap.value.pages.free <==> boot.PageUsable(at, p)
    ensures heap.Some? ==> forall p: nat :: p in heap.value.pages.free <==>
              && 0x4000_0000 <= p * 0x1000 && (p + 1) * 0x1000 <= 0x4000_0000 + boot.ramSize && boot.kernelEnd <= p * 0x1000
              && ((p + 1) * 0x1000 <= 0x4100_0000 || 0x4106_0000 <= p * 0x1000)
              && (0x4000_0000 <= boot.fdt < 0x4000_0000 + boot.ramSize && boot.fdt % 8 == 0 && boot.magic == 0xd00d_feed ==>
                    boot.fdtSize == 0 || (p + 1) * 0x1000 <= boot.fdt || boot.fdt + boot.fdtSize <= p * 0x1000)
              && ((p + 1) * 0x1000 <= at || at + boot.ramSize / 0x1000 * 48 <= p * 0x1000)
    ensures heap.Some? ==> heap.value.owned == heap.value.pages.free
    ensures heap.Some? ==> boot.AvailableRanges(at, ranges)
    ensures heap.Some? ==> SameFreeLists(PushAll(EmptyFreeLists(), boot.Pieces(ranges)), heap.value.pages.pool.lists)
    ensures heap.Some? ==> forall p: nat, k: nat :: k < MAX_ORDER ==>
              (BuddyBlocks.Canonical(heap.value.pages.free, p, k) <==> (p, k) in boot.Pieces(ranges))
    ensures heap.Some? ==> heap.value.ram == ram && fresh(heap.value) && fresh(heap.value.pages) &&
                           fresh(heap.value.pages.pool) && fresh(heap.value.pages.memMap)
  {
    hide Boot.MapFits, Boot.PageUsable, Boot.Usable, BootReserved, FdtPresent, FreePagesAre, PushAll, SameFreeLists, Covers,
         Regions.Canonical, Bounded, TotalSize, SlabAllocator.Valid, Fit, LeastFit, NoWrap, Walked, SeedPieces, SafeToSeed,
         Boot.AvailableRanges, BuddyBlocks.Canonical;
    var early := new EarlyMemory();
    var ok := ReserveBoot(early, boot.ramSize, boot.kernelEnd, boot.fdt, boot.magic, boot.fdtSize);
    ghost var mem, res := early.Mem(), early.Res();
    var pages := boot.ramSize / PAGE_SIZE;
    BootMemory(boot, mem);
    assert pages * PAGE_STRUCT_SIZE == boot.MapSize();
    at := AllocMap(early, pages * PAGE_STRUCT_SIZE);
    assert early.Mem() == mem;
    ReservedAsTold(boot, mem, res);
    MapPlaced(boot, mem, res, at);
    heap, ranges := None, [];
    if at != 0 {
      assert Va(PHYS_OFFSET / PAGE_SIZE + pages) < Pow256(WORD_SIZE) by { WordRange(); }
      NoWrapSafe(mem, early.Res(), PHYS_OFFSET / PAGE_SIZE, pages);
      var h;
      h, ranges := StartAllocators(early, pages, ram);
      heap := Some(h);
      FreePagesUsable(boot, mem, res, early.Res(), at, h.pages.free);
      RangesAvailable(boot, mem, res, early.Res(), at, ranges);
      SeedCanonical(h, boot.Pieces(ranges));
      forall p: nat
        ensures boot.PageUsable(at, p) <==>
                && 0x4000_0000 <= p * 0x1000 && (p + 1) * 0x1000 <= 0x4000_0000 + boot.ramSize && boot.kernelEnd <= p * 0x1000
                && ((p + 1) * 0x1000 <= 0x4100_0000 || 0x4106_0000 <= p * 0x1000)
                && (0x4000_0000 <= boot.fdt < 0x4000_0000 + boot.ramSize && boot.fdt % 8 == 0 && boot.magic == 0xd00d_feed ==>
                      boot.fdtSize == 0 || (p + 1) * 0x1000 <= boot.fdt || boot.fdt + boot.fdtSize <= p * 0x1000)
                && ((p + 1) * 0x1000 <= at || at + boot.ramSize / 0x1000 * 48 <= p * 0x1000)
      {
        UsablePage(boot, at, p);
      }
    }
  }

  /** Which addresses mem_init leaves for use: memory at or above the end of the kernel, outside the application slots, and
      outside the device tree if one is found. */
  lemma UsableAddress(boot: Boot, x: int)
    requires boot.Sane()
    ensures boot.Usable(x) <==>
            && boot.kernelEnd <= x < 0x4000_0000 + boot.ramSize && !(0x4100_0000 <= x < 0x4106_0000)
            && !(0x4000_0000 <= boot.fdt < 0x4000_0000 + boot.ramSize && boot.fdt % 8 == 0 && boot.magic == 0xd00d_feed &&
                 boot.fdt <= x < boot.fdt + boot.fdtSize)
  {
  }

  /** An extent of usable addresses meets none of the reserved extents. */
  lemma UsableExtent(boot: Boot, lo: nat, hi: nat)
    requires boot.Sane() && lo < hi
    ensures (forall x :: lo <= x < hi ==> boot.Usable(x)) <==>
            && boot.kernelEnd <= lo && hi <= 0x4000_0000 + boot.ramSize && (hi <= 0x4100_0000 || 0x4106_0000 <= lo)
            && (0x4000_0000 <= boot.fdt < 0x4000_0000 + boot.ramSize && boot.fdt % 8 == 0 && boot.magic == 0xd00d_feed ==>
                  boot.fdtSize == 0 || hi <= boot.fdt || boot.fdt + boot.fdtSize <= lo)
  {
    forall x
      ensures boot.Usable(x) <==>
              && boot.kernelEnd <= x < 0x4000_0000 + boot.ramSize && !(0x4100_0000 <= x < 0x4106_0000)
              && !(0x4000_0000 <= boot.fdt < 0x4000_0000 + boot.ramSize && boot.fdt % 8 == 0 && boot.magic == 0xd00d_feed &&
                   boot.fdt <= x < boot.fdt + boot.fdtSize)
    {
      UsableAddress(boot, x);
    }
    hide Boot.Usable;
    if forall x :: lo <= x < hi ==> boot.Usable(x) {
      assert boot.Usable(lo) && boot.Usable(hi - 1);
      assert lo <= 0x4100_0000 < hi ==> boot.Usable(0x4100_0000);
      assert lo <= boot.fdt < hi ==> boot.Usable(boot.fdt);
    }
  }

  /** A page is usable exactly when it lies in memory above the kernel and meets no application slot, no device tree and no
      byte of the page map. */
  lemma UsablePage(boot: Boot, at: nat, p: nat)
    requires boot.Sane()
    ensures boot.PageUsable(at, p) <==>
            && 0x4000_0000 <= p * 0x1000 && (p + 1) * 0x1000 <= 0x4000_0000 + boot.ramSize && boot.kernelEnd <= p * 0x1000
            && ((p + 1) * 0x1000 <= 0x4100_0000 || 0x4106_0000 <= p * 0x1000)
            && (0x4000_0000 <= boot.fdt < 0x4000_0000 + boot.ramSize && boot.fdt % 8 == 0 && boot.magic == 0xd00d_feed ==>
                  boot.fdtSize == 0 || (p + 1) * 0x1000 <= boot.fdt || boot.fdt + boot.fdtSize <= p * 0x1000)
            && ((p + 1) * 0x1000 <= at || at + boot.ramSize / 0x1000 * 48 <= p * 0x1000)
  {
    UsableExtent(boot, p * 0x1000, (p + 1) * 0x1000);
    UsableAndClear(boot, at, p);
    hide Boot.Usable, Boot.PageUsable, Boot.MapSize;
  }

  lemma UsableAndClear(boot: Boot, at: nat, p: nat)
    requires boot.Sane()
    ensures boot.PageUsable(at, p) <==>
            && (forall x :: p * 0x1000 <= x < (p + 1) * 0x1000 ==> boot.Usable(x))
            && ((p + 1) * 0x1000 <= at || at + boot.ramSize / 0x1000 * 48 <= p * 0x1000)
  {
    var lo, hi, size := p * 0x1000, (p + 1) * 0x1000, boot.ramSize / 0x1000 * 48;
    assert boot.MapSize() == size > 0;
    hide Boot.Usable;
    if boot.PageUsable(at, p) {
      forall x | lo <= x < hi
        ensures boot.Usable(x)
      {
        assert boot.Available(at, x);
      }
      assert boot.Available(at, lo);
      assert lo <= at < hi ==> boot.Available(at, at);
    } else if forall x :: lo <= x < hi ==> boot.Usable(x) {
      var x :| lo <= x < hi && !boot.Available(at, x);
      assert boot.Usable(x);
    }
  }

  /** The page map fits exactly at 8-byte aligned addresses whose extent is usable. */
  lemma MapFitsAt(boot: Boot, a: nat)
    requires boot.Sane()
    ensures var hi := a + boot.ramSize / 0x1000 * 48;
            boot.MapFits(a) <==>
            && a % 8 == 0 && boot.kernelEnd <= a && hi <= 0x4000_0000 + boot.ramSize && (hi <= 0x4100_0000 || 0x4106_0000 <= a)
            && (0x4000_0000 <= boot.fdt < 0x4000_0000 + boot.ramSize && boot.fdt % 8 == 0 && boot.magic == 0xd00d_feed ==>
                  boot.fdtSize == 0 || hi <= boot.fdt || boot.fdt + boot.fdtSize <= a)
  {
    assert boot.MapSize() == boot.ramSize / 0x1000 * 48 && boot.MapSize() > 0;
    UsableExtent(boot, a, a + boot.MapSize());
    hide Boot.Usable;
  }

  /** What was pushed on empty lists and never merged is the canonical decomposition. */
  lemma SeedCanonical(heap: SlabAllocator, pieces: seq<(nat, nat)>)
    requires heap.Valid() && SameFreeLists(PushAll(EmptyFreeLists(), pieces), heap.pages.pool.lists)
    ensures forall p: nat, k: nat :: k < MAX_ORDER ==>
              (BuddyBlocks.Canonical(heap.pages.free, p, k) <==> (p, k) in pieces)
  {
    var lists, seeded := heap.pages.pool.lists, PushAll(EmptyFreeLists(), pieces);
    assert ListsCanonical(lists, heap.pages.free);
    hide BuddyBlocks.Canonical, PushAll, Heap.Consistent, PageAllocator.Core;
    forall p: nat, k: nat | k < MAX_ORDER
      ensures BuddyBlocks.Canonical(heap.pages.free, p, k) <==> (p, k) in pieces
    {
      assert Listed(lists, p, k) <==> BuddyBlocks.Canonical(heap.pages.free, p, k);
      PushAllHeads(EmptyFreeLists(), pieces);
      PushAllListed(EmptyFreeLists(), pieces, p, k);
      assert FreeArea(k) in seeded;
    }
  }

  /** The walk over free memory is the walk over the available ranges. */
  lemma RangesAvailable(boot: Boot, mem: seq<Region>, res: seq<Region>, res': seq<Region>, at: nat, ranges: seq<(nat, nat)>)
    requires boot.Sane() && ReservedIs(boot, mem, res) && Walked(mem, res', ranges, UINTPTR_MAX)
    requires forall x :: Covers(res', x) <==> Covers(res, x) || at <= x < at + boot.MapSize()
    ensures boot.AvailableRanges(at, ranges)
  {
    forall x
      ensures Free(mem, res', x) <==> boot.Available(at, x)
      ensures boot.Available(at, x) ==> x < UINTPTR_MAX
    {
      FreeIsUsable(boot, mem, res, res', at, x);
    }
    hide Free, Boot.Available, ReservedIs, Covers, InRanges;
    forall i | 0 <= i < |ranges|
      ensures boot.MaximalAvailable(at, ranges[i].0, ranges[i].1)
    {
      assert MaximalFree(mem, res', ranges[i].0, ranges[i].1);
    }
  }

  lemma BootMemory(boot: Boot, mem: seq<Region>)
    requires boot.Sane() && mem == [Region(PHYS_OFFSET, boot.ramSize)]
    ensures forall x :: Covers(mem, x) <==> PHYS_OFFSET <= x < PHYS_OFFSET + boot.ramSize
    ensures NoWrap(mem, PAGE_STRUCT_ALIGN) && NoWrap(mem, PAGE_SIZE)
  {
    forall x
      ensures Covers(mem, x) <==> PHYS_OFFSET <= x < PHYS_OFFSET + boot.ramSize
    {
      CoversOne(mem[0], x);
    }
  }

  /** Free for the early allocator means usable. */
  ghost predicate ReservedIs(boot: Boot, mem: seq<Region>, res: seq<Region>) {
    && (forall x :: Covers(mem, x) <==> PHYS_OFFSET <= x < PHYS_OFFSET + boot.ramSize)
    && (forall x :: Covers(res, x) <==>
          BootReserved(boot.kernelEnd, FdtPresent(boot.ramSize, boot.fdt, boot.magic), boot.fdt, boot.fdtSize, x))
  }

  lemma ReservedAsTold(boot: Boot, mem: seq<Region>, res: seq<Region>)
    requires forall x :: Covers(mem, x) <==> PHYS_OFFSET <= x < PHYS_OFFSET + boot.ramSize
    requires forall x :: Covers(res, x) <==>
               || 0x4000_0000 <= x < boot.kernelEnd
               || 0x4100_0000 <= x < 0x4106_0000
               || (0x4000_0000 <= boot.fdt < 0x4000_0000 + boot.ramSize && boot.fdt % 8 == 0 && boot.magic == 0xd00d_feed &&
                   boot.fdt <= x < boot.fdt + boot.fdtSize)
    ensures ReservedIs(boot, mem, res)
  {
    hide Covers;
  }

  lemma FitIsMapFits(boot: Boot, mem: seq<Region>, res: seq<Region>, a: int)
    requires ReservedIs(boot, mem, res)
    ensures Fit(mem, res, boot.MapSize(), PAGE_STRUCT_ALIGN, a) <==> boot.MapFits(a)
  {
    hide BootReserved, Covers;
    assert forall x :: Free(mem, res, x) <==> boot.Usable(x);
  }

  lemma MapPlaced(boot: Boot, mem: seq<Region>, res: seq<Region>, at: nat)
    requires ReservedIs(boot, mem, res)
    requires at == 0 <==> forall a :: !Fit(mem, res, boot.MapSize(), PAGE_STRUCT_ALIGN, a)
    requires at != 0 ==> LeastFit(mem, res, boot.MapSize(), PAGE_STRUCT_ALIGN, at)
    ensures at == 0 <==> forall a :: !boot.MapFits(a)
    ensures at != 0 ==> boot.MapFits(at) && forall a :: a < at ==> !boot.MapFits(a)
  {
    hide Fit, Boot.MapFits, ReservedIs;
    forall a
      ensures Fit(mem, res, boot.MapSize(), PAGE_STRUCT_ALIGN, a) <==> boot.MapFits(a)
    {
      FitIsMapFits(boot, mem, res, a);
    }
  }

  lemma FreePagesUsable(boot: Boot, mem: seq<Region>, res: seq<Region>, res': seq<Region>, at: nat, free: set<nat>)
    requires boot.Sane() && ReservedIs(boot, mem, res) && FreePagesAre(free, boot.Pages(), mem, res')
    requires forall x :: Covers(res', x) <==> Covers(res, x) || at <= x < at + boot.MapSize()
    ensures forall p: nat :: p in free <==> boot.PageUsable(at, p)
  {
    forall p: nat
      ensures p in free <==> boot.PageUsable(at, p)
    {
      OnePageUsable(boot, mem, res, res', at, p);
      hide ReservedIs, PageFree, Covers;
      if boot.PageUsable(at, p) { PageInMemory(boot, at, p); }
    }
  }

  lemma FreeIsUsable(boot: Boot, mem: seq<Region>, res: seq<Region>, res': seq<Region>, at: nat, x: int)
    requires ReservedIs(boot, mem, res)
    requires forall x :: Covers(res', x) <==> Covers(res, x) || at <= x < at + boot.MapSize()
    ensures Free(mem, res', x) <==> boot.Available(at, x)
  {
    hide BootReserved, Covers;
  }

  lemma OnePageUsable(boot: Boot, mem: seq<Region>, res: seq<Region>, res': seq<Region>, at: nat, p: nat)
    requires ReservedIs(boot, mem, res)
    requires forall x :: Covers(res', x) <==> Covers(res, x) || at <= x < at + boot.MapSize()
    ensures PageFree(mem, res', p) <==> boot.PageUsable(at, p)
  {
    hide Free, Boot.Available, ReservedIs, Covers;
    forall x
      ensures Free(mem, res', x) <==> boot.Available(at, x)
    {
      FreeIsUsable(boot, mem, res, res', at, x);
    }
  }

  /** A usable page lies in memory, so it is managed. */
  lemma PageInMemory(boot: Boot, at: nat, p: nat)
    requires boot.Sane() && boot.PageUsable(at, p)
    ensures PHYS_OFFSET / PAGE_SIZE <= p < PHYS_OFFSET / PAGE_SIZE + boot.Pages()
  {
    var first, last := p * PAGE_SIZE, (p + 1) * PAGE_SIZE - 1;
    assert boot.Available(at, first) && boot.Available(at, last);
  }
}
