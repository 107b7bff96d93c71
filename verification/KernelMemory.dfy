/** Boot and allocation together (mm/mmu.c, mm/init.c, mm/slab.c): where kernel objects lie and how they are mapped. */
module KernelMemory {
  import opened Machine
  import opened BuddyBlocks
  import opened Descriptors
  import opened RadixTree
  import opened PageTables
  import opened Mappings
  import opened AddressSpace
  import opened Words
  import opened PageAlloc
  import opened SlabHeap
  import opened KmallocRuns
  import opened MemInit

  /** The pages of an object are consecutive. */
  lemma PageOfByte(h: Heap, o: Object, v: nat)
    requires h.Consistent({}) && h.IsLive(o) && h.Start(o) <= v < h.Start(o) + h.Length(o)
    ensures v >= VA_OFFSET && (v - VA_OFFSET) / PAGE_SIZE in h.owned
  {
    LiveInPages(h, {}, o);
    var n := |PagesOf(h, o)|;
    PagesCount(h, o);
    hide Heap.Consistent, Heap.IsLive, Heap.Start, Heap.Length;
    var p := (v - VA_OFFSET) / PAGE_SIZE;
    assert o.pfn <= p < o.pfn + n;
    RunHas(o.pfn, n, p);
  }

  lemma PagesCount(h: Heap, o: Object)
    requires h.IsLive(o)
    ensures PagesOf(h, o) == BuddyBlocks.Run(o.pfn, |PagesOf(h, o)|)
  {
    match o {
      case Small(p, s) => assert BuddyBlocks.Run(p, 1) == {p};
      case Big(p) => RunSize(p, PowersOfTwo.Pow2(h.large[p]));
    }
  }

  lemma RunHas(p: nat, n: nat, x: nat)
    requires p <= x < p + n
    ensures x in BuddyBlocks.Run(p, n)
  {
  }

  /** Every byte of a live object lies in memory that belongs to nothing else. */
  lemma LiveAvailable(h: Heap, boot: Boot, at: nat, o: Object, v: nat)
    requires h.Consistent({}) && h.IsLive(o) && h.Start(o) <= v < h.Start(o) + h.Length(o)
    requires forall p: nat :: p in h.owned ==> boot.PageUsable(at, p)
    ensures v >= VA_OFFSET && boot.Available(at, v - VA_OFFSET)
  {
    hide Heap.Consistent, Heap.IsLive, Heap.Start, Heap.Length, Boot.Available;
    PageOfByte(h, o, v);
    ByteInPage(boot, at, v - VA_OFFSET);
  }

  lemma ByteInPage(boot: Boot, at: nat, x: nat)
    requires boot.PageUsable(at, x / PAGE_SIZE)
    ensures boot.Available(at, x)
  {
    hide Boot.Available;
    assert x / PAGE_SIZE * PAGE_SIZE <= x < (x / PAGE_SIZE + 1) * PAGE_SIZE;
  }

  /** The kernel image described to mem_init holds the segments described to mmu_init. */
  ghost predicate Agree(boot: Boot, l: Layout) {
    boot.Sane() && l.Sane() && boot.ramSize == l.ramSize && l.erodata <= boot.kernelEnd
  }

  /** Available memory is mapped at its kernel address, for the kernel to read and write but not to execute, and is out of
      reach of applications there. */
  lemma AvailableMapped(boot: Boot, l: Layout, at: nat, v: nat)
    requires Agree(boot, l) && v >= VA_OFFSET && boot.Available(at, v - VA_OFFSET)
    ensures Space(l, SWAPPER, v) == Translation.Page(v - VA_OFFSET, PAGE_KERNEL)
    ensures WritableEl1(PAGE_KERNEL) && !ExecutableEl1(PAGE_KERNEL)
    ensures !ReadableEl0(PAGE_KERNEL) && !WritableEl0(PAGE_KERNEL) && !ExecutableEl0(PAGE_KERNEL)
  {
  }

  /** Byte `v` is available memory, mapped for the kernel's data. */
  ghost predicate WellPlaced(boot: Boot, at: nat, tables: Radix, v: nat) {
    && v >= VA_OFFSET && boot.Available(at, v - VA_OFFSET)
    && Translate(tables, SWAPPER, v) == Translation.Page(v - VA_OFFSET, PAGE_KERNEL)
  }

  ghost predicate Extent(held: seq<Handle>, i: int, v: nat) {
    0 <= i < |held| && held[i].addr <= v < held[i].addr + held[i].size
  }

  lemma HeldAvailable(h: Heap, boot: Boot, at: nat, held: seq<Handle>, objects: seq<Object>, i: nat, v: nat)
    requires h.Consistent({}) && Holding(h, held, objects) && Extent(held, i, v)
    requires forall p: nat :: p in h.owned ==> boot.PageUsable(at, p)
    ensures v >= VA_OFFSET && boot.Available(at, v - VA_OFFSET)
  {
    hide Heap.Consistent, Boot.PageUsable, Boot.Available, Heap.IsLive, Heap.Start, Heap.Length;
    assert Names(h, held[i], objects[i]);
    LiveAvailable(h, boot, at, objects[i], v);
  }

  lemma HeldApart(h: Heap, held: seq<Handle>, objects: seq<Object>, i: nat, j: nat, v: nat)
    requires h.Consistent({}) && Holding(h, held, objects) && Extent(held, i, v) && Extent(held, j, v)
    ensures i == j
  {
    hide Heap.Consistent, Heap.IsLive, Heap.Start, Heap.Length;
    if i != j {
      assert Names(h, held[i], objects[i]) && Names(h, held[j], objects[j]);
      assert objects[i] != objects[j];
      LiveDisjoint(h, {}, objects[i], objects[j]);
    }
  }

  /** Boot, and then any run of allocations, releases and writes: every byte the kernel holds is memory clear of the kernel
      image, the application slots, the device tree and the page map, belongs to one holder only, and is mapped readable
      and writable but not executable at its address. */
  method BootAndRun(t: Tables, l: Layout, boot: Boot, ram: array<Byte>, ops: seq<Op>)
    returns (booted: bool, at: nat, held: seq<Handle>, ghost states: seq<RunState>)
    requires Agree(boot, l) && ram.Length == boot.Pages() * PAGE_SIZE
    requires t.Valid() && t.where' == map[] && t.count == l.PoolSize()
    modifies t`used, t`where', t.roots, t.pool, ram
    ensures booted <==> exists a :: boot.MapFits(a)
    ensures booted ==> Trace(states, ops) && states[0].held == [] && states[|ops|].held == held
    ensures booted ==> states[0].heap.slabs == map[] && states[0].heap.large == map[]
    ensures booted ==> forall p: nat :: p in states[0].heap.free <==> boot.PageUsable(at, p)
    ensures booted ==> forall i, v: nat :: Extent(held, i, v) ==> WellPlaced(boot, at, t.R(), v)
    ensures booted ==> forall i, j, v: nat :: Extent(held, i, v) && Extent(held, j, v) ==> i == j
  {
    hide Boot.MapFits, Boot.PageUsable, Boot.AvailableRanges, Boot.Available, Heap.Consistent, Translate, Space, Permitted,
         Holding, Radix.Tree, SameFreeLists, PushAll, Boot.Pieces, BuddyBlocks.Canonical, Extent, WritableEl1, ExecutableEl1,
         ReadableEl0, WritableEl0, ExecutableEl0, Trace;
    MmuInit(t, l);
    ghost var tables := t.R();
    ghost var ranges, objects;
    var heap;
    heap, at, ranges := MemInit.MemInit(boot, ram);
    booted, held, states := heap.Some?, [], [];
    if heap.Some? {
      NothingLive(heap.value.H());
      held, objects, states := KmallocRuns.Run(heap.value, ops);
      ghost var h := heap.value.H();
      forall i, v: nat | Extent(held, i, v)
        ensures v >= VA_OFFSET && boot.Available(at, v - VA_OFFSET)
      {
        ExtentIndex(held, i, v);
        HeldAvailable(h, boot, at, held, objects, i, v);
      }
      forall i, j, v: nat | Extent(held, i, v) && Extent(held, j, v)
        ensures i == j
      {
        ExtentIndex(held, i, v);
        ExtentIndex(held, j, v);
        HeldApart(h, held, objects, i, j, v);
      }
    }
    assert t.R() == tables;
    forall i, v: nat | booted && Extent(held, i, v)
      ensures WellPlaced(boot, at, t.R(), v)
    {
      AvailableMapped(boot, l, at, v);
    }
  }

  lemma ExtentIndex(held: seq<Handle>, i: int, v: nat)
    requires Extent(held, i, v)
    ensures 0 <= i < |held|
  {
  }

  lemma NothingLive(h: Heap)
    requires h.slabs == map[] && h.large == map[]
    ensures forall o :: !h.IsLive(o)
  {
  }
}
