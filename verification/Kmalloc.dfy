/** The kmalloc allocator as an object: descriptors, object storage and lists updated in place (mm/slab.c). */
module Kmalloc {
  import opened Machine
  import opened Options
  import opened PowersOfTwo
  import opened BuddyBlocks
  import opened IntrusiveList
  import opened Words
  import opened ByteStrings
  import opened PageAlloc
  import opened SlabPages
  import opened SlabHeap

  /** A size-class cache; its partial list is the list headed by `Partial(index)`. */
  datatype Cache = Cache(size: nat, objects: nat)

  ghost predicate CachesReady(caches: seq<Cache>) {
    && |caches| == KMALLOC_CACHES
    && forall c: nat :: c < KMALLOC_CACHES ==> caches[c] == Cache(ObjSize(c), Objects(c))
  }

  /** Bytes stored within one page change that page and no other. */
  lemma OnlyThatPage(was: seq<Byte>, now: seq<Byte>, base: nat, n: nat, p: nat, off: nat, t: seq<Byte>)
    requires |was| == n * PAGE_SIZE && base <= p < base + n && off + |t| <= PAGE_SIZE
    requires RamOff(base, p) + PAGE_SIZE <= |was| && now == Overlay(was, RamOff(base, p) + off, t)
    ensures |now| == |was| && PageBytes(now, base, p) == Overlay(PageBytes(was, base, p), off, t)
    ensures RamOnlyPage(was, now, base, n, p)
  {
    hide Overlay, PageBytes;
    PageOverlay(was, base, p, off, t, p);
    forall q: nat | base <= q < base + n && q != p
      ensures PageBytes(now, base, q) == PageBytes(was, base, q)
    {
      PageOverlay(was, base, p, off, t, q);
    }
  }

  class SlabAllocator {
    const pages: PageAllocator
    const ram: array<Byte>
    var caches: seq<Cache>
    ghost var slabs: map<nat, Slab>
    ghost var large: map<nat, nat>
    ghost var owned: set<nat>

    /** The whole state as a value. */
    ghost function H(): Heap
      reads this`slabs, this`large, this`owned, pages`memMap, pages`basePfn, pages`free, pages.pool, pages.memMap, ram
    {
      Heap(pages.pool.lists, pages.memMap[..], ram[..], pages.basePfn, pages.free, slabs, large, owned)
    }

    ghost predicate State(idle: set<nat>)
      reads this, pages, pages.pool, pages.memMap, ram
    {
      pages.Valid() && CachesReady(caches) && H().Consistent(idle)
    }

    ghost predicate Valid()
      reads this, pages, pages.pool, pages.memMap, ram
    {
      State({})
    }

    /** kmem_cache_init over an allocator none of whose pages is a slab yet. */
    constructor (pages': PageAllocator, ram': array<Byte>)
      requires pages'.Valid() && ram'.Length == pages'.memMap.Length * PAGE_SIZE
      requires Va(pages'.basePfn + pages'.memMap.Length) < Pow256(WORD_SIZE)
      requires forall h :: h in pages'.pool.lists ==> h.FreeArea?
      requires forall i :: 0 <= i < pages'.memMap.Length ==> !pages'.memMap[i].slab
      modifies pages'.pool
      ensures Valid() && pages == pages' && ram == ram'
      ensures slabs == map[] && large == map[] && owned == pages.free
      ensures SameFreeLists(old(pages'.pool.lists), pages.pool.lists)
    {
      pages, ram := pages', ram';
      slabs, large, owned := map[], map[], pages'.free;
      caches := [];
      new;
      hide PageAllocator.Valid, Valid, SameFreeLists, Va, Pow256;
      InitAll();
    }

    /** All the caches, once the fields are set. */
    method InitAll()
      requires pages.Valid() && caches == [] && ram.Length == pages.memMap.Length * PAGE_SIZE
      requires Va(pages.basePfn + pages.memMap.Length) < Pow256(WORD_SIZE)
      requires slabs == map[] && large == map[] && owned == pages.free
      requires forall h :: h in pages.pool.lists ==> h.FreeArea?
      requires forall i :: 0 <= i < pages.memMap.Length ==> !pages.memMap[i].slab
      modifies this`caches, pages.pool
      ensures Valid() && SameFreeLists(old(pages.pool.lists), pages.pool.lists)
    {
      hide PageAllocator.Valid, Valid, Initialized, PartialsFrom, SameFreeLists, Va, Pow256;
      NoPartials();
      NoCaches();
      InitCaches();
      InitDone();
    }

    /** The loop of kmem_cache_init. */
    method InitCaches()
      requires Initialized(0)
      modifies this`caches, pages.pool
      ensures Initialized(KMALLOC_CACHES) && SameFreeLists(old(pages.pool.lists), pages.pool.lists)
    {
      hide Initialized;
      for index := 0 to KMALLOC_CACHES
        invariant Initialized(index) && SameFreeLists(old(pages.pool.lists), pages.pool.lists)
      {
        InitCache(index);
      }
    }

    /** The first `n` caches are set up. */
    ghost predicate Initialized(n: nat)
      reads this`caches, pages, pages.pool, pages.memMap
    {
      pages.Valid() && CachesFrom(caches, n) && PartialsFrom(pages.pool.lists, n)
    }

    lemma NoCaches()
      requires pages.Valid() && caches == [] && PartialsFrom(pages.pool.lists, 0)
      ensures Initialized(0)
    {
    }

    method InitCache(index: nat)
      requires Initialized(index)
      modifies this`caches, pages.pool
      ensures Initialized(index + 1) && SameFreeLists(old(pages.pool.lists), pages.pool.lists)
    {
      hide PageAllocator.Valid, PartialsFrom, ObjSize, Objects, ObjectsOf, CachesFrom;
      PartialsStep(pages.pool.lists, index);
      var size := KMALLOC_MIN_SIZE * Pow2(index);
      CachesStep(caches, index);
      caches := caches + [Cache(size, ObjectsOf(size))];
      pages.InitClientList(Partial(index));
    }

    lemma InitDone()
      requires Initialized(KMALLOC_CACHES) && ram.Length == pages.memMap.Length * PAGE_SIZE
      requires Va(pages.basePfn + pages.memMap.Length) < Pow256(WORD_SIZE)
      requires slabs == map[] && large == map[] && owned == pages.free
      requires forall i :: 0 <= i < pages.memMap.Length ==> !pages.memMap[i].slab
      ensures Valid()
    {
      CachesDone(caches);
      EmptyHeap(H());
      hide *;
    }

    /** Offset in `ram` of a kernel address. */
    function RamIndex(addr: nat): int
      reads pages`basePfn
    {
      addr - VA_OFFSET - pages.basePfn * PAGE_SIZE
    }

    /** get_freepointer */
    method GetFreepointer(addr: nat) returns (fp: nat)
      requires 0 <= RamIndex(addr) && RamIndex(addr) + WORD_SIZE <= ram.Length
      ensures fp == WordAt(ram[..], RamIndex(addr))
    {
      fp := LoadWord(ram, RamIndex(addr));
    }

    /** set_freepointer */
    method SetFreepointer(addr: nat, fp: nat)
      requires 0 <= RamIndex(addr) && RamIndex(addr) + WORD_SIZE <= ram.Length
      modifies ram
      ensures ram[..] == Overlay(old(ram[..]), RamIndex(addr), ToBytes(fp, WORD_SIZE))
    {
      StoreWord(ram, RamIndex(addr), fp);
    }

    /** Page `p` is managed and its storage lies in `ram`. */
    ghost predicate InRam(p: nat)
      reads pages`basePfn, pages`memMap
    {
      && pages.basePfn <= p < pages.basePfn + pages.memMap.Length
      && ram.Length == pages.memMap.Length * PAGE_SIZE
      && Va(pages.basePfn + pages.memMap.Length) < Pow256(WORD_SIZE)
    }

    ghost function BytesOf(p: nat): seq<Byte>
      requires InRam(p)
      reads pages`basePfn, pages`memMap, ram
      ensures |BytesOf(p)| == PAGE_SIZE
    {
      PageBytes(ram[..], pages.basePfn, p)
    }

    /** Storage differs from `was` in page `p` alone. */
    ghost predicate StoredOnly(was: seq<Byte>, p: nat)
      reads pages`basePfn, pages`memMap, ram
    {
      RamOnlyPage(was, ram[..], pages.basePfn, pages.memMap.Length, p)
    }

    /** Link object `slot` of page `p`. */
    method LinkSlot(addr: nat, fp: nat, ghost p: nat, ghost c: nat, ghost slot: nat)
      requires InRam(p) && c < KMALLOC_CACHES && slot < Objects(c) && addr == Va(p) + Off(c, slot)
      modifies ram
      ensures Off(c, slot) + WORD_SIZE <= PAGE_SIZE
      ensures BytesOf(p) == Overlay(old(BytesOf(p)), Off(c, slot), ToBytes(fp, WORD_SIZE))
      ensures StoredOnly(old(ram[..]), p)
    {
      SlotInRam(addr, p, c, slot);
      hide Off, Overlay, ToBytes, PageBytes, RamIndex;
      ghost var was := ram[..];
      SetFreepointer(addr, fp);
      OnlyThatPage(was, ram[..], pages.basePfn, pages.memMap.Length, p, Off(c, slot), ToBytes(fp, WORD_SIZE));
    }

    lemma SlotInRam(addr: nat, p: nat, c: nat, slot: nat)
      requires InRam(p) && c < KMALLOC_CACHES && slot < Objects(c) && addr == Va(p) + Off(c, slot)
      ensures RamIndex(addr) == RamOff(pages.basePfn, p) + Off(c, slot) && RamIndex(addr) + WORD_SIZE <= ram.Length
      ensures Off(c, slot) + WORD_SIZE <= PAGE_SIZE
    {
      SlotBounds(c, slot);
      hide Off, Objects, ObjSize;
    }

    /** The first `k` objects of page `p` are chained and nothing else changed since `was`. */
    ghost predicate Carving(was: seq<Byte>, p: nat, c: nat, k: nat)
      reads pages`basePfn, pages`memMap, ram
    {
      && InRam(p) && c < KMALLOC_CACHES && k < Objects(c)
      && Carved(BytesOf(p), Va(p), c, k) && StoredOnly(was, p)
    }

    method CarveStep(p: nat, c: nat, last: nat, fp: nat, ghost was: seq<Byte>, ghost k: nat)
      requires Carving(was, p, c, k) && last == Va(p) + Off(c, k) && fp < Pow256(WORD_SIZE)
      modifies ram
      ensures Carving(was, p, c, k)
      ensures Off(c, k) + WORD_SIZE <= PAGE_SIZE && WordAt(BytesOf(p), Off(c, k)) == fp
    {
      hide Off, Objects, PageBytes, Overlay, WordAt, Carved, RamOnlyPage;
      CarveLink(BytesOf(p), Va(p), c, k, fp);
      LinkSlot(last, fp, p, c, k);
      RamOnlyPageTransitive(was, old(ram[..]), ram[..], pages.basePfn, pages.memMap.Length, p);
    }

    lemma CarveMore(was: seq<Byte>, p: nat, c: nat, k: nat)
      requires Carving(was, p, c, k) && k + 1 < Objects(c)
      requires Off(c, k) + WORD_SIZE <= PAGE_SIZE && WordAt(BytesOf(p), Off(c, k)) == Va(p) + Off(c, k + 1)
      ensures Carving(was, p, c, k + 1)
    {
      hide Off, Objects, WordAt, RamOnlyPage;
    }

    lemma CarveStart(p: nat, c: nat)
      requires InRam(p) && c < KMALLOC_CACHES
      ensures Carving(ram[..], p, c, 0)
    {
      CacheGeometry(c);
    }

    /** The bound of the carving loop lies beyond the page's start exactly when the page does not end at the end of the address
        space; there the bound would wrap to zero, and the loop would chain a single object. */
    lemma CarveBound(p: nat, c: nat)
      requires c < KMALLOC_CACHES && Va(p) + PAGE_SIZE <= WORD
      ensures Objects(c) * ObjSize(c) == PAGE_SIZE
      ensures Va(p) < (Va(p) + Objects(c) * ObjSize(c)) % WORD <==> Va(p) + PAGE_SIZE < WORD
      ensures Va(p) + PAGE_SIZE < WORD ==> (Va(p) + Objects(c) * ObjSize(c)) % WORD == Va(p) + PAGE_SIZE
    {
      CacheGeometry(c);
      hide Objects, ObjSize;
    }

    /** The carving loop of new_slab: chain the objects of page `p` in address order. */
    method Carve(p: nat, c: nat)
      requires InRam(p) && c < KMALLOC_CACHES && CachesReady(caches)
      modifies ram
      ensures Objects(c) >= 1 && Carving(old(ram[..]), p, c, Objects(c) - 1)
      ensures Off(c, Objects(c) - 1) + WORD_SIZE <= PAGE_SIZE && WordAt(BytesOf(p), Off(c, Objects(c) - 1)) == 0
    {
      CacheGeometry(c);
      CarveStart(p, c);
      var start := Va(p);
      var last := start;
      var obj := start + caches[c].size;
      ghost var k := 0;
      CarveBound(p, c);
      WordRange();
      var limit := (start + caches[c].objects * caches[c].size) % WORD;
      hide Objects, ObjSize, Carving, WordAt, PageBytes;
      while obj < limit
        invariant k < Objects(c) && last == start + Off(c, k) && obj == start + Off(c, k + 1)
        invariant Carving(old(ram[..]), p, c, k)
        decreases Objects(c) - k
      {
        SlotOrder(c, k);
        CarveStep(p, c, last, obj, old(ram[..]), k);
        CarveMore(old(ram[..]), p, c, k);
        last := obj;
        obj := obj + caches[c].size;
        k := k + 1;
      }
      SlotOrder(c, k);
      CarveStep(p, c, last, 0, old(ram[..]), k);
    }

    /** Pages that are not free gained no links in a call of the page allocator. */
    lemma BuddyLinks(before: Lists)
      requires pages.Valid() && OtherListsSame(before, pages.pool.lists)
      ensures NoNewLinks(before, pages.pool.lists, pages.free)
    {
      hide PageAllocator.Core, OtherListsSame, Unlinked;
      forall x: nat | x !in pages.free && Unlinked(before, Lru(x))
        ensures Unlinked(pages.pool.lists, Lru(x))
      {
        pages.StillUnlinked(before, x);
      }
    }

    /** Take a block from the page allocator; it belongs to no one yet. */
    method TakePages(order: nat) returns (page: Option<nat>)
      requires State({})
      modifies this`owned, pages`nrFree, pages`free, pages`freeCount, pages.pool, pages.memMap
      ensures State({})
      ensures page.None? <==> order >= MAX_ORDER || forall p: nat :: !FreeBlock(old(pages.free), p, order)
      ensures page.None? ==> H() == old(H())
      ensures page.Some? ==> Loose(H(), page.value, order) && pages.PfnValid(page.value) &&
                             !pages.memMap[page.value - pages.basePfn].buddy
      ensures page.Some? ==> owned == old(owned) - Block(page.value, order) &&
                             Block(page.value, order) <= old(pages.free) <= old(owned) &&
                             pages.free == old(pages.free) - Block(page.value, order)
    {
      hide PageAllocator.Core, PageAllocator.Valid, PageAllocator.Held, Heap.Consistent, OnlyBuddyChanged, OtherListsSame,
           FirstFit, Loose, FreeBlock, Block, NoNewLinks;
      ghost var h := H();
      page := pages.AllocPages(order);
      if page.Some? {
        ghost var p := page.value;
        owned := owned - Block(p, order);
        BuddyLinks(h.lists);
        TookLoose(h, p, order);
      }
    }

    /** The facts about a block just taken. */
    lemma TookLoose(h: Heap, p: nat, k: nat)
      requires pages.Valid() && CachesReady(caches) && pages.Held(p, k)
      requires h.Consistent({}) && FreeBlock(h.free, p, k) && H().free == h.free - Block(p, k)
      requires H().owned == h.owned - Block(p, k) && H().ram == h.ram && H().base == h.base
      requires H().slabs == h.slabs && H().large == h.large
      requires OnlyBuddyChanged(h.map', H().map', h.base, h.free) && OtherListsSame(h.lists, H().lists)
      requires NoNewLinks(h.lists, H().lists, H().free)
      ensures State({}) && Loose(H(), p, k) && pages.PfnValid(p) && !pages.memMap[p - pages.basePfn].buddy
      ensures Block(p, k) <= h.free <= h.owned
    {
      hide PageAllocator.Valid, CachesReady, Heap.Consistent, OnlyBuddyChanged, OtherListsSame, NoNewLinks, InBlocks, BuddyStep,
           Block;
      var g := H();
      assert h.free + g.free == h.free;
      BuddyStepOf(h, g, {}, {});
      TookConsistent(h, g, p, k, {});
      TookApart(h, p, k);
      NotBuddy(p, k);
    }

    lemma NotBuddy(p: nat, k: nat)
      requires pages.Valid() && pages.Held(p, k)
      ensures pages.PfnValid(p) && !pages.memMap[p - pages.basePfn].buddy
    {
      assert p in Block(p, k);
      assert Unlinked(pages.pool.lists, Lru(p));
    }

    /** Give a block that belongs to no one back to the page allocator. */
    method GivePages(page: nat, order: nat)
      requires State({}) && Loose(H(), page, order)
      modifies this`owned, pages`nrFree, pages`free, pages`freeCount, pages.pool, pages.memMap
      ensures State({})
      ensures pages.free == old(pages.free) + Block(page, order) && owned == old(owned) + Block(page, order)
    {
      hide PageAllocator.Core, Heap.Consistent, OnlyBuddyChanged, OtherListsSame, Block, BuddyFree, NoNewLinks;
      ghost var h := H();
      LooseHeld(page, order);
      pages.FreePages(page, order);
      owned := owned + Block(page, order);
      BuddyLinks(h.lists);
      GaveBack(h, page, order);
    }

    lemma LooseHeld(p: nat, k: nat)
      requires Loose(H(), p, k)
      ensures pages.Held(p, k)
    {
    }

    lemma GaveBack(h: Heap, p: nat, k: nat)
      requires h.Consistent({}) && Loose(h, p, k)
      requires H().free == h.free + Block(p, k) && H().owned == h.owned + Block(p, k)
      requires H().ram == h.ram && H().base == h.base && H().slabs == h.slabs && H().large == h.large
      requires OnlyBuddyChanged(h.map', H().map', h.base, H().free) && OtherListsSame(h.lists, H().lists)
      requires NoNewLinks(h.lists, H().lists, H().free)
      ensures H().Consistent({})
    {
      var g := H();
      assert h.free + g.free == g.free;
      BuddyStepOf(h, g, {}, Block(p, k));
      GaveConsistent(h, g, p, k, {});
    }

    /** new_slab: a page carved into free objects and put on the partial list. */
    method NewSlab(c: nat) returns (r: Option<nat>)
      requires State({}) && c < KMALLOC_CACHES
      modifies this`slabs, this`owned, pages`nrFree, pages`free, pages`freeCount, pages.pool, pages.memMap, ram
      ensures r.None? <==> old(pages.free) == {}
      ensures r.None? ==> H() == old(H()) && State({})
      ensures r.Some? ==> State({r.value}) && MadeSlab(old(H()), H(), r.value, c)
    {
      hide Heap.Consistent, Loose, Block, FreeBlock, PageAllocator.Valid, CachesReady, RamOnlyPage, AllSlots;
      NoFreePage(pages.free);
      r := TakePages(0);
      if r.None? {
        return;
      }
      SingleBlock(r.value);
      InstallSlab(r.value, c);
    }

    /** The part of new_slab after the page is in hand. */
    method InstallSlab(p: nat, c: nat)
      requires State({}) && c < KMALLOC_CACHES && Loose(H(), p, 0)
      requires pages.PfnValid(p) && !pages.memMap[p - pages.basePfn].buddy
      modifies this`slabs, this`owned, pages.pool, pages.memMap, ram
      ensures State({p}) && p !in old(slabs) && slabs == old(slabs)[p := Slab(c, AllSlots(c))]
      ensures owned == old(owned) + {p}
      ensures RamOnlyPage(old(ram[..]), ram[..], pages.basePfn, pages.memMap.Length, p)
    {
      hide Heap.Consistent, Loose, Carving, WordAt, Off, Objects, PageAllocator.Valid, RamOnlyPage, CachesReady, Unlinked,
           AllSlots;
      ghost var h := H();
      var i := p - pages.basePfn;
      LooseFacts(p, c);
      FillSlab(p, c);
      pages.LinkPage(p, Partial(c));
      slabs := slabs[p := Slab(c, AllSlots(c))];
      owned := owned + {p};
      SlabMade(h, p, c);
    }

    /** Descriptor and contents of a new slab. */
    method FillSlab(p: nat, c: nat)
      requires pages.Valid() && CachesReady(caches) && InRam(p) && c < KMALLOC_CACHES
      requires !pages.memMap[p - pages.basePfn].buddy
      modifies pages.memMap, ram
      ensures pages.Valid() && Objects(c) >= 1 && Carving(old(ram[..]), p, c, Objects(c) - 1)
      ensures Off(c, Objects(c) - 1) + WORD_SIZE <= PAGE_SIZE && WordAt(BytesOf(p), Off(c, Objects(c) - 1)) == 0
      ensures var page := old(pages.memMap[p - pages.basePfn]);
              pages.memMap[..] == old(pages.memMap[..])[p - pages.basePfn :=
                page.(cache := c, inuse := 0, slab := true, freelist := Va(p))]
    {
      hide PageAllocator.Valid, CachesReady, WordAt, Off, Objects, Carving;
      var i := p - pages.basePfn;
      pages.SetPage(p, pages.memMap[i].(cache := c, inuse := 0, slab := true));
      Carve(p, c);
      pages.SetPage(p, pages.memMap[i].(freelist := Va(p)));
    }

    lemma LooseFacts(p: nat, c: nat)
      requires State({}) && Loose(H(), p, 0) && c < KMALLOC_CACHES
      ensures InRam(p) && Unlinked(pages.pool.lists, Lru(p)) && p !in pages.free && Partial(c) in pages.pool.lists
    {
      assert p in Block(p, 0);
    }

    /** The state after a loose page became a slab. */
    lemma SlabMade(h: Heap, p: nat, c: nat)
      requires h.Consistent({}) && Loose(h, p, 0) && c < KMALLOC_CACHES && InRam(p)
      requires H().base == h.base && H().free == h.free && H().large == h.large && H().owned == h.owned + {p}
      requires H().slabs == h.slabs[p := Slab(c, AllSlots(c))]
      requires Partial(c) in h.lists && H().lists == h.lists[Partial(c) := [Lru(p)] + h.lists[Partial(c)]]
      requires |h.map'| == |H().map'| && !h.map'[p - h.base].buddy
      requires H().map' == h.map'[p - h.base := h.map'[p - h.base].(cache := c, inuse := 0, slab := true, freelist := Va(p))]
      requires Objects(c) >= 1 && Carving(h.ram, p, c, Objects(c) - 1)
      requires Off(c, Objects(c) - 1) + WORD_SIZE <= PAGE_SIZE && WordAt(BytesOf(p), Off(c, Objects(c) - 1)) == 0
      ensures H().Consistent({p})
      ensures p !in h.slabs && RamOnlyPage(h.ram, H().ram, h.base, |h.map'|, p)
    {
      hide SlabOk, Heap.SlabsStored, Heap.SlabFlags, Heap.LargeStored, Heap.Partition, PartialsOk, OnlyPageLinked, InBlocks,
           Unlinked, Off, WordAt, PageBytes, RamOnlyPage, Carved, Objects;
      var g, slab := H(), Slab(c, AllSlots(c));
      OwnPage(p, 0);
      hide Block;
      assert slab.chain != [];
      hide AllSlots;
      CarvedSlab(BytesOf(p), Va(p), c, g.map'[p - g.base]);
      NoFreeSlot(h.slabs, p);
      PartialAdd(h.lists, h.slabs, p, slab);
      LinkOnly(h.lists, Partial(c), p);
      SlabEdit(h, g, p, slab, {});
      assert {} + {p} == {p};
    }

    lemma NoFreeSlot(slabs: map<nat, Slab>, p: nat)
      requires p !in slabs
      ensures forall c: nat :: !HasFree(slabs, p, c)
    {
    }

    /** The part of slab_alloc after the slab is chosen: pop its first free object. */
    method TakeObject(p: nat, ghost idle: set<nat>) returns (addr: nat)
      requires State(idle) && idle <= {p} && p in slabs && slabs[p].chain != []
      modifies this`slabs, pages.pool, pages.memMap
      ensures State({})
      ensures slabs == old(slabs)[p := old(slabs[p]).(chain := old(slabs[p]).chain[1..])]
      ensures addr == Va(p) + Off(old(slabs[p]).cache, old(slabs[p]).chain[0])
    {
      hide Heap.Consistent, WordAt, Off, Objects, PageAllocator.Valid, CachesReady, SlabOk;
      ghost var h, slab := H(), slabs[p];
      var i := p - pages.basePfn;
      SlabFacts(p, idle);
      hide RamOff;
      var fp;
      addr, fp := PopFirst(p, Off(slab.cache, slab.chain[0]));
      if fp == 0 {
        pages.UnlinkPage(p, Partial(slab.cache));
      }
      slabs := slabs[p := slab.(chain := slab.chain[1..])];
      ObjectTaken(h, H(), p, idle);
    }

    /** Take the first object off the descriptor's list and count it. */
    method PopFirst(p: nat, ghost at: nat) returns (addr: nat, fp: nat)
      requires pages.Valid() && InRam(p) && at + WORD_SIZE <= PAGE_SIZE
      requires !pages.memMap[p - pages.basePfn].buddy && pages.memMap[p - pages.basePfn].freelist == Va(p) + at
      modifies pages.memMap
      ensures pages.Valid() && addr == Va(p) + at && fp == WordAt(ram[..], RamOff(pages.basePfn, p) + at)
      ensures var page := old(pages.memMap[p - pages.basePfn]);
              pages.memMap[..] == old(pages.memMap[..])[p - pages.basePfn := page.(freelist := fp, inuse := page.inuse + 1)]
    {
      hide PageAllocator.Valid, WordAt;
      var i := p - pages.basePfn;
      addr := pages.memMap[i].freelist;
      fp := GetFreepointer(addr);
      pages.SetPage(p, pages.memMap[i].(freelist := fp));
      pages.SetPage(p, pages.memMap[i].(inuse := pages.memMap[i].inuse + 1));
    }

    lemma SlabFacts(p: nat, idle: set<nat>)
      requires State(idle) && p in slabs && slabs[p].chain != []
      ensures InRam(p) && Separate(pages.pool.lists) && Offers(H(), p)
    {
      HeapOffers(H(), p, idle);
      pages.pool.ValidSeparate();
      hide *;
    }

    /** slab_alloc: an object of the first partial slab, or of a new slab if there is none. */
    method SlabAlloc(c: nat) returns (addr: nat, ghost o: Object)
      requires Valid() && c < KMALLOC_CACHES && Partial(c) in pages.pool.lists
      modifies this`slabs, this`owned, pages`nrFree, pages`free, pages`freeCount, pages.pool, pages.memMap, ram
      ensures Valid()
      ensures addr == 0 <==> old(pages.pool.lists)[Partial(c)] == [] && old(pages.free) == {}
      ensures addr == 0 ==> H() == old(H())
      ensures addr != 0 ==> Allocated(old(H()), H(), o) && H().Start(o) == addr
      ensures addr != 0 ==> o.Small? && o.pfn in slabs && slabs[o.pfn].cache == c
    {
      hide Heap.Consistent, PageAllocator.Valid, CachesReady, MadeSlab, Off, AllSlots, Heap.IsLive, Heap.Start, Allocated;
      ghost var h, idle := H(), {};
      o := Small(0, 0);
      var p: nat;
      var empty := EmptyPartial(c);
      if empty {
        var r := NewSlab(c);
        if r.None? {
          return 0, o;
        }
        p, idle := r.value, {r.value};
      } else {
        p := FirstPartial(c);
      }
      ghost var m := H();
      ChosenSlab(h, m, p, c, idle);
      o := Small(p, slabs[p].chain[0]);
      addr := TakeObject(p, idle);
      LiveAfterPop(m, H(), p, idle);
      AllocatedAfter(h, m, H(), o);
    }

    method EmptyPartial(c: nat) returns (empty: bool)
      requires Valid() && Partial(c) in pages.pool.lists
      ensures empty <==> pages.pool.lists[Partial(c)] == []
    {
      empty := pages.pool.IsEmpty(Partial(c));
    }

    /** The first slab of a partial list has a free object. */
    method FirstPartial(c: nat) returns (p: nat)
      requires Valid() && Partial(c) in pages.pool.lists && pages.pool.lists[Partial(c)] != []
      ensures HasFree(slabs, p, c)
    {
      var first := pages.pool.First(Partial(c));
      p := first.pfn;
      assert OnPartial(pages.pool.lists, p, c);
    }

    /** The first part of slab_free: push the object and count it out. */
    method PushBack(p: nat, addr: nat, ghost slot: nat) returns (prior: nat)
      requires Valid() && H().IsLive(Small(p, slot)) && addr == Va(p) + Off(slabs[p].cache, slot)
      modifies pages.memMap, ram
      ensures pages.Valid() && CachesReady(caches)
      ensures PushedBack(old(H()), H(), p, slot) && prior == Link(Va(p), slabs[p], 0)
    {
      hide Heap.Consistent, Off, Objects, PageAllocator.Valid, CachesReady, SlabOk, Overlay, ToBytes, RamOnlyPage;
      ghost var h, c := H(), slabs[p].cache;
      var i := p - pages.basePfn;
      LiveFacts(H(), p, slot);
      assert Takes(h, p, slot) && InRam(p);
      prior := pages.memMap[i].freelist;
      LinkSlot(addr, prior, p, c, slot);
      pages.SetPage(p, pages.memMap[i].(freelist := addr));
      pages.SetPage(p, pages.memMap[i].(inuse := pages.memMap[i].inuse - 1));
    }

    /** slab_free: one more link on the chain. With the last live object gone the page is given up; with the first free object
        gained the slab is listed. */
    method SlabFree(p: nat, addr: nat, ghost slot: nat)
      requires Valid() && H().IsLive(Small(p, slot)) && addr == Va(p) + Off(slabs[p].cache, slot)
      modifies this`slabs, this`owned, pages`nrFree, pages`free, pages`freeCount, pages.pool, pages.memMap, ram
      ensures Valid()
      ensures Returned(old(H()), H(), p, slot)
    {
      hide Heap.Consistent, Off, Objects, PageAllocator.Valid, CachesReady, PushedBack, Block, Unlinked, Loose, Takes,
           RamOnlyPage, PageBytes, Overlay, ToBytes;
      ghost var h := H();
      SeparateLists();
      FullSlabUnlinked(p);
      var i := p - pages.basePfn;
      LiveCache(h, p, slot);
      hide WordStored;
      var c := pages.memMap[i].cache;
      var prior := PushBack(p, addr, slot);
      ghost var k := H();
      ReturnFacts(h, k, p, slot);
      slabs := slabs[p := slabs[p].(chain := [slot] + slabs[p].chain)];
      if pages.memMap[i].inuse == 0 {
        ObjectReturned(h, k, H(), p, slot);
        ReleaseSlab(p, prior, c);
      } else {
        if prior == 0 {
          pages.LinkPage(p, Partial(c));
        }
        ObjectReturned(h, k, H(), p, slot);
      }
    }

    /** The idle branch of slab_free: unlist the slab and give its page back. */
    method ReleaseSlab(p: nat, prior: nat, ghost c: nat)
      requires State({p}) && p in slabs && slabs[p].cache == c && slabs[p].chain != [] && prior != 0
      requires pages.PfnValid(p) && !pages.memMap[p - pages.basePfn].buddy
      modifies this`slabs, this`owned, pages`nrFree, pages`free, pages`freeCount, pages.pool, pages.memMap
      ensures Valid() && slabs == old(slabs) - {p} && pages.free == old(pages.free) + {p}
      ensures owned == old(owned) - {p} + {p}
    {
      hide Heap.Consistent, PageAllocator.Valid, CachesReady, Block, Unlinked, Loose;
      ghost var g := H();
      SlabListed(H(), p, {p});
      SeparateLists();
      if prior != 0 {
        pages.UnlinkPage(p, Partial(c));
      }
      pages.SetPage(p, pages.memMap[p - pages.basePfn].(slab := false));
      slabs := slabs - {p};
      owned := owned - {p};
      SlabGone(g, H(), p, c);
      SingleBlock(p);
      GivePages(p, 0);
    }

    /** A slab with no free object is on no list at all. */
    lemma FullSlabUnlinked(p: nat)
      requires Valid() && p in slabs
      ensures slabs[p].chain == [] ==> Unlinked(pages.pool.lists, Lru(p))
    {
      hide Heap.SlabsStored, Heap.SlabFlags, Heap.LargeStored;
      if slabs[p].chain == [] {
        assert forall c: nat :: OnPartial(pages.pool.lists, p, c) <==> HasFree(slabs, p, c);
        forall n | n in pages.pool.lists
          ensures Lru(p) !in pages.pool.lists[n]
        {
          if n.FreeArea? {
            if Lru(p) in pages.pool.lists[n] { FreeListed(p, n.order); }
          } else if n.Partial? {
            assert !OnPartial(pages.pool.lists, p, n.cache);
          }
        }
      }
    }

    lemma FreeListed(p: nat, k: nat)
      requires pages.Valid() && FreeArea(k) in pages.pool.lists && Lru(p) in pages.pool.lists[FreeArea(k)]
      ensures p in pages.free
    {
      assert Listed(pages.pool.lists, p, k);
      CanonicalHead(pages.free, p, k);
    }

    lemma SeparateLists()
      requires pages.Valid()
      ensures Separate(pages.pool.lists)
    {
      pages.pool.ValidSeparate();
    }

    /** kmalloc: the object is returned as a ghost beside its address; zero means failure. */
    method Kmalloc(size: nat) returns (addr: nat, ghost o: Object)
      requires Valid()
      modifies this`slabs, this`large, this`owned, pages`nrFree, pages`free, pages`freeCount, pages.pool, pages.memMap, ram
      ensures Valid()
      ensures addr == 0 <==> size == 0 || !CanServe(old(H()), size)
      ensures addr == 0 ==> H() == old(H())
      ensures addr != 0 ==> Allocated(old(H()), H(), o) && H().Start(o) == addr && size <= H().Length(o)
      ensures addr != 0 ==> RightSize(H(), o, size)
    {
      hide Heap.Consistent, PageAllocator.Valid, CachesReady, Allocated, Heap.IsLive, Heap.Start, Heap.Length, CanServe,
           ObjSize, RightSize;
      o := Big(0);
      if size == 0 {
        return 0, o;
      }
      if size > KMALLOC_MAX_SIZE {
        addr, o := KmallocLarge(size);
        return;
      }
      var c := KmallocIndex(size);
      CanServeSmall(H(), size, c);
      ghost var h := H();
      addr, o := SlabAlloc(c);
      if addr != 0 {
        ServedSmall(h, H(), o, size, c);
      }
    }

    /** The large branch of kmalloc: whole pages, the order recorded in the descriptor. */
    method KmallocLarge(size: nat) returns (addr: nat, ghost o: Object)
      requires Valid() && size > KMALLOC_MAX_SIZE
      modifies this`large, this`owned, pages`nrFree, pages`free, pages`freeCount, pages.pool, pages.memMap
      ensures Valid()
      ensures addr == 0 <==> !CanServe(old(H()), size)
      ensures addr == 0 ==> H() == old(H())
      ensures addr != 0 ==> Allocated(old(H()), H(), o) && H().Start(o) == addr && size <= H().Length(o)
      ensures addr != 0 ==> RightSize(H(), o, size)
    {
      hide Heap.Consistent, PageAllocator.Valid, CachesReady, Allocated, Heap.IsLive, Heap.Start, Heap.Length, Loose, Block,
           FreeBlock, CanServe, RightSize, FitsOrder;
      o := Big(0);
      ghost var h := H();
      var order := KmallocOrder(size);
      if order.None? {
        TooLarge(h, size);
        return 0, o;
      }
      CanServeLarge(h, size, order.value);
      var page := TakePages(order.value);
      if page.None? {
        return 0, o;
      }
      ghost var m := H();
      RecordLarge(page.value, order.value);
      ServedLarge(h, m, H(), page.value, order.value, size);
      o := Big(page.value);
      addr := Va(page.value);
    }

    /** A block's descriptor keeps its order until the block is freed. */
    method RecordLarge(p: nat, order: nat)
      requires Valid() && Loose(H(), p, order) && pages.PfnValid(p) && !pages.memMap[p - pages.basePfn].buddy
      modifies this`large, this`owned, pages.memMap
      ensures Valid() && LargeRecorded(old(H()), H(), p, order) && p !in old(large)
    {
      hide Heap.Consistent, PageAllocator.Valid, CachesReady, Loose, Block;
      ghost var m := H();
      pages.SetPage(p, pages.memMap[p - pages.basePfn].(order := order));
      large := large[p := order];
      owned := owned + Block(p, order);
      LoosePage(m, p, order);
      AddLarge(m, H(), p, order);
    }

    /** kfree */
    method Kfree(addr: nat, ghost o: Object)
      requires Valid() && (addr != 0 ==> H().IsLive(o) && H().Start(o) == addr)
      modifies this`slabs, this`large, this`owned, pages`nrFree, pages`free, pages`freeCount, pages.pool, pages.memMap, ram
      ensures Valid()
      ensures addr == 0 ==> H() == old(H())
      ensures addr != 0 ==> Allocated(H(), old(H()), o)
    {
      hide Heap.Consistent, PageAllocator.Valid, CachesReady, Allocated, Heap.IsLive, Loose, Block, Off, Returned;
      if addr == 0 {
        return;
      }
      ghost var h := H();
      PageOfObject(h, o);
      var p := (addr - VA_OFFSET) / PAGE_SIZE;
      if pages.memMap[p - pages.basePfn].slab {
        SlabFree(p, addr, o.slot);
        LiveAfterReturn(h, H(), p, o.slot);
      } else {
        var order := pages.memMap[p - pages.basePfn].order;
        large := large - {p};
        owned := owned - Block(p, order);
        ghost var m := H();
        DropLarge(h, m, p);
        GivePages(p, order);
        LiveAfterForget(h, H(), p, order);
      }
    }

    /** A caller may write anything into an object it holds. */
    method CallerStore(addr: nat, offset: nat, bytes: seq<Byte>, ghost o: Object)
      requires Valid() && H().IsLive(o) && H().Start(o) == addr && offset + |bytes| <= H().Length(o)
      modifies ram
      ensures Valid() && StoredIn(old(H()), H(), o, offset, bytes)
    {
      hide Heap.Consistent, PageAllocator.Valid, CachesReady, Heap.IsLive, Heap.Start, Heap.Length, Overlay;
      ObjectInRam(H(), o);
      ghost var h := H();
      StoreBytes(ram, RamIndex(addr) + offset, bytes);
      StoreConsistent(h, H(), o, offset, bytes);
    }

    /** kzalloc: kmalloc, then clear the requested bytes. */
    method Kzalloc(size: nat) returns (addr: nat, ghost o: Object)
      requires Valid()
      modifies this`slabs, this`large, this`owned, pages`nrFree, pages`free, pages`freeCount, pages.pool, pages.memMap, ram
      ensures Valid()
      ensures addr == 0 <==> size == 0 || !CanServe(old(H()), size)
      ensures addr == 0 ==> H() == old(H())
      ensures addr != 0 ==> Allocated(old(H()), H(), o) && H().Start(o) == addr && size <= H().Length(o)
      ensures addr != 0 ==> RightSize(H(), o, size)
      ensures addr != 0 ==> 0 <= RamIndex(addr) && RamIndex(addr) + size <= ram.Length &&
                            forall a :: RamIndex(addr) <= a < RamIndex(addr) + size ==> ram[a] == 0
    {
      hide Heap.Consistent, PageAllocator.Valid, CachesReady, Heap.IsLive, Heap.Start, Heap.Length, Overlay, CanServe,
           Allocated, RightSize;
      ghost var h := H();
      addr, o := Kmalloc(size);
      if addr != 0 {
        ghost var m := H();
        AllocatedLive(h, m, o);
        ObjectInRam(m, o);
        ghost var zeros: seq<Byte> := seq(size, _ => 0);
        Memset(ram, RamIndex(addr), 0, size);
        StoreConsistent(m, H(), o, 0, zeros);
        AllocatedStored(h, m, H(), o, zeros, size);
        ZerosThere(m.ram, ram[..], RamIndex(addr), size);
        assert forall a :: 0 <= a < ram.Length ==> ram[a] == ram[..][a];
      }
    }

    lemma NoPartials()
      requires pages.Valid() && forall h :: h in pages.pool.lists ==> h.FreeArea?
      ensures PartialsFrom(pages.pool.lists, 0)
    {
    }
  }

  /** The first `n` slab lists exist and are empty; no slab-list node is linked anywhere. */
  ghost predicate PartialsFrom(lists: Lists, n: nat) {
    && (forall c: nat :: Partial(c) in lists <==> c < n)
    && (forall c: nat :: c < n ==> lists[Partial(c)] == [])
    && (forall g, n :: g in lists && n in lists[g] ==> n.Lru?)
  }

  lemma PartialsStep(lists: Lists, n: nat)
    requires PartialsFrom(lists, n)
    ensures Partial(n) !in lists && (forall g :: g in lists ==> Partial(n) !in lists[g])
    ensures PartialsFrom(lists[Partial(n) := []], n + 1)
  {
    forall g | g in lists
      ensures Partial(n) !in lists[g]
    {
      assert forall m :: m in lists[g] ==> m.Lru?;
    }
  }

  ghost predicate CachesFrom(caches: seq<Cache>, n: nat) {
    |caches| == n && forall c: nat :: c < n ==> caches[c] == Cache(ObjSize(c), Objects(c))
  }

  lemma CachesStep(caches: seq<Cache>, n: nat)
    requires CachesFrom(caches, n)
    ensures ObjSize(n) == KMALLOC_MIN_SIZE * Pow2(n)
    ensures CachesFrom(caches + [Cache(ObjSize(n), ObjectsOf(ObjSize(n)))], n + 1)
  {
    assert ObjSize(n) == KMALLOC_MIN_SIZE * Pow2(n);
    hide ObjSize;
  }

  lemma CachesDone(caches: seq<Cache>)
    requires CachesFrom(caches, KMALLOC_CACHES)
    ensures CachesReady(caches)
  {
  }

  /** Free pages are in no slab and no large block. */
  lemma TookApart(h: Heap, p: nat, k: nat)
    requires h.Consistent({}) && Block(p, k) <= h.free
    ensures h.free <= h.owned
    ensures forall x :: x in Block(p, k) ==> x !in h.slabs && !InBlocks(h.large, x)
  {
    hide Heap.SlabsStored, Heap.SlabFlags, Heap.PartialsMatch;
    forall x | InBlocks(h.large, x)
      ensures x !in h.free
    {
      var q :| q in h.large && x in Block(q, h.large[q]);
      assert h.LargeAt(q);
    }
  }

  /** The bytes of live object `o` are the same in both. */
  ghost predicate SameData(h: Heap, g: Heap, o: Object)
    requires h.IsLive(o)
  {
    forall a: nat :: a < |h.ram| && a < |g.ram| && Holds(h, o, a) ==> h.ram[a] == g.ram[a]
  }

  /** Byte `a` of the memory belongs to live object `o`. */
  ghost predicate Holds(h: Heap, o: Object, a: nat)
    requires h.IsLive(o)
  {
    h.Start(o) <= a + h.base * PAGE_SIZE + VA_OFFSET < h.Start(o) + h.Length(o)
  }

  /** Object `o` is live in both, in the same place, with the same contents. */
  ghost predicate Unmoved(h: Heap, g: Heap, o: Object) {
    h.IsLive(o) && g.IsLive(o) && h.Start(o) == g.Start(o) && h.Length(o) == g.Length(o) && SameData(h, g, o)
  }

  /** `g` has the one live object `o` more than `h`; all other objects are untouched, and the pages in
      play are the same. */
  ghost predicate Allocated(h: Heap, g: Heap, o: Object) {
    && g.owned == h.owned && g.base == h.base && |g.ram| == |h.ram|
    && g.IsLive(o) && !h.IsLive(o)
    && (forall x :: x != o ==> (g.IsLive(x) <==> h.IsLive(x)))
    && (forall x :: h.IsLive(x) ==> Unmoved(h, g, x))
  }

  lemma AllocatedAfter(h: Heap, m: Heap, g: Heap, o: Object)
    requires Allocated(m, g, o) && m.owned == h.owned && m.base == h.base && |m.ram| == |h.ram|
    requires forall x :: m.IsLive(x) <==> h.IsLive(x)
    requires forall x :: h.IsLive(x) ==> Unmoved(h, m, x)
    ensures Allocated(h, g, o)
  {
    hide Heap.IsLive, Heap.Start, Heap.Length;
    forall x | h.IsLive(x)
      ensures Unmoved(h, g, x)
    {
      assert Unmoved(h, m, x) && Unmoved(m, g, x);
    }
  }

  /** Data of a live object survives changes confined to a page it does not occupy. */
  lemma DataKept(h: Heap, g: Heap, o: Object, p: nat)
    requires h.Consistent({}) && h.IsLive(o) && p !in PagesOf(h, o)
    requires RamOnlyPage(h.ram, g.ram, h.base, |h.map'|, p)
    ensures SameData(h, g, o)
  {
    LiveInPages(h, {}, o);
    PagesRange(h, o);
    var n := |PagesOf(h, o)|;
    hide Heap.Consistent, Heap.Start, Heap.Length, RamOnlyPage, PagesOf, Heap.IsLive;
    forall a: nat | a < |h.ram| && a < |g.ram| && Holds(h, o, a)
      ensures h.ram[a] == g.ram[a]
    {
      var q := h.base + a / PAGE_SIZE;
      assert o.pfn <= q < o.pfn + n;
      ByteKept(h.ram, g.ram, h.base, |h.map'|, p, a);
    }
  }

  lemma PagesRange(h: Heap, o: Object)
    requires h.IsLive(o)
    ensures forall q: nat :: o.pfn <= q < o.pfn + |PagesOf(h, o)| ==> q in PagesOf(h, o)
  {
    if o.Big? { RunSize(o.pfn, Pow2(h.large[o.pfn])); }
  }

  lemma ByteKept(ram: seq<Byte>, ram': seq<Byte>, base: nat, n: nat, p: nat, a: nat)
    requires RamOnlyPage(ram, ram', base, n, p) && a < |ram| && base + a / PAGE_SIZE != p
    ensures ram'[a] == ram[a]
  {
    var q := base + a / PAGE_SIZE;
    var r := RamOff(base, q);
    assert PageBytes(ram', base, q)[a - r] == PageBytes(ram, base, q)[a - r];
  }

  /** Turning a free page into a slab with every object free makes nothing live. */
  lemma LiveAfterMade(h: Heap, m: Heap, p: nat, c: nat)
    requires h.Consistent({}) && MadeSlab(h, m, p, c)
    ensures forall x :: m.IsLive(x) <==> h.IsLive(x)
    ensures forall x :: h.IsLive(x) ==> Unmoved(h, m, x)
  {
    hide Heap.Consistent, Objects, RamOnlyPage, ObjSize;
    forall x
      ensures m.IsLive(x) <==> h.IsLive(x)
    {
      if x.Small? && x.slot < Objects(c) { assert AllSlots(c)[x.slot] == x.slot; }
    }
    forall x | h.IsLive(x)
      ensures Unmoved(h, m, x)
    {
      LiveInPages(h, {}, x);
      DataKept(h, m, x, p);
    }
  }

  /** Taking the first object off the chain makes exactly it live. */
  lemma LiveAfterPop(h: Heap, g: Heap, p: nat, idle: set<nat>)
    requires h.Consistent(idle) && p in h.slabs && h.slabs[p].chain != []
    requires g.slabs == h.slabs[p := h.slabs[p].(chain := h.slabs[p].chain[1..])] && g.large == h.large
    requires g.ram == h.ram && g.owned == h.owned && g.base == h.base
    ensures Allocated(h, g, Small(p, h.slabs[p].chain[0]))
    ensures g.Start(Small(p, h.slabs[p].chain[0])) == Va(p) + Off(h.slabs[p].cache, h.slabs[p].chain[0])
  {
    hide Heap.Consistent, Objects, Off, ObjSize;
    FirstOfChain(h, p, idle);
    PopLive(h, g, p);
    forall x | h.IsLive(x)
      ensures Unmoved(h, g, x)
    {
    }
  }

  lemma PopLive(h: Heap, g: Heap, p: nat)
    requires p in h.slabs && h.slabs[p].chain != [] && g.large == h.large
    requires g.slabs == h.slabs[p := h.slabs[p].(chain := h.slabs[p].chain[1..])]
    requires var chain := h.slabs[p].chain;
             && chain[0] in chain && chain[0] !in chain[1..] && chain[0] < Objects(h.slabs[p].cache)
             && forall s: nat :: s in chain <==> s == chain[0] || s in chain[1..]
    ensures var o := Small(p, h.slabs[p].chain[0]);
            !h.IsLive(o) && g.IsLive(o) && forall x :: x != o ==> (g.IsLive(x) <==> h.IsLive(x))
    ensures forall x :: h.IsLive(x) ==> g.IsLive(x) && g.Start(x) == h.Start(x) && g.Length(x) == h.Length(x)
  {
    hide Objects, Off, ObjSize;
  }

  lemma FirstOfChain(h: Heap, p: nat, idle: set<nat>)
    requires h.Consistent(idle) && p in h.slabs && h.slabs[p].chain != []
    ensures var chain := h.slabs[p].chain;
            && chain[0] in chain && chain[0] !in chain[1..] && chain[0] < Objects(h.slabs[p].cache)
            && forall s: nat :: s in chain <==> s == chain[0] || s in chain[1..]
  {
    var chain := h.slabs[p].chain;
    assert h.SlabAt(p);
    assert chain == [chain[0]] + chain[1..];
    hide Heap.PartialsMatch, Heap.LargeStored, Heap.SlabFlags, Objects, ChainStored;
    assert chain[0] in chain;
  }

  /** Returning an object makes exactly it no longer live. */
  lemma LiveAfterReturn(h: Heap, g: Heap, p: nat, slot: nat)
    requires h.Consistent({}) && h.IsLive(Small(p, slot)) && Returned(h, g, p, slot)
    ensures Allocated(g, h, Small(p, slot))
  {
    hide Heap.Consistent, WordStored, Objects, Off, ObjSize, Heap.IsLive, Heap.Start, Heap.Length, SameData;
    ReturnedLive(h, g, p, slot);
    forall x | g.IsLive(x)
      ensures Unmoved(g, h, x)
    {
      OtherDataKept(h, g, p, slot, x);
      SameDataBack(h, g, x);
    }
    SameRamSize(h, g, p, slot);
  }

  lemma SameDataBack(h: Heap, g: Heap, x: Object)
    requires h.IsLive(x) && g.IsLive(x) && SameData(h, g, x) && h.base == g.base
    requires h.Start(x) == g.Start(x) && h.Length(x) == g.Length(x)
    ensures SameData(g, h, x)
  {
    hide Heap.Start, Heap.Length, Heap.IsLive;
    assert forall a: nat :: Holds(g, x, a) <==> Holds(h, x, a);
  }

  lemma SameRamSize(h: Heap, g: Heap, p: nat, slot: nat)
    requires Returned(h, g, p, slot)
    ensures |g.ram| == |h.ram| && h.Managed(p)
  {
  }

  lemma ReturnedLive(h: Heap, g: Heap, p: nat, slot: nat)
    requires h.Consistent({}) && h.IsLive(Small(p, slot)) && Returned(h, g, p, slot)
    ensures !g.IsLive(Small(p, slot))
    ensures forall x :: x != Small(p, slot) ==> (g.IsLive(x) <==> h.IsLive(x))
    ensures forall x :: g.IsLive(x) ==> h.IsLive(x) && g.Start(x) == h.Start(x) && g.Length(x) == h.Length(x)
  {
    var slab := h.slabs[p];
    FullChain(h, p, slot);
    hide Heap.Consistent, WordStored, Objects, Off, ObjSize;
    forall x
      ensures x != Small(p, slot) ==> (g.IsLive(x) <==> h.IsLive(x))
    {
      assert x.Small? && x.pfn == p && x.slot != slot ==>
          (x.slot in [slot] + slab.chain <==> x.slot in slab.chain);
    }
  }

  /** If the chain lacks only one object, no other object of the slab is live. */
  lemma FullChain(h: Heap, p: nat, slot: nat)
    requires h.Consistent({}) && h.IsLive(Small(p, slot))
    ensures var slab := h.slabs[p];
            |slab.chain| + 1 == Objects(slab.cache) ==>
              forall s: nat :: s < Objects(slab.cache) && s != slot ==> s in slab.chain
  {
    var slab := h.slabs[p];
    assert h.SlabAt(p);
    hide Heap.PartialsMatch, Heap.LargeStored, Heap.SlabFlags, Objects, ChainStored, Heap.SlabsStored;
    forall s: nat | s < Objects(slab.cache) && s != slot && s !in slab.chain
      ensures |slab.chain| + 1 != Objects(slab.cache)
    {
      DistinctBound([slot] + ([s] + slab.chain), Objects(slab.cache));
    }
  }

  /** A word stored in one object leaves the data of the others alone. */
  lemma OtherDataKept(h: Heap, g: Heap, p: nat, slot: nat, x: Object)
    requires h.Consistent({}) && h.IsLive(Small(p, slot)) && h.IsLive(x) && x != Small(p, slot)
    requires h.Sized() && h.Managed(p) && p in h.slabs && WordStored(h, g, p, slot) && g.base == h.base
    ensures SameData(h, g, x)
  {
    hide Heap.Consistent, WordStored, Heap.IsLive, Heap.Start, Heap.Length, Off, ObjSize;
    LiveDisjoint(h, {}, x, Small(p, slot));
    ReturnSpan(h, p, slot);
    forall a: nat | a < |h.ram| && a < |g.ram| && Holds(h, x, a)
      ensures h.ram[a] == g.ram[a]
    {
      StoredByte(h, g, p, slot, a);
    }
  }

  lemma ReturnSpan(h: Heap, p: nat, slot: nat)
    requires h.Consistent({}) && h.IsLive(Small(p, slot))
    ensures h.Start(Small(p, slot)) == Va(p) + Off(h.slabs[p].cache, slot) && h.Length(Small(p, slot)) >= WORD_SIZE
  {
    SlabCache(h, p);
    CacheGeometry(h.slabs[p].cache);
  }

  /** A byte outside the stored word is unchanged. */
  lemma StoredByte(h: Heap, g: Heap, p: nat, slot: nat, a: nat)
    requires h.Sized() && h.Managed(p) && p in h.slabs && WordStored(h, g, p, slot) && a < |h.ram| && a < |g.ram|
    requires var w := RamOff(h.base, p) + Off(h.slabs[p].cache, slot);
             a < w || w + WORD_SIZE <= a
    ensures g.ram[a] == h.ram[a]
  {
    hide Off, ToBytes, Overlay;
    var at, r := Off(h.slabs[p].cache, slot), RamOff(h.base, p);
    if h.base + a / PAGE_SIZE != p {
      ByteKept(h.ram, g.ram, h.base, |h.map'|, p, a);
    } else {
      var t := ToBytes(h.map'[p - h.base].freelist, WORD_SIZE);
      OverlayAt(PageBytes(h.ram, h.base, p), at, t, a - r);
      assert PageBytes(g.ram, h.base, p)[a - r] == g.ram[a] && PageBytes(h.ram, h.base, p)[a - r] == h.ram[a];
    }
  }

  /** Recording a loose block makes exactly it live. */
  lemma LiveAfterLarge(h: Heap, m: Heap, g: Heap, p: nat, k: nat)
    requires LargeRecorded(m, g, p, k) && p !in m.large
    requires m.ram == h.ram && m.base == h.base && m.slabs == h.slabs && m.large == h.large
    requires m.owned == h.owned - Block(p, k) && Block(p, k) <= h.owned
    ensures Allocated(h, g, Big(p)) && g.Start(Big(p)) == Va(p) && g.Length(Big(p)) == Pow2(k) * PAGE_SIZE
  {
    hide Objects, Off, ObjSize, Block;
    assert forall x :: x != Big(p) ==> (g.IsLive(x) <==> h.IsLive(x));
    forall x | h.IsLive(x)
      ensures Unmoved(h, g, x)
    {
      assert x != Big(p);
    }
  }

  /** `c` is the smallest size class holding `size` bytes. */
  ghost predicate FitsClass(size: nat, c: nat) {
    c < KMALLOC_CACHES && size <= ObjSize(c) && (c > 0 ==> ObjSize(c - 1) < size)
  }

  /** `k` is the smallest order holding `size` bytes. */
  ghost predicate FitsOrder(size: nat, k: nat) {
    k < MAX_ORDER && size <= PAGE_SIZE * Pow2(k) && (k > 0 ==> PAGE_SIZE * Pow2(k - 1) < size)
  }

  /** A request of `size` bytes can be met: a slab of the right class has a free object or a page is free;
      for large sizes, an aligned free run of the right order exists. */
  ghost predicate CanServe(h: Heap, size: nat) {
    if size <= KMALLOC_MAX_SIZE
    then h.free != {} || exists c: nat, p: nat :: FitsClass(size, c) && HasFree(h.slabs, p, c)
    else exists k: nat, p: nat :: FitsOrder(size, k) && FreeBlock(h.free, p, k)
  }

  /** The object is of the smallest size class or order that holds `size` bytes. */
  ghost predicate RightSize(h: Heap, o: Object, size: nat) {
    match o
    case Small(p, s) => p in h.slabs && size <= KMALLOC_MAX_SIZE && FitsClass(size, h.slabs[p].cache)
    case Big(p) => p in h.large && size > KMALLOC_MAX_SIZE && FitsOrder(size, h.large[p])
  }

  lemma ClassSizes()
    ensures ObjSize(0) == 16 && ObjSize(1) == 32 && ObjSize(2) == 64 && ObjSize(3) == 128
    ensures ObjSize(4) == 256 && ObjSize(5) == 512 && ObjSize(6) == 1024 && ObjSize(7) == 2048
  {
    assert Pow2(2) == 4 && Pow2(4) == 16 && Pow2(6) == 64;
  }

  lemma ClassLaw(size: nat, c: nat)
    requires FitsClass(size, c)
    ensures size <= 2048 && size <= ObjSize(c) <= 2048 && ObjSize(c) >= 16 && (ObjSize(c) == 16 || ObjSize(c) < 2 * size)
    ensures exists n: nat :: 4 <= n && ObjSize(c) == Pow2(n)
  {
    ClassSizes();
    assert ObjSize(c) == Pow2(c + 4) by { assert Pow2(c + 2) == 4 * Pow2(c) && Pow2(c + 4) == 4 * Pow2(c + 2); }
    assert c > 0 ==> ObjSize(c) == 2 * ObjSize(c - 1);
  }

  lemma OrderLaw(size: nat, k: nat)
    requires FitsOrder(size, k) && size > 2048
    ensures var bytes := Pow2(k) * 0x1000;
            size <= bytes <= 0x40_0000 && bytes < 2 * size && exists n: nat :: 12 <= n && bytes == Pow2(n)
  {
    Pow2Monotone(k, 10);
    assert Pow2(5) == 32 && Pow2(10) == 1024;
    PowTwelve(k);
    assert k > 0 ==> Pow2(k) == 2 * Pow2(k - 1);
  }

  lemma PowTwelve(k: nat)
    ensures Pow2(k + 12) == 0x1000 * Pow2(k)
  {
    assert Pow2(k + 2) == 4 * Pow2(k) && Pow2(k + 4) == 4 * Pow2(k + 2) && Pow2(k + 6) == 4 * Pow2(k + 4);
    assert Pow2(k + 8) == 4 * Pow2(k + 6) && Pow2(k + 10) == 4 * Pow2(k + 8) && Pow2(k + 12) == 4 * Pow2(k + 10);
  }

  /** How much kmalloc hands out: up to 2048 bytes an object of a slab, beyond that up to 4 MiB whole pages; in both cases the
      smallest power of two that holds the request, and at least 16 bytes. */
  lemma SizeLaw(h: Heap, o: Object, size: nat)
    requires size > 0 && h.IsLive(o) && RightSize(h, o, size)
    ensures var bytes := h.Length(o);
            && size <= bytes <= 0x40_0000 && bytes >= 16 && (bytes == 16 || bytes < 2 * size)
            && (exists n: nat :: 4 <= n && bytes == Pow2(n)) && (o.Small? <==> size <= 2048)
  {
    hide FitsClass, FitsOrder, ObjSize, Pow2;
    match o {
      case Small(p, s) => ClassLaw(size, h.slabs[p].cache);
      case Big(p) => OrderLaw(size, h.large[p]);
    }
  }

  /** A slab of the right object size has an object that is not live. */
  ghost predicate Spare(h: Heap, size: nat, p: nat, s: nat) {
    && p in h.slabs && s < Objects(h.slabs[p].cache) && !h.IsLive(Small(p, s))
    && var bytes := ObjSize(h.slabs[p].cache); size <= bytes && (bytes == 16 || bytes < 2 * size)
  }

  /** 2^`k` pages from `p`, a multiple of that, are free and just hold the request. */
  ghost predicate FreeRun(h: Heap, size: nat, p: nat, k: nat) {
    && k <= 10 && size <= Pow2(k) * 0x1000 < 2 * size && p % Pow2(k) == 0
    && forall x: nat :: p <= x < p + Pow2(k) ==> x in h.free
  }

  lemma ServesSmall(h: Heap, size: nat)
    requires h.Consistent({}) && 0 < size <= 2048
    ensures CanServe(h, size) <==> h.free != {} || exists p: nat, s: nat :: Spare(h, size, p, s)
  {
    hide Heap.Consistent, FitsClass, ObjSize, Objects;
    if exists c: nat, p: nat :: FitsClass(size, c) && HasFree(h.slabs, p, c) {
      var c: nat, p: nat :| FitsClass(size, c) && HasFree(h.slabs, p, c);
      ClassLaw(size, c);
      ShapeOfSlab(h, p);
      assert h.slabs[p].chain[0] in h.slabs[p].chain;
      assert Spare(h, size, p, h.slabs[p].chain[0]);
    }
    if exists p: nat, s: nat :: Spare(h, size, p, s) {
      var p: nat, s: nat :| Spare(h, size, p, s);
      ShapeOfSlab(h, p);
      SpareClass(size, h.slabs[p].cache);
      assert HasFree(h.slabs, p, h.slabs[p].cache);
    }
  }

  lemma ShapeOfSlab(h: Heap, p: nat)
    requires h.Consistent({}) && p in h.slabs
    ensures ChainShape(h.slabs[p])
  {
    hide Heap.SlabFlags, Heap.PartialsMatch, Heap.LargeStored, Heap.Partition, ChainShape, ChainStored;
    assert h.SlabAt(p);
  }

  lemma SpareClass(size: nat, c: nat)
    requires c < KMALLOC_CACHES && size <= ObjSize(c) && (ObjSize(c) == 16 || ObjSize(c) < 2 * size)
    ensures FitsClass(size, c)
  {
    ClassSizes();
    assert c > 0 ==> ObjSize(c) == 2 * ObjSize(c - 1);
  }

  lemma ServesLarge(h: Heap, size: nat)
    requires size > 2048
    ensures CanServe(h, size) <==> exists p: nat, k: nat :: FreeRun(h, size, p, k)
  {
    if CanServe(h, size) {
      var k: nat, p: nat :| FitsOrder(size, k) && FreeBlock(h.free, p, k);
      OrderLaw(size, k);
      AlignedIsMultiple(p, k);
      assert FreeRun(h, size, p, k);
    }
    if exists p: nat, k: nat :: FreeRun(h, size, p, k) {
      var p: nat, k: nat :| FreeRun(h, size, p, k);
      AlignedIsMultiple(p, k);
      assert k > 0 ==> Pow2(k) == 2 * Pow2(k - 1);
      assert FitsOrder(size, k) && FreeBlock(h.free, p, k);
    }
  }

  /** When kmalloc can serve a request: up to 2048 bytes, when a page is free or a slab of the smallest sufficient object size has
      an object that is not live; beyond that, when an aligned run of free pages of the smallest sufficient size exists. */
  lemma ServeLaw(h: Heap, size: nat)
    requires h.Consistent({}) && size > 0
    ensures CanServe(h, size) <==>
            if size <= 2048 then h.free != {} || exists p: nat, s: nat :: Spare(h, size, p, s)
            else exists p: nat, k: nat :: FreeRun(h, size, p, k)
  {
    hide CanServe, Spare, FreeRun, Heap.Consistent;
    if size <= 2048 { ServesSmall(h, size); } else { ServesLarge(h, size); }
  }

  /** Where an object is: the linear map puts physical address 0x4000_0000 at 0xffff_ffc0_0000_0000, and object `s` of a slab
      follows `s` others of the same length. */
  lemma StartLaw(h: Heap, o: Object)
    requires h.IsLive(o)
    ensures h.Start(o) == 0xffff_ffc0_0000_0000 + (o.pfn * 0x1000 - 0x4000_0000) + if o.Small? then o.slot * h.Length(o) else 0
  {
  }

  /** kmalloc_index: the smallest size class holding `size` bytes. */
  method KmallocIndex(size: nat) returns (index: nat)
    requires size <= KMALLOC_MAX_SIZE
    ensures FitsClass(size, index)
  {
    index := 0;
    assert Pow2(3) == 8 && Pow2(7) == 128;
    while KMALLOC_MIN_SIZE * Pow2(index) < size
      invariant index < KMALLOC_CACHES && (index > 0 ==> ObjSize(index - 1) < size)
      decreases KMALLOC_CACHES - index
    {
      index := index + 1;
    }
  }

  lemma {:induction false} ClassUnique(size: nat, c: nat, d: nat)
    requires FitsClass(size, c) && FitsClass(size, d)
    ensures c == d
  {
    if c < d { Pow2Monotone(c, d - 1); }
    if d < c { Pow2Monotone(d, c - 1); }
  }

  lemma OrderUnique(size: nat, k: nat, j: nat)
    requires FitsOrder(size, k) && FitsOrder(size, j)
    ensures k == j
  {
    if k < j { Pow2Monotone(k, j - 1); }
    if j < k { Pow2Monotone(j, k - 1); }
  }

  lemma CanServeSmall(h: Heap, size: nat, c: nat)
    requires h.Consistent({}) && size <= KMALLOC_MAX_SIZE && FitsClass(size, c)
    ensures Partial(c) in h.lists
    ensures !CanServe(h, size) <==> h.lists[Partial(c)] == [] && h.free == {}
  {
    hide FitsClass, Heap.SlabsStored, Heap.SlabFlags, Heap.LargeStored, Heap.Partition;
    assert c < KMALLOC_CACHES by { assert FitsClass(size, c); ClassBound(size, c); }
    if h.lists[Partial(c)] != [] {
      var n := h.lists[Partial(c)][0];
      assert n in h.lists[Partial(c)] && n.Lru?;
      assert OnPartial(h.lists, n.pfn, c) && HasFree(h.slabs, n.pfn, c);
    }
    forall d: nat, p: nat | FitsClass(size, d) && HasFree(h.slabs, p, d)
      ensures h.lists[Partial(c)] != []
    {
      ClassUnique(size, c, d);
      assert OnPartial(h.lists, p, d);
    }
  }

  lemma ClassBound(size: nat, c: nat)
    requires FitsClass(size, c)
    ensures c < KMALLOC_CACHES && size <= ObjSize(c)
  {
  }

  lemma ServedSmall(h: Heap, g: Heap, o: Object, size: nat, c: nat)
    requires Allocated(h, g, o) && FitsClass(size, c) && size <= KMALLOC_MAX_SIZE
    requires o.Small? && o.pfn in g.slabs && g.slabs[o.pfn].cache == c
    ensures g.IsLive(o) && size <= g.Length(o) && RightSize(g, o, size)
  {
  }

  lemma CanServeLarge(h: Heap, size: nat, k: nat)
    requires size > KMALLOC_MAX_SIZE && FitsOrder(size, k)
    ensures CanServe(h, size) <==> exists p: nat :: FreeBlock(h.free, p, k)
  {
    hide FreeBlock;
    forall j: nat, p: nat | FitsOrder(size, j) && FreeBlock(h.free, p, j)
      ensures FreeBlock(h.free, p, k)
    {
      OrderUnique(size, k, j);
    }
  }

  /** The order search of kmalloc; none when even the largest block is too small. */
  method KmallocOrder(size: nat) returns (r: Option<nat>)
    ensures r.Some? ==> FitsOrder(size, r.value)
    ensures r.None? <==> PAGE_SIZE * Pow2(MAX_ORDER - 1) < size
  {
    var order := 0;
    while PAGE_SIZE * Pow2(order) < size
      invariant order < MAX_ORDER && (order > 0 ==> PAGE_SIZE * Pow2(order - 1) < size)
      decreases MAX_ORDER - order
    {
      order := order + 1;
      if order >= MAX_ORDER {
        return None;
      }
    }
    Pow2Monotone(order, MAX_ORDER - 1);
    r := Some(order);
  }

  lemma TooLarge(h: Heap, size: nat)
    requires PAGE_SIZE * Pow2(MAX_ORDER - 1) < size && size > KMALLOC_MAX_SIZE
    ensures !CanServe(h, size)
  {
    forall k: nat
      ensures !FitsOrder(size, k)
    {
      if k < MAX_ORDER { Pow2Monotone(k, MAX_ORDER - 1); }
    }
  }

  lemma ServedLarge(h: Heap, m: Heap, g: Heap, p: nat, k: nat, size: nat)
    requires LargeRecorded(m, g, p, k) && p !in m.large && FitsOrder(size, k) && size > KMALLOC_MAX_SIZE
    requires m.ram == h.ram && m.base == h.base && m.slabs == h.slabs && m.large == h.large
    requires m.owned == h.owned - Block(p, k) && Block(p, k) <= h.owned
    ensures Allocated(h, g, Big(p)) && g.Start(Big(p)) == Va(p) && size <= g.Length(Big(p)) && RightSize(g, Big(p), size)
  {
    LiveAfterLarge(h, m, g, p, k);
  }

  lemma LoosePage(h: Heap, p: nat, k: nat)
    requires Loose(h, p, k)
    ensures h.Managed(p) && p !in h.large
  {
    assert p in Block(p, k);
    assert forall q :: q in h.large ==> q in Block(q, h.large[q]) && InBlocks(h.large, q);
  }

  /** virt_to_page finds the page of a live object, and its slab flag tells the two kinds apart. */
  lemma PageOfObject(h: Heap, o: Object)
    requires h.Consistent({}) && h.IsLive(o)
    ensures h.Start(o) >= VA_OFFSET && (h.Start(o) - VA_OFFSET) / PAGE_SIZE == o.pfn && h.Managed(o.pfn)
    ensures h.map'[o.pfn - h.base].slab <==> o.Small?
    ensures o.Small? ==> o.pfn in h.slabs && h.Start(o) == Va(o.pfn) + Off(h.slabs[o.pfn].cache, o.slot)
    ensures o.Big? ==> o.pfn in h.large && h.large[o.pfn] == h.map'[o.pfn - h.base].order && Block(o.pfn, h.large[o.pfn]) <= h.owned
  {
    hide Heap.Consistent, Off, Objects, ObjSize, Block;
    LiveInPages(h, {}, o);
    match o
    case Small(p, s) => SlabPage(h, p, s);
    case Big(p) => LargePage(h, p);
  }

  lemma SlabPage(h: Heap, p: nat, s: nat)
    requires h.Consistent({}) && h.IsLive(Small(p, s))
    ensures h.Managed(p) && h.map'[p - h.base].slab && Off(h.slabs[p].cache, s) < PAGE_SIZE
  {
    assert h.SlabAt(p);
    SlotBounds(h.slabs[p].cache, s);
  }

  lemma LargePage(h: Heap, p: nat)
    requires h.Consistent({}) && p in h.large
    ensures h.Managed(p) && !h.map'[p - h.base].slab && h.large[p] == h.map'[p - h.base].order
  {
    assert h.LargeAt(p) && p in Block(p, h.large[p]);
  }

  /** Forgetting a large block makes exactly it no longer live. */
  lemma LiveAfterForget(h: Heap, g: Heap, p: nat, k: nat)
    requires p in h.large && h.large[p] == k && g.large == h.large - {p} && g.slabs == h.slabs
    requires g.ram == h.ram && g.base == h.base && g.owned == h.owned - Block(p, k) + Block(p, k) && Block(p, k) <= h.owned
    ensures Allocated(g, h, Big(p))
  {
    hide Objects, Off, ObjSize, Block;
    assert forall x :: x != Big(p) ==> (g.IsLive(x) <==> h.IsLive(x));
    forall x | g.IsLive(x)
      ensures Unmoved(g, h, x)
    {
      assert x != Big(p);
    }
  }

  /** Offset in the memory of the first byte of a live object. */
  ghost function ObjectIndex(h: Heap, o: Object): int
    requires h.IsLive(o)
  {
    h.Start(o) - VA_OFFSET - h.base * PAGE_SIZE
  }

  /** `g` is `h` with `t` stored in live object `o`. */
  ghost predicate StoredIn(h: Heap, g: Heap, o: Object, at: nat, t: seq<Byte>) {
    && h.IsLive(o) && at + |t| <= h.Length(o)
    && 0 <= ObjectIndex(h, o) && ObjectIndex(h, o) + h.Length(o) <= |h.ram|
    && g == h.(ram := Overlay(h.ram, ObjectIndex(h, o) + at, t))
  }

  lemma ObjectInRam(h: Heap, o: Object)
    requires h.Consistent({}) && h.IsLive(o)
    ensures 0 <= ObjectIndex(h, o) && ObjectIndex(h, o) + h.Length(o) <= |h.ram|
  {
    hide Heap.SlabFlags, Heap.PartialsMatch, Heap.Partition, Off, ObjSize, Objects;
    match o
    case Small(p, s) =>
      assert h.SlabAt(p);
      SlotBounds(h.slabs[p].cache, s);
    case Big(p) =>
      assert h.LargeAt(p);
      assert p in Block(p, h.large[p]) && p + Pow2(h.large[p]) - 1 in Block(p, h.large[p]);
  }

  /** Whatever is written into live objects, the allocator state stays consistent. */
  lemma StoreConsistent(h: Heap, g: Heap, o: Object, at: nat, t: seq<Byte>)
    requires h.Consistent({}) && StoredIn(h, g, o, at, t)
    ensures g.Consistent({})
  {
    if o.Small? { StoreSmall(h, g, o.pfn, o.slot, at, t); } else { StoreBig(h, g, o.pfn, at, t); }
  }

  lemma StoreSmall(h: Heap, g: Heap, p: nat, slot: nat, at: nat, t: seq<Byte>)
    requires h.Consistent({}) && StoredIn(h, g, Small(p, slot), at, t)
    ensures g.Consistent({})
  {
    hide Heap.Consistent, SlabOk, Overlay, PageBytes, Off, ObjSize, Objects, InBlocks, Heap.Length, Heap.Start;
    LiveFacts(h, p, slot);
    SmallWritten(h, g, p, slot, at, t);
    assert g.slabs == h.slabs[p := h.slabs[p]] && g.owned == h.owned + {p};
    SlabEdit(h, g, p, h.slabs[p], {});
    assert {} - {p} == {};
  }

  lemma SmallWritten(h: Heap, g: Heap, p: nat, slot: nat, at: nat, t: seq<Byte>)
    requires h.Consistent({}) && h.Managed(p) && StoredIn(h, g, Small(p, slot), at, t)
    ensures p in h.owned && p !in h.free && !InBlocks(h.large, p) && g.PartialsMatch()
    ensures SlabOk(PageBytes(g.ram, g.base, p), Va(p), g.map'[p - g.base], h.slabs[p]) && OnlyPage(h, g, p)
  {
    assert h.SlabAt(p);
    SlabInNoBlock(h, p);
    StoredPages(h, g, p, slot, at, t);
    WriteLive(PageBytes(h.ram, h.base, p), Va(p), h.map'[p - h.base], h.slabs[p], slot, Off(h.slabs[p].cache, slot) + at, t);
    hide *;
  }

  lemma StoredPages(h: Heap, g: Heap, p: nat, slot: nat, at: nat, t: seq<Byte>)
    requires h.Sized() && h.Managed(p) && StoredIn(h, g, Small(p, slot), at, t) && h.slabs[p].cache < KMALLOC_CACHES
    ensures Off(h.slabs[p].cache, slot) + at + |t| <= PAGE_SIZE
    ensures PageBytes(g.ram, g.base, p) == Overlay(PageBytes(h.ram, h.base, p), Off(h.slabs[p].cache, slot) + at, t)
    ensures OnlyPage(h, g, p)
  {
    hide Overlay, PageBytes, Off, ObjSize, Objects;
    var c := h.slabs[p].cache;
    SlotBounds(c, slot);
    forall q: nat | h.Managed(q)
      ensures PageBytes(g.ram, h.base, q) == if q == p then Overlay(PageBytes(h.ram, h.base, p), Off(c, slot) + at, t)
                                             else PageBytes(h.ram, h.base, q)
    {
      PageOverlay(h.ram, h.base, p, Off(c, slot) + at, t, q);
    }
  }

  lemma StoreBig(h: Heap, g: Heap, p: nat, at: nat, t: seq<Byte>)
    requires h.Consistent({}) && StoredIn(h, g, Big(p), at, t)
    ensures g.Consistent({})
  {
    hide Heap.SlabsStored, Heap.SlabFlags, Heap.LargeStored, PartialsOk, Overlay, InBlocks;
    StoreBigSlabs(h, g, p, at, t);
    StoreLarge(h, g);
    CombineParts(g, {});
  }

  lemma StoreLarge(h: Heap, g: Heap)
    requires h.LargeStored() && g == h.(ram := g.ram)
    ensures g.LargeStored()
  {
    hide Unlinked, BlocksApart, Block;
    forall q | q in g.large
      ensures g.LargeAt(q)
    {
      assert h.LargeAt(q);
    }
  }

  lemma StoreBigSlabs(h: Heap, g: Heap, p: nat, at: nat, t: seq<Byte>)
    requires h.Sized() && h.SlabsStored() && h.SlabFlags({}) && h.LargeStored() && StoredIn(h, g, Big(p), at, t)
    ensures g.Sized() && g.SlabsStored() && g.SlabFlags({})
  {
    hide SlabOk, Overlay, Heap.LargeStored;
    forall q | q in g.slabs
      ensures g.SlabAt(q)
    {
      assert h.SlabAt(q);
      SlabNotIn(h, q, p);
      OverlaySlice(h.ram, ObjectIndex(h, Big(p)) + at, t, RamOff(h.base, q), RamOff(h.base, q) + PAGE_SIZE);
    }
  }

  lemma AllocatedLive(h: Heap, g: Heap, o: Object)
    requires Allocated(h, g, o)
    ensures g.IsLive(o)
  {
  }

  /** Filling the new object changes no other object. */
  lemma AllocatedStored(h: Heap, m: Heap, g: Heap, o: Object, t: seq<Byte>, size: nat)
    requires m.Consistent({}) && Allocated(h, m, o) && StoredIn(m, g, o, 0, t) && RightSize(m, o, size)
    ensures Allocated(h, g, o) && g.Start(o) == m.Start(o) && g.Length(o) == m.Length(o) && RightSize(g, o, size)
  {
    hide Heap.Consistent, Objects, Off, ObjSize;
    forall x
      ensures g.IsLive(x) <==> m.IsLive(x)
    {
    }
    forall x | h.IsLive(x)
      ensures Unmoved(h, g, x)
    {
      assert Unmoved(h, m, x);
      LiveDisjoint(m, {}, x, o);
      StoredOutside(m, g, o, t, x);
    }
  }

  lemma StoredOutside(h: Heap, g: Heap, o: Object, t: seq<Byte>, x: Object)
    requires h.IsLive(x) && StoredIn(h, g, o, 0, t)
    requires h.Start(x) + h.Length(x) <= h.Start(o) || h.Start(o) + h.Length(o) <= h.Start(x)
    ensures SameData(h, g, x)
  {
    hide Heap.IsLive, Heap.Start, Heap.Length;
    forall a: nat | a < |h.ram| && a < |g.ram| && Holds(h, x, a)
      ensures h.ram[a] == g.ram[a]
    {
      OverlayAt(h.ram, ObjectIndex(h, o), t, a);
    }
  }

  lemma ZerosThere(ram: seq<Byte>, ram': seq<Byte>, index: nat, size: nat)
    requires index + size <= |ram| && ram' == Overlay(ram, index, seq(size, _ => 0))
    ensures forall a :: index <= a < index + size ==> ram'[a] == 0
  {
    forall a | index <= a < index + size
      ensures ram'[a] == 0
    {
      OverlayAt(ram, index, seq(size, _ => 0), a);
    }
  }

  /** Whether found or made, the chosen slab has a free object and nothing live changed. */
  lemma ChosenSlab(h: Heap, m: Heap, p: nat, c: nat, idle: set<nat>)
    requires h.Consistent({}) && c < KMALLOC_CACHES
    requires (m == h && HasFree(h.slabs, p, c) && idle == {}) || (MadeSlab(h, m, p, c) && idle == {p})
    ensures HasFree(m.slabs, p, c) && idle <= {p}
    ensures m.owned == h.owned && m.base == h.base && |m.ram| == |h.ram|
    ensures forall x :: m.IsLive(x) <==> h.IsLive(x)
    ensures forall x :: h.IsLive(x) ==> Unmoved(h, m, x)
  {
    if m != h {
      LiveAfterMade(h, m, p, c);
      CacheGeometry(c);
    }
  }

  /** What a slab with a free object offers to slab_alloc. */
  ghost predicate Offers(h: Heap, p: nat) {
    && h.Sized() && h.Managed(p) && !h.map'[p - h.base].buddy && p in h.slabs && h.slabs[p].chain != []
    && OnPartial(h.lists, p, h.slabs[p].cache)
    && var at := Off(h.slabs[p].cache, h.slabs[p].chain[0]);
       && at + WORD_SIZE <= PAGE_SIZE && h.map'[p - h.base].freelist == Va(p) + at
       && (WordAt(h.ram, RamOff(h.base, p) + at) == 0 <==> |h.slabs[p].chain| == 1)
  }

  lemma HeapOffers(h: Heap, p: nat, idle: set<nat>)
    requires h.Consistent(idle) && p in h.slabs && h.slabs[p].chain != []
    ensures Offers(h, p)
  {
    var slab := h.slabs[p];
    assert h.SlabAt(p) && HasFree(h.slabs, p, slab.cache);
    assert OnPartial(h.lists, p, slab.cache);
    hide Heap.SlabsStored, Heap.SlabFlags, Heap.LargeStored, PartialsOk, WordAt, Off, PageBytes, Heap.Partition;
    PopObject(PageBytes(h.ram, h.base, p), Va(p), h.map'[p - h.base], slab);
    PageWord(h.ram, h.base, p, Off(slab.cache, slab.chain[0]));
  }

  /** `g` is `h` with the first free object of slab `p` taken. */
  ghost predicate Popped(h: Heap, g: Heap, p: nat) {
    && Offers(h, p) && Partial(h.slabs[p].cache) in h.lists
    && g.base == h.base && g.free == h.free && g.large == h.large && g.owned == h.owned && g.ram == h.ram
    && g.slabs == h.slabs[p := h.slabs[p].(chain := h.slabs[p].chain[1..])]
    && var c := h.slabs[p].cache;
       var fp, page := WordAt(h.ram, RamOff(h.base, p) + Off(c, h.slabs[p].chain[0])), h.map'[p - h.base];
       && g.map' == h.map'[p - h.base := page.(freelist := fp, inuse := page.inuse + 1)]
       && g.lists == if fp == 0 then h.lists[Partial(c) := Without(h.lists[Partial(c)], Lru(p))] else h.lists
  }

  lemma ObjectTaken(h: Heap, g: Heap, p: nat, idle: set<nat>)
    requires h.Consistent(idle) && idle <= {p} && Separate(h.lists) && Popped(h, g, p)
    ensures g.Consistent({})
  {
    var slab := h.slabs[p].(chain := h.slabs[p].chain[1..]);
    PoppedOk(h, g, p, slab);
    PoppedPartial(h, g, p, slab);
    SlabInNoBlock(h, p);
    assert OnlyPage(h, g, p) by { hide PageBytes; }
    assert p in h.owned && p !in h.free;
    hide SlabOk, Heap.SlabsStored, Heap.SlabFlags, Heap.LargeStored, PartialsOk, OnlyPageLinked, OnlyPage, InBlocks, WordAt,
         Off, PageBytes, Heap.Partition;
    assert g.owned == h.owned + {p};
    SlabEdit(h, g, p, slab, idle);
    assert idle - {p} == {};
  }

  lemma PoppedOk(h: Heap, g: Heap, p: nat, slab: Slab)
    requires h.Sized() && h.SlabsStored() && Popped(h, g, p)
    requires slab == h.slabs[p].(chain := h.slabs[p].chain[1..])
    ensures SlabOk(PageBytes(g.ram, g.base, p), Va(p), g.map'[p - g.base], slab)
    ensures g.map'[p - g.base].inuse > 0
  {
    assert h.SlabAt(p);
    hide Off, WordAt, PageBytes;
    PopObject(PageBytes(h.ram, h.base, p), Va(p), h.map'[p - h.base], h.slabs[p]);
    PageWord(h.ram, h.base, p, Off(slab.cache, h.slabs[p].chain[0]));
  }

  /** What a live object offers to slab_free. */
  ghost predicate Takes(h: Heap, p: nat, slot: nat) {
    && h.Sized() && h.Managed(p) && p in h.slabs && h.slabs[p].cache < KMALLOC_CACHES
    && slot < Objects(h.slabs[p].cache) && slot !in h.slabs[p].chain
    && var page := h.map'[p - h.base];
       !page.buddy && page.slab && page.inuse > 0 && page.cache == h.slabs[p].cache && page.freelist == Link(Va(p), h.slabs[p], 0)
  }

  lemma LiveFacts(h: Heap, p: nat, slot: nat)
    requires h.Consistent({}) && h.IsLive(Small(p, slot))
    ensures Takes(h, p, slot)
  {
    assert h.SlabAt(p);
    hide Off, PageBytes;
    PushObject(PageBytes(h.ram, h.base, p), Va(p), h.map'[p - h.base], h.slabs[p], slot);
  }

  /** Storage changed in the first word of object `slot` of slab `p` alone, which took the old freelist. */
  ghost predicate WordStored(h: Heap, g: Heap, p: nat, slot: nat)
    requires p in h.slabs && h.Sized() && h.Managed(p)
  {
    var at := Off(h.slabs[p].cache, slot);
    && at + WORD_SIZE <= PAGE_SIZE && RamOnlyPage(h.ram, g.ram, h.base, |h.map'|, p)
    && PageBytes(g.ram, h.base, p) ==
         Overlay(PageBytes(h.ram, h.base, p), at, ToBytes(h.map'[p - h.base].freelist, WORD_SIZE))
  }

  /** `g` is `h` with the live object `slot` of slab `p` pushed on the chain; lists and slab map not yet updated. */
  ghost predicate PushedBack(h: Heap, g: Heap, p: nat, slot: nat) {
    && Takes(h, p, slot)
    && g.lists == h.lists && g.base == h.base && g.free == h.free && g.large == h.large && g.owned == h.owned
    && g.slabs == h.slabs && WordStored(h, g, p, slot)
    && var page, at := h.map'[p - h.base], Off(h.slabs[p].cache, slot);
       && g.map' == h.map'[p - h.base := page.(freelist := Va(p) + at, inuse := page.inuse - 1)]
  }

  /** `g` is `h` after slab_free of object `slot` of slab `p`: the chain grew, or the slab is gone. */
  ghost predicate Returned(h: Heap, g: Heap, p: nat, slot: nat) {
    && p in h.slabs && h.Sized() && h.Managed(p)
    && g.large == h.large && g.owned == h.owned && g.base == h.base && |g.map'| == |h.map'|
    && WordStored(h, g, p, slot)
    && var slab := h.slabs[p];
       && (if |slab.chain| + 1 == Objects(slab.cache)
           then g.slabs == h.slabs - {p} && g.free == h.free + {p}
           else g.slabs == h.slabs[p := slab.(chain := [slot] + slab.chain)] && g.free == h.free)
  }

  lemma ReturnFacts(h: Heap, k: Heap, p: nat, slot: nat)
    requires h.Consistent({}) && PushedBack(h, k, p, slot)
    ensures p in h.slabs && h.Sized() && h.Managed(p) && h.base == k.base && |k.map'| == |h.map'| && p in h.owned
    ensures WordStored(h, k, p, slot)
    ensures p !in h.free && !k.map'[p - k.base].buddy && h.slabs[p].cache < KMALLOC_CACHES
    ensures k.map'[p - k.base].inuse == 0 <==> |h.slabs[p].chain| + 1 == Objects(h.slabs[p].cache)
    ensures k.map'[p - k.base].inuse == 0 ==> h.slabs[p].chain != []
    ensures Link(Va(p), h.slabs[p], 0) == 0 <==> h.slabs[p].chain == []
    ensures Partial(h.slabs[p].cache) in h.lists
    ensures OnPartial(h.lists, p, h.slabs[p].cache) <==> h.slabs[p].chain != []
  {
    hide Off, PageBytes, Overlay, ToBytes, RamOnlyPage, ChainStored, Heap.SlabFlags, Heap.LargeStored, WordAt;
    var c := h.slabs[p].cache;
    assert h.SlabAt(p);
    ReturnListed(h, p);
    CacheGeometry(c);
    hide Objects, PartialsOk, Heap.SlabsStored;
  }

  lemma ReturnListed(h: Heap, p: nat)
    requires PartialsOk(h.lists, h.slabs) && p in h.slabs && h.slabs[p].cache < KMALLOC_CACHES
    ensures Partial(h.slabs[p].cache) in h.lists
    ensures OnPartial(h.lists, p, h.slabs[p].cache) <==> h.slabs[p].chain != []
  {
    var c := h.slabs[p].cache;
    assert OnPartial(h.lists, p, c) <==> HasFree(h.slabs, p, c);
  }

  lemma SlabListed(h: Heap, p: nat, idle: set<nat>)
    requires h.Consistent(idle) && p in h.slabs && h.slabs[p].chain != []
    ensures OnPartial(h.lists, p, h.slabs[p].cache)
  {
    assert HasFree(h.slabs, p, h.slabs[p].cache);
  }

  lemma LiveCache(h: Heap, p: nat, slot: nat)
    requires h.Consistent({}) && h.IsLive(Small(p, slot))
    ensures h.Managed(p) && h.map'[p - h.base].cache == h.slabs[p].cache
  {
    LiveFacts(h, p, slot);
  }

  lemma ObjectReturned(h: Heap, k: Heap, g: Heap, p: nat, slot: nat)
    requires h.Consistent({}) && PushedBack(h, k, p, slot) && Partial(h.slabs[p].cache) in h.lists
    requires g.base == h.base && g.free == h.free && g.large == h.large && g.owned == h.owned && g.ram == k.ram
    requires g.map' == k.map' && g.slabs == h.slabs[p := h.slabs[p].(chain := [slot] + h.slabs[p].chain)]
    requires g.lists == if h.slabs[p].chain == [] then
               h.lists[Partial(h.slabs[p].cache) := [Lru(p)] + h.lists[Partial(h.slabs[p].cache)]] else h.lists
    ensures g.Consistent(if |h.slabs[p].chain| + 1 == Objects(h.slabs[p].cache) then {p} else {})
    ensures p in g.slabs && g.Managed(p)
  {
    hide SlabOk, Heap.SlabsStored, Heap.SlabFlags, Heap.LargeStored, PartialsOk, OnlyPageLinked, InBlocks, Off, PageBytes,
         Objects, Heap.Partition, RamOnlyPage, Overlay, ToBytes, Link, HasFree, OnPartial, ChainShape;
    var slab := h.slabs[p].(chain := [slot] + h.slabs[p].chain);
    ReturnFacts(h, k, p, slot);
    ReturnedOk(h, k, p, slot);
    ReturnedPartial(h, g, p, slab);
    SlabInNoBlock(h, p);
    ReturnedEdit(h, k, g, p, slot, slab);
    SlabEdit(h, g, p, slab, {});
    assert {} + {p} == {p} && {} - {p} == {};
  }

  lemma ReturnedEdit(h: Heap, k: Heap, g: Heap, p: nat, slot: nat, slab: Slab)
    requires PushedBack(h, k, p, slot) && p in h.owned && OnlyPageLinked(h.lists, g.lists, p)
    requires g.base == h.base && g.free == h.free && g.large == h.large && g.owned == h.owned && g.ram == k.ram
    requires g.map' == k.map' && g.slabs == h.slabs[p := slab]
    ensures SlabEdited(h, g, p, slab) && |g.ram| == |h.ram| && g.Managed(p)
  {
    hide OnlyPageLinked, Off, PageBytes, Overlay, ToBytes, Objects;
    assert g.owned == h.owned + {p};
  }

  lemma ReturnedOk(h: Heap, k: Heap, p: nat, slot: nat)
    requires h.Sized() && h.SlabsStored() && PushedBack(h, k, p, slot)
    ensures SlabOk(PageBytes(k.ram, k.base, p), Va(p), k.map'[p - k.base], h.slabs[p].(chain := [slot] + h.slabs[p].chain))
  {
    assert h.SlabAt(p);
    hide Off, PageBytes, Overlay, ToBytes;
    PushObject(PageBytes(h.ram, h.base, p), Va(p), h.map'[p - h.base], h.slabs[p], slot);
  }

  lemma ReturnedPartial(h: Heap, g: Heap, p: nat, slab: Slab)
    requires PartialsOk(h.lists, h.slabs) && p in h.slabs && slab.cache == h.slabs[p].cache && slab.chain != []
    requires g.slabs == h.slabs[p := slab] && Partial(slab.cache) in h.lists && slab.cache < KMALLOC_CACHES
    requires g.lists == if h.slabs[p].chain == [] then
               h.lists[Partial(slab.cache) := [Lru(p)] + h.lists[Partial(slab.cache)]] else h.lists
    ensures PartialsOk(g.lists, g.slabs) && OnlyPageLinked(h.lists, g.lists, p)
  {
    if h.slabs[p].chain == [] {
      PartialAdd(h.lists, h.slabs, p, slab);
      LinkOnly(h.lists, Partial(slab.cache), p);
    } else {
      PartialSame(h.lists, h.slabs, p, slab);
    }
  }

  lemma SlabGone(h: Heap, g: Heap, p: nat, c: nat)
    requires h.Consistent({p}) && p in h.slabs && h.slabs[p].cache == c && h.slabs[p].chain != [] && h.Managed(p)
    requires Partial(c) in h.lists && g.lists == h.lists[Partial(c) := Without(h.lists[Partial(c)], Lru(p))]
    requires Separate(h.lists) && g.ram == h.ram && g.base == h.base && g.free == h.free && g.large == h.large
    requires g.owned == h.owned - {p} && g.slabs == h.slabs - {p}
    requires g.map' == h.map'[p - h.base := h.map'[p - h.base].(slab := false)]
    requires Unlinked(g.lists, Lru(p))
    ensures g.Consistent({}) && Loose(g, p, 0)
  {
    assert HasFree(h.slabs, p, c);
    PartialDel(h.lists, h.slabs, p, c, g.slabs);
    UnlinkOnly(h.lists, Partial(c), p);
    hide Heap.SlabsStored, Heap.SlabFlags, Heap.LargeStored, PartialsOk, OnlyPageLinked, Heap.Partition, Unlinked, Loose;
    DropSlab(h, g, p);
  }

  /** After a pop the slab is listed exactly if its chain is not empty. */
  lemma PoppedPartial(h: Heap, g: Heap, p: nat, slab: Slab)
    requires PartialsOk(h.lists, h.slabs) && Separate(h.lists) && p in h.slabs && h.slabs[p].chain != []
    requires slab == h.slabs[p].(chain := h.slabs[p].chain[1..]) && g.slabs == h.slabs[p := slab]
    requires Partial(slab.cache) in h.lists
    requires g.lists == if slab.chain == [] then h.lists[Partial(slab.cache) := Without(h.lists[Partial(slab.cache)], Lru(p))]
                        else h.lists
    ensures PartialsOk(g.lists, g.slabs) && OnlyPageLinked(h.lists, g.lists, p)
  {
    if slab.chain == [] {
      assert HasFree(h.slabs, p, slab.cache);
      PartialDel(h.lists, h.slabs, p, slab.cache, g.slabs);
      UnlinkOnly(h.lists, Partial(slab.cache), p);
    } else {
      PartialSame(h.lists, h.slabs, p, slab);
    }
  }

  lemma SingleBlock(p: nat)
    ensures Block(p, 0) == {p}
  {
  }

  lemma NoFreePage(free: set<nat>)
    ensures (forall p: nat :: !FreeBlock(free, p, 0)) <==> free == {}
  {
    assert forall p: nat :: p in free ==> FreeBlock(free, p, 0);
    assert forall p: nat :: p in Block(p, 0);
  }

  /** `g` is `h` with the free page `p` turned into a slab of cache `c`, all objects free. */
  ghost predicate MadeSlab(h: Heap, g: Heap, p: nat, c: nat) {
    && p in h.free && p !in h.slabs && g.free == h.free - {p} && g.slabs == h.slabs[p := Slab(c, AllSlots(c))]
    && g.large == h.large && g.owned == h.owned && g.base == h.base && |g.map'| == |h.map'|
    && RamOnlyPage(h.ram, g.ram, h.base, |h.map'|, p)
  }

  lemma EmptyHeap(h: Heap)
    requires h.Sized() && h.slabs == map[] && h.large == map[] && h.owned == h.free
    requires PartialsFrom(h.lists, KMALLOC_CACHES)
    requires forall i :: 0 <= i < |h.map'| ==> !h.map'[i].slab
    ensures h.Consistent({})
  {
    assert forall x :: !InBlocks(h.large, x);
  }
}
