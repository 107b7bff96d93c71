/** kmalloc over single-page slabs and whole-page blocks (mm/slab.c). */
module SlabHeap {
  import opened Machine
  import opened PowersOfTwo
  import opened BuddyBlocks
  import opened IntrusiveList
  import opened Words
  import opened PageAlloc
  import opened SlabPages

  /** `__va(x) == x + VA_OFFSET` */
  const VA_OFFSET: nat := PAGE_OFFSET - PHYS_OFFSET

  /** What kmalloc hands out: an object of a slab, or a whole block of pages. */
  datatype Object = Small(pfn: nat, slot: nat) | Big(pfn: nat)

  /** The kernel address of a page. */
  function Va(pfn: nat): nat { pfn * PAGE_SIZE + VA_OFFSET }

  function RamOff(base: nat, pfn: nat): nat
    requires base <= pfn
  {
    (pfn - base) * PAGE_SIZE
  }

  /** The contents of a page. */
  ghost function PageBytes(ram: seq<Byte>, base: nat, pfn: nat): (r: seq<Byte>)
    requires base <= pfn && RamOff(base, pfn) + PAGE_SIZE <= |ram|
    ensures |r| == PAGE_SIZE
  {
    ram[RamOff(base, pfn)..RamOff(base, pfn) + PAGE_SIZE]
  }

  /** Storing within one page changes that page alone. */
  lemma PageOverlay(ram: seq<Byte>, base: nat, pfn: nat, off: nat, t: seq<Byte>, other: nat)
    requires base <= pfn && RamOff(base, pfn) + PAGE_SIZE <= |ram| && off + |t| <= PAGE_SIZE
    requires base <= other && RamOff(base, other) + PAGE_SIZE <= |ram|
    ensures var ram' := Overlay(ram, RamOff(base, pfn) + off, t);
            PageBytes(ram', base, other) ==
            if other == pfn then Overlay(PageBytes(ram, base, pfn), off, t) else PageBytes(ram, base, other)
  {
    hide RamOff, Overlay;
    var r := RamOff(base, other);
    PagesApart(base, pfn, other);
    if other == pfn {
      OverlayWithin(ram, r, r + PAGE_SIZE, off, t);
    } else {
      OverlaySlice(ram, RamOff(base, pfn) + off, t, r, r + PAGE_SIZE);
    }
  }

  lemma PagesApart(base: nat, p: nat, q: nat)
    requires base <= p && base <= q
    ensures p < q ==> RamOff(base, p) + PAGE_SIZE <= RamOff(base, q)
    ensures q < p ==> RamOff(base, q) + PAGE_SIZE <= RamOff(base, p)
  {
  }

  /** Two memories of `n` pages from `base` differ only in page `p`. */
  ghost predicate RamOnlyPage(ram: seq<Byte>, ram': seq<Byte>, base: nat, n: nat, p: nat) {
    && |ram| == |ram'| == n * PAGE_SIZE
    && forall q: nat :: base <= q < base + n && q != p ==> PageBytes(ram', base, q) == PageBytes(ram, base, q)
  }

  lemma RamOnlyPageTransitive(a: seq<Byte>, b: seq<Byte>, c: seq<Byte>, base: nat, n: nat, p: nat)
    requires RamOnlyPage(a, b, base, n, p) && RamOnlyPage(b, c, base, n, p)
    ensures RamOnlyPage(a, c, base, n, p)
  {
    hide PageBytes;
  }

  ghost predicate OnPartial(lists: Lists, p: nat, c: nat) {
    Partial(c) in lists && Lru(p) in lists[Partial(c)]
  }

  ghost predicate HasFree(slabs: map<nat, Slab>, p: nat, c: nat) {
    p in slabs && slabs[p].cache == c && slabs[p].chain != []
  }

  /** Each cache lists exactly its slabs that have a free object. */
  ghost predicate PartialsOk(lists: Lists, slabs: map<nat, Slab>) {
    && (forall c: nat :: c < KMALLOC_CACHES ==> Partial(c) in lists)
    && (forall c: nat, n :: Partial(c) in lists && n in lists[Partial(c)] ==> n.Lru?)
    && (forall p: nat, c: nat :: OnPartial(lists, p, c) <==> HasFree(slabs, p, c))
  }

  /** A slab that gains its first free object is listed. */
  lemma PartialAdd(lists: Lists, slabs: map<nat, Slab>, p: nat, slab: Slab)
    requires PartialsOk(lists, slabs) && slab.cache < KMALLOC_CACHES && slab.chain != []
    requires forall c: nat :: !HasFree(slabs, p, c)
    ensures PartialsOk(lists[Partial(slab.cache) := [Lru(p)] + lists[Partial(slab.cache)]], slabs[p := slab])
  {
    var s := [Lru(p)] + lists[Partial(slab.cache)];
    var lists' := lists[Partial(slab.cache) := s];
    assert forall n :: n in s <==> n == Lru(p) || n in lists[Partial(slab.cache)];
    forall q: nat, c: nat
      ensures OnPartial(lists', q, c) <==> HasFree(slabs[p := slab], q, c)
    {
      assert OnPartial(lists, q, c) <==> HasFree(slabs, q, c);
      assert q == p ==> !HasFree(slabs, q, c);
    }
  }

  /** A slab that loses its last free object, or is given up, is unlisted. */
  lemma PartialDel(lists: Lists, slabs: map<nat, Slab>, p: nat, c: nat, slabs': map<nat, Slab>)
    requires PartialsOk(lists, slabs) && Separate(lists) && HasFree(slabs, p, c)
    requires forall q: nat, d: nat :: HasFree(slabs', q, d) <==> HasFree(slabs, q, d) && q != p
    ensures OnPartial(lists, p, c)
    ensures PartialsOk(lists[Partial(c) := Without(lists[Partial(c)], Lru(p))], slabs')
  {
    assert OnPartial(lists, p, c) <==> HasFree(slabs, p, c);
    var s := Without(lists[Partial(c)], Lru(p));
    WithoutMembers(lists[Partial(c)], Lru(p));
    var lists' := lists[Partial(c) := s];
    forall q: nat, d: nat
      ensures OnPartial(lists', q, d) <==> HasFree(slabs', q, d)
    {
      assert OnPartial(lists, q, d) <==> HasFree(slabs, q, d);
    }
  }

  /** A slab that has a free object before and after, or neither, stays as it is. */
  lemma PartialSame(lists: Lists, slabs: map<nat, Slab>, p: nat, slab: Slab)
    requires PartialsOk(lists, slabs) && p in slabs && slab.cache == slabs[p].cache
    requires slab.chain == [] <==> slabs[p].chain == []
    ensures PartialsOk(lists, slabs[p := slab])
  {
    assert forall q: nat, c: nat :: HasFree(slabs[p := slab], q, c) <==> HasFree(slabs, q, c);
  }

  ghost predicate BlocksApart(large: map<nat, nat>) {
    forall p, q :: p in large && q in large && p != q ==> Block(p, large[p]) !! Block(q, large[q])
  }

  ghost predicate InBlocks(large: map<nat, nat>, x: nat) {
    exists p :: p in large && x in Block(p, large[p])
  }

  lemma BlocksAdd(large: map<nat, nat>, p: nat, k: nat)
    requires BlocksApart(large) && (forall x :: x in Block(p, k) ==> !InBlocks(large, x))
    ensures p !in large && BlocksApart(large[p := k])
    ensures forall x :: InBlocks(large[p := k], x) <==> InBlocks(large, x) || x in Block(p, k)
  {
    var more := large[p := k];
    assert p in Block(p, k);
    forall x
      ensures InBlocks(more, x) <==> InBlocks(large, x) || x in Block(p, k)
    {
      if x in Block(p, k) {
        assert p in more && x in Block(p, more[p]);
      } else if InBlocks(large, x) {
        var q :| q in large && x in Block(q, large[q]);
        assert q in more && x in Block(q, more[q]);
      }
    }
    forall q, x | q in large && x in Block(q, large[q])
      ensures x !in Block(p, k)
    {
      assert InBlocks(large, x);
    }
  }

  lemma BlocksDrop(large: map<nat, nat>, p: nat)
    requires BlocksApart(large) && p in large
    ensures BlocksApart(large - {p})
    ensures forall x :: InBlocks(large - {p}, x) <==> InBlocks(large, x) && x !in Block(p, large[p])
  {
    var less := large - {p};
    forall x
      ensures InBlocks(less, x) <==> InBlocks(large, x) && x !in Block(p, large[p])
    {
      if InBlocks(large, x) && x !in Block(p, large[p]) {
        var q :| q in large && x in Block(q, large[q]);
        assert q in less && x in Block(q, less[q]);
      }
    }
  }

  /** A word within a page, read through the whole memory. */
  lemma PageWord(ram: seq<Byte>, base: nat, pfn: nat, off: nat)
    requires base <= pfn && RamOff(base, pfn) + PAGE_SIZE <= |ram| && off + WORD_SIZE <= PAGE_SIZE
    ensures WordAt(PageBytes(ram, base, pfn), off) == WordAt(ram, RamOff(base, pfn) + off)
  {
    var r := RamOff(base, pfn);
    var page := ram[r..r + PAGE_SIZE];
    var inner, outer := page[off..off + WORD_SIZE], ram[r + off..r + off + WORD_SIZE];
    forall i | 0 <= i < WORD_SIZE
      ensures inner[i] == outer[i]
    {
      assert inner[i] == page[off + i] && outer[i] == ram[r + off + i];
    }
    assert inner == outer;
  }

  lemma LinkOnly(lists: Lists, h: Node, p: nat)
    requires h in lists
    ensures OnlyPageLinked(lists, lists[h := [Lru(p)] + lists[h]], p)
  {
  }

  lemma UnlinkOnly(lists: Lists, h: Node, p: nat)
    requires h in lists && Lru(p) in lists[h] && Separate(lists)
    ensures OnlyPageLinked(lists, lists[h := Without(lists[h], Lru(p))], p)
  {
    WithoutMembers(lists[h], Lru(p));
  }

  /** Everything kmalloc keeps, as a value. */
  datatype Heap = Heap(lists: Lists, map': seq<Page>, ram: seq<Byte>, base: nat, free: set<nat>,
                       slabs: map<nat, Slab>, large: map<nat, nat>, owned: set<nat>)
  {
    ghost predicate Managed(p: nat) { base <= p < base + |map'| }

    ghost predicate Sized() {
      |ram| == |map'| * PAGE_SIZE && Va(base + |map'|) < Pow256(WORD_SIZE)
    }

    /** Page `p` is a slab represented by its descriptor and contents. */
    ghost predicate SlabAt(p: nat)
      requires Sized()
    {
      && p in slabs && Managed(p)
      && SlabOk(PageBytes(ram, base, p), Va(p), map'[p - base], slabs[p])
    }

    ghost predicate SlabsStored()
      requires Sized()
    {
      forall p :: p in slabs ==> SlabAt(p)
    }

    /** The slab flag marks exactly the slabs, and only pages in `idle` have no live object. */
    ghost predicate SlabFlags(idle: set<nat>) {
      forall p: nat :: Managed(p) ==>
        && (map'[p - base].slab <==> p in slabs)
        && (p in slabs && map'[p - base].inuse == 0 ==> p in idle)
    }

    ghost predicate PartialsMatch() {
      PartialsOk(lists, slabs)
    }

    /** Block `p` is out on loan as whole pages and its order is recorded. */
    ghost predicate LargeAt(p: nat) {
      && p in large && Managed(p) && map'[p - base].order == large[p]
      && large[p] < MAX_ORDER && Aligned(p, large[p])
      && (forall x :: x in Block(p, large[p]) ==>
            Managed(x) && x !in free && x !in slabs && Unlinked(lists, Lru(x)))
    }

    ghost predicate LargeStored() {
      && (forall p :: p in large ==> LargeAt(p))
      && BlocksApart(large)
    }

    ghost predicate InLarge(x: nat) {
      InBlocks(large, x)
    }

    /** Free pages, slab pages and large-block pages partition what kmalloc was given. */
    ghost predicate Partition() {
      && (forall p :: p in slabs ==> p !in free)
      && (forall x :: x in owned <==> x in free || x in slabs || InLarge(x))
    }

    ghost predicate Consistent(idle: set<nat>) {
      Sized() && SlabsStored() && SlabFlags(idle) && PartialsMatch() && LargeStored() && Partition()
    }

    ghost predicate IsLive(o: Object) {
      match o
      case Small(p, s) => p in slabs && s < Objects(slabs[p].cache) && s !in slabs[p].chain
      case Big(p) => p in large
    }

    /** The bytes of a live object: from Start, Length long. */
    ghost function Start(o: Object): nat
      requires IsLive(o)
    {
      match o
      case Small(p, s) => Va(p) + Off(slabs[p].cache, s)
      case Big(p) => Va(p)
    }

    ghost function Length(o: Object): nat
      requires IsLive(o)
    {
      match o
      case Small(p, s) => ObjSize(slabs[p].cache)
      case Big(p) => Pow2(large[p]) * PAGE_SIZE
    }
  }

  /** Slabs, their descriptors, their contents and their lists are the same. */
  ghost predicate SlabsSame(h: Heap, g: Heap) {
    && g.ram == h.ram && g.base == h.base && g.slabs == h.slabs && |g.map'| == |h.map'|
    && OtherListsSame(h.lists, g.lists)
    && forall p: nat :: h.Managed(p) ==>
         && g.map'[p - h.base].slab == h.map'[p - h.base].slab
         && (p in h.slabs ==> g.map'[p - h.base] == h.map'[p - h.base])
  }

  ghost predicate SlabPart(h: Heap, idle: set<nat>) {
    h.Sized() && h.SlabsStored() && h.SlabFlags(idle) && h.PartialsMatch()
  }

  lemma SlabPartKept(h: Heap, g: Heap, idle: set<nat>)
    requires SlabPart(h, idle) && SlabsSame(h, g)
    ensures SlabPart(g, idle)
  {
    hide SlabOk;
    forall q | q in g.slabs
      ensures g.SlabAt(q)
    {
      assert h.SlabAt(q);
    }
    assert forall p: nat, c: nat :: OnPartial(g.lists, p, c) <==> OnPartial(h.lists, p, c);
  }

  /** Pages outside the free set gained no links. */
  ghost predicate NoNewLinks(lists: Lists, lists': Lists, free: set<nat>) {
    forall x: nat :: x !in free && Unlinked(lists, Lru(x)) ==> Unlinked(lists', Lru(x))
  }

  /** Large block `p` is untouched: its descriptor, and nothing new holds or links its pages. */
  lemma LargeKept(h: Heap, g: Heap, p: nat)
    requires h.LargeAt(p) && p in g.large && g.large[p] == h.large[p] && g.base == h.base && |g.map'| == |h.map'|
    requires g.map'[p - g.base].order == h.map'[p - h.base].order
    requires forall x :: x in Block(p, h.large[p]) ==>
               x !in g.free && x !in g.slabs && (Unlinked(h.lists, Lru(x)) ==> Unlinked(g.lists, Lru(x)))
    ensures g.LargeAt(p)
  {
  }

  /** The page allocator changed only its own lists and the descriptors of free pages. */
  ghost predicate BuddyStep(h: Heap, g: Heap) {
    && g.ram == h.ram && g.base == h.base && g.slabs == h.slabs && g.large == h.large
    && OnlyBuddyChanged(h.map', g.map', h.base, h.free + g.free)
    && OtherListsSame(h.lists, g.lists) && NoNewLinks(h.lists, g.lists, g.free)
    && (forall p :: p in h.slabs ==> p !in h.free + g.free)
    && (forall x :: InBlocks(h.large, x) ==> x !in h.free + g.free)
  }

  lemma BuddyStepLarge(h: Heap, g: Heap)
    requires h.LargeStored() && BuddyStep(h, g)
    ensures g.LargeStored()
  {
    hide OtherListsSame, OnlyBuddyChanged, NoNewLinks, InBlocks, BlocksApart, Heap.LargeAt;
    forall p | p in g.large
      ensures g.LargeAt(p)
    {
      assert h.LargeAt(p);
      BuddyStepBlock(h, g, p);
    }
  }

  lemma BuddyStepBlock(h: Heap, g: Heap, p: nat)
    requires h.LargeAt(p) && BuddyStep(h, g)
    ensures g.LargeAt(p)
  {
    hide OtherListsSame, Unlinked, Block, OnlyBuddyChanged, Aligned;
    OwnPage(p, h.large[p]);
    assert |g.map'| == |h.map'| by { SameLength(h.map', g.map', h.base, h.free + g.free); }
    forall x | x in Block(p, h.large[p])
      ensures x !in h.free + g.free
    {
      assert InBlocks(h.large, x);
    }
    DescriptorKept(h.map', g.map', h.base, h.free + g.free, p);
  }

  lemma OwnPage(p: nat, k: nat)
    ensures p in Block(p, k)
  {
  }

  lemma SameLength(map': seq<Page>, map'': seq<Page>, base: nat, pfns: set<nat>)
    requires OnlyBuddyChanged(map', map'', base, pfns)
    ensures |map'| == |map''|
  {
  }

  /** What the page allocator promises is a buddy step. */
  lemma BuddyStepOf(h: Heap, g: Heap, idle: set<nat>, block: set<nat>)
    requires h.Consistent(idle)
    requires g.ram == h.ram && g.base == h.base && g.slabs == h.slabs && g.large == h.large
    requires OnlyBuddyChanged(h.map', g.map', h.base, h.free + g.free)
    requires OtherListsSame(h.lists, g.lists) && NoNewLinks(h.lists, g.lists, g.free)
    requires g.free <= h.free + block
    requires forall x :: x in block ==> x !in h.slabs && !InBlocks(h.large, x)
    ensures BuddyStep(h, g)
  {
    hide OnlyBuddyChanged, OtherListsSame, NoNewLinks, Heap.SlabsStored, Heap.SlabFlags, Heap.PartialsMatch;
    forall x | InBlocks(h.large, x)
      ensures x !in h.free + g.free
    {
      var p :| p in h.large && x in Block(p, h.large[p]);
      assert h.LargeAt(p);
    }
  }

  lemma BuddyStepSlabs(h: Heap, g: Heap, idle: set<nat>)
    requires SlabPart(h, idle) && BuddyStep(h, g)
    ensures SlabPart(g, idle)
  {
    hide SlabPart, BuddyStep, SlabsSame;
    BuddyStepSame(h, g);
    SlabPartKept(h, g, idle);
  }

  lemma BuddyStepSame(h: Heap, g: Heap)
    requires BuddyStep(h, g)
    ensures SlabsSame(h, g)
  {
    hide InBlocks, OtherListsSame, NoNewLinks, OnlyBuddyChanged;
    SameLength(h.map', g.map', h.base, h.free + g.free);
    forall p: nat | h.Managed(p)
      ensures g.map'[p - h.base].slab == h.map'[p - h.base].slab
      ensures p in h.slabs ==> g.map'[p - h.base] == h.map'[p - h.base]
    {
      BuddyStepPage(h, g, p);
    }
  }

  lemma BuddyStepPage(h: Heap, g: Heap, p: nat)
    requires BuddyStep(h, g) && h.Managed(p)
    ensures |g.map'| == |h.map'| && g.map'[p - h.base].slab == h.map'[p - h.base].slab
    ensures p in h.slabs ==> g.map'[p - h.base] == h.map'[p - h.base]
  {
    hide InBlocks, OtherListsSame, NoNewLinks, OnlyBuddyChanged;
    SameLength(h.map', g.map', h.base, h.free + g.free);
    DescriptorKept(h.map', g.map', h.base, h.free + g.free, p);
  }

  lemma DescriptorKept(map': seq<Page>, map'': seq<Page>, base: nat, pfns: set<nat>, p: nat)
    requires OnlyBuddyChanged(map', map'', base, pfns) && base <= p < base + |map'|
    ensures map''[p - base].slab == map'[p - base].slab
    ensures p !in pfns ==> map''[p - base] == map'[p - base]
  {
    var i := p - base;
    assert map''[i] == map'[i].(buddy := map''[i].buddy, order := map''[i].order);
  }

  /** Pages moving between the free set and no one keep the partition. */
  lemma PartitionMoved(h: Heap, g: Heap, block: set<nat>)
    requires h.Partition() && BuddyStep(h, g)
    requires (block <= h.free && g.free == h.free - block && g.owned == h.owned - block) ||
             (g.free == h.free + block && g.owned == h.owned + block)
    ensures g.Partition()
  {
    hide InBlocks, OtherListsSame, NoNewLinks, OnlyBuddyChanged;
  }

  /** Block (p, k) left the free pages: it is nobody's until the caller records it. */
  lemma TookConsistent(h: Heap, g: Heap, p: nat, k: nat, idle: set<nat>)
    requires h.Consistent(idle) && Block(p, k) <= h.free && BuddyStep(h, g)
    requires g.free == h.free - Block(p, k) && g.owned == h.owned - Block(p, k)
    ensures g.Consistent(idle)
  {
    BuddyStepSlabs(h, g, idle);
    BuddyStepLarge(h, g);
    PartitionMoved(h, g, Block(p, k));
    hide *;
    CombineParts(g, idle);
  }

  /** Block (p, k), nobody's, joined the free pages. */
  lemma GaveConsistent(h: Heap, g: Heap, p: nat, k: nat, idle: set<nat>)
    requires h.Consistent(idle) && BuddyStep(h, g)
    requires g.free == h.free + Block(p, k) && g.owned == h.owned + Block(p, k)
    ensures g.Consistent(idle)
  {
    BuddyStepSlabs(h, g, idle);
    BuddyStepLarge(h, g);
    PartitionMoved(h, g, Block(p, k));
    hide *;
    CombineParts(g, idle);
  }

  /** Block (p, k) belongs to no one. */
  ghost predicate Loose(h: Heap, p: nat, k: nat) {
    && k < MAX_ORDER && Aligned(p, k)
    && forall x :: x in Block(p, k) ==>
         h.Managed(x) && x !in h.free && x !in h.slabs && !InBlocks(h.large, x) && Unlinked(h.lists, Lru(x))
  }

  /** `g` is `h` with the loose block (p, k) recorded as a large allocation. */
  ghost predicate LargeRecorded(h: Heap, g: Heap, p: nat, k: nat) {
    && h.Managed(p) && g.lists == h.lists && g.ram == h.ram && g.base == h.base && g.free == h.free
    && g.slabs == h.slabs && g.large == h.large[p := k] && g.owned == h.owned + Block(p, k)
    && g.map' == h.map'[p - h.base := h.map'[p - h.base].(order := k)]
  }

  lemma AddLarge(h: Heap, g: Heap, p: nat, k: nat)
    requires h.Consistent({}) && Loose(h, p, k) && LargeRecorded(h, g, p, k)
    ensures g.Consistent({})
  {
    assert p in Block(p, k);
    RecordedSlabs(h, g, p, k);
    LargeApart(h);
    BlocksAdd(h.large, p, k);
    AddLargeStored(h, g, p, k);
    PartitionAdd(h, g, p, k);
    hide *;
    CombineParts(g, {});
  }

  lemma CombineParts(h: Heap, idle: set<nat>)
    requires SlabPart(h, idle) && h.LargeStored() && h.Partition()
    ensures h.Consistent(idle)
  {
  }

  lemma LargeApart(h: Heap)
    requires h.LargeStored()
    ensures BlocksApart(h.large)
  {
  }

  lemma RecordedSlabs(h: Heap, g: Heap, p: nat, k: nat)
    requires SlabPart(h, {}) && LargeRecorded(h, g, p, k) && p !in h.slabs
    ensures SlabPart(g, {})
  {
    SlabPartKept(h, g, {});
  }

  lemma PartitionAdd(h: Heap, g: Heap, p: nat, k: nat)
    requires h.Partition() && LargeRecorded(h, g, p, k)
    requires forall x :: InBlocks(g.large, x) <==> InBlocks(h.large, x) || x in Block(p, k)
    ensures g.Partition()
  {
    hide InBlocks, Block;
  }

  lemma AddLargeStored(h: Heap, g: Heap, p: nat, k: nat)
    requires h.LargeStored() && Loose(h, p, k) && LargeRecorded(h, g, p, k) && BlocksApart(g.large) && p !in h.large
    ensures g.LargeStored()
  {
    hide Unlinked, InBlocks, BlocksApart, Aligned;
    forall q | q in g.large
      ensures g.LargeAt(q)
    {
      if q != p {
        assert h.LargeAt(q);
        LargeKept(h, g, q);
      }
    }
  }

  /** `g` is `h` with large allocation `p` forgotten. */
  ghost predicate LargeForgotten(h: Heap, g: Heap, p: nat) {
    && p in h.large && g.lists == h.lists && g.ram == h.ram && g.base == h.base && g.free == h.free
    && g.slabs == h.slabs && g.large == h.large - {p} && g.owned == h.owned - Block(p, h.large[p])
    && g.map' == h.map'
  }

  lemma DropLarge(h: Heap, g: Heap, p: nat)
    requires h.Consistent({}) && LargeForgotten(h, g, p)
    ensures g.Consistent({}) && Loose(g, p, h.large[p])
  {
    ForgottenSlabs(h, g, p);
    LargeApart(h);
    BlocksDrop(h.large, p);
    DropLargeStored(h, g, p);
    PartitionDrop(h, g, p);
    hide *;
    CombineParts(g, {});
  }

  lemma ForgottenSlabs(h: Heap, g: Heap, p: nat)
    requires SlabPart(h, {}) && LargeForgotten(h, g, p)
    ensures SlabPart(g, {})
  {
    SlabPartKept(h, g, {});
  }

  lemma PartitionDrop(h: Heap, g: Heap, p: nat)
    requires h.Partition() && LargeForgotten(h, g, p)
    requires forall x :: InBlocks(g.large, x) <==> InBlocks(h.large, x) && x !in Block(p, h.large[p])
    requires forall x :: x in Block(p, h.large[p]) ==> x !in h.free && x !in h.slabs
    ensures g.Partition()
  {
    hide InBlocks, Block;
  }

  lemma DropLargeStored(h: Heap, g: Heap, p: nat)
    requires h.LargeStored() && LargeForgotten(h, g, p) && BlocksApart(g.large)
    requires forall x :: InBlocks(g.large, x) <==> InBlocks(h.large, x) && x !in Block(p, h.large[p])
    ensures g.LargeStored() && Loose(g, p, h.large[p])
    ensures forall x :: x in Block(p, h.large[p]) ==> InBlocks(h.large, x) && x !in h.free && x !in h.slabs
  {
    hide Unlinked, BlocksApart, Aligned;
    assert h.LargeAt(p);
    forall q | q in g.large
      ensures g.LargeAt(q)
    {
      assert h.LargeAt(q);
    }
  }

  /** Contents differ only in page `p`. */
  ghost predicate OnlyPage(h: Heap, g: Heap, p: nat) {
    && g.base == h.base && h.Sized() && RamOnlyPage(h.ram, g.ram, h.base, |h.map'|, p)
  }

  /** Pages other than `p` gained no links. */
  ghost predicate OnlyPageLinked(lists: Lists, lists': Lists, p: nat) {
    forall x: nat :: x != p && Unlinked(lists, Lru(x)) ==> Unlinked(lists', Lru(x))
  }

  /** `g` is `h` with page `p` made, or changed as, the slab `slab`. */
  ghost predicate SlabEdited(h: Heap, g: Heap, p: nat, slab: Slab) {
    && h.Managed(p) && g.base == h.base && |g.map'| == |h.map'|
    && OnlyPage(h, g, p) && OnlyPageLinked(h.lists, g.lists, p)
    && g.free == h.free && g.large == h.large && g.owned == h.owned + {p}
    && g.map' == h.map'[p - h.base := g.map'[p - h.base]] && g.slabs == h.slabs[p := slab]
  }

  lemma SlabEdit(h: Heap, g: Heap, p: nat, slab: Slab, idle: set<nat>)
    requires h.Consistent(idle) && SlabEdited(h, g, p, slab) && g.PartialsMatch() && h.Sized() && g.Managed(p)
    requires |g.ram| == |h.ram|
    requires SlabOk(PageBytes(g.ram, g.base, p), Va(p), g.map'[p - g.base], slab)
    requires p !in h.free && !InBlocks(h.large, p)
    ensures g.Consistent(if g.map'[p - g.base].inuse == 0 then idle + {p} else idle - {p})
  {
    hide Heap.SlabsStored, Heap.SlabFlags, Heap.PartialsMatch, Heap.LargeStored, InBlocks, SlabOk, OnlyPage, OnlyPageLinked,
         PageBytes, Heap.Partition;
    var idle' := if g.map'[p - g.base].inuse == 0 then idle + {p} else idle - {p};
    SlabEditSlabs(h, g, p, slab, idle, idle');
    SlabEditLarge(h, g, p, slab);
    SlabEditPartition(h, g, p, slab);
  }

  lemma SlabEditPartition(h: Heap, g: Heap, p: nat, slab: Slab)
    requires h.Partition() && SlabEdited(h, g, p, slab) && p !in h.free
    ensures g.Partition()
  {
    hide OnlyPage, OnlyPageLinked, InBlocks;
  }

  lemma SlabEditSlabs(h: Heap, g: Heap, p: nat, slab: Slab, idle: set<nat>, idle': set<nat>)
    requires h.Sized() && h.SlabsStored() && h.SlabFlags(idle) && SlabEdited(h, g, p, slab)
    requires SlabOk(PageBytes(g.ram, g.base, p), Va(p), g.map'[p - g.base], slab)
    requires idle' == if g.map'[p - g.base].inuse == 0 then idle + {p} else idle - {p}
    ensures g.Sized() && g.SlabsStored() && g.SlabFlags(idle')
  {
    assert g.map'[p - g.base].slab;
    hide OnlyPageLinked, InBlocks, SlabOk, Heap.SlabFlags, PageBytes, Va;
    SlabEditFlags(h, g, p, slab, idle, idle');
    forall q | q in g.slabs
      ensures g.SlabAt(q)
    {
      if q != p { SlabUntouched(h, g, p, slab, q); }
    }
  }

  lemma SlabUntouched(h: Heap, g: Heap, p: nat, slab: Slab, q: nat)
    requires h.Sized() && g.Sized() && h.SlabsStored() && SlabEdited(h, g, p, slab) && q in g.slabs && q != p
    ensures g.SlabAt(q)
  {
    hide OnlyPageLinked, SlabOk, PageBytes, Va;
    assert h.SlabAt(q);
  }

  lemma SlabEditFlags(h: Heap, g: Heap, p: nat, slab: Slab, idle: set<nat>, idle': set<nat>)
    requires h.SlabFlags(idle) && SlabEdited(h, g, p, slab) && g.map'[p - g.base].slab
    requires idle' == if g.map'[p - g.base].inuse == 0 then idle + {p} else idle - {p}
    ensures g.SlabFlags(idle')
  {
    hide OnlyPageLinked, OnlyPage;
  }

  lemma SlabEditLarge(h: Heap, g: Heap, p: nat, slab: Slab)
    requires h.LargeStored() && SlabEdited(h, g, p, slab) && !InBlocks(h.large, p)
    ensures g.LargeStored()
  {
    hide OnlyPage, BlocksApart, Unlinked;
    forall q | q in g.large
      ensures g.LargeAt(q)
    {
      assert h.LargeAt(q) && q in Block(q, h.large[q]);
      assert forall x :: x in Block(q, h.large[q]) ==> InBlocks(h.large, x);
      LargeKept(h, g, q);
    }
  }

  /** `g` is `h` with the idle slab `p` given up. */
  ghost predicate SlabDropped(h: Heap, g: Heap, p: nat) {
    && p in h.slabs && h.Managed(p) && g.ram == h.ram && g.base == h.base
    && OnlyPageLinked(h.lists, g.lists, p) && Unlinked(g.lists, Lru(p))
    && g.free == h.free && g.large == h.large && g.owned == h.owned - {p} && g.slabs == h.slabs - {p}
    && g.map' == h.map'[p - h.base := h.map'[p - h.base].(slab := false)]
  }

  lemma DropSlab(h: Heap, g: Heap, p: nat)
    requires h.Consistent({p}) && SlabDropped(h, g, p) && g.PartialsMatch()
    ensures g.Consistent({}) && Loose(g, p, 0)
  {
    SlabInNoBlock(h, p);
    DropSlabSlabs(h, g, p);
    DropSlabLarge(h, g, p);
    DropSlabPartition(h, g, p);
    hide *;
    CombineParts(g, {});
  }

  lemma DropSlabPartition(h: Heap, g: Heap, p: nat)
    requires h.Partition() && SlabDropped(h, g, p) && !InBlocks(h.large, p)
    ensures g.Partition() && Loose(g, p, 0)
  {
    assert forall x: nat :: x in Block(p, 0) ==> x == p;
    hide InBlocks, Unlinked, OnlyPageLinked;
  }

  lemma SlabInNoBlock(h: Heap, p: nat)
    requires h.LargeStored() && p in h.slabs
    ensures !InBlocks(h.large, p)
  {
    forall q | q in h.large
      ensures p !in Block(q, h.large[q])
    {
      assert h.LargeAt(q);
    }
  }

  lemma DropSlabSlabs(h: Heap, g: Heap, p: nat)
    requires h.Sized() && h.SlabsStored() && h.SlabFlags({p}) && SlabDropped(h, g, p)
    ensures g.Sized() && g.SlabsStored() && g.SlabFlags({})
  {
    hide OnlyPageLinked, Unlinked, SlabOk, PageBytes, Va;
    forall q | q in g.slabs
      ensures g.SlabAt(q)
    {
      assert h.SlabAt(q);
    }
  }

  lemma DropSlabLarge(h: Heap, g: Heap, p: nat)
    requires h.LargeStored() && SlabDropped(h, g, p) && !InBlocks(h.large, p)
    ensures g.LargeStored()
  {
    hide BlocksApart, Unlinked;
    forall q | q in g.large
      ensures g.LargeAt(q)
    {
      assert h.LargeAt(q) && q in Block(q, h.large[q]);
      assert forall x :: x in Block(q, h.large[q]) ==> InBlocks(h.large, x);
      LargeKept(h, g, q);
    }
  }

  /** Distinct live objects never overlap. */
  lemma LiveDisjoint(h: Heap, idle: set<nat>, o: Object, o': Object)
    requires h.Consistent(idle) && h.IsLive(o) && h.IsLive(o') && o != o'
    ensures h.Start(o) + h.Length(o) <= h.Start(o') || h.Start(o') + h.Length(o') <= h.Start(o)
  {
    hide SlabOk, Heap.PartialsMatch, Heap.SlabFlags, Heap.Partition, InBlocks, Heap.LargeAt;
    LiveInPages(h, idle, o);
    LiveInPages(h, idle, o');
    if o.Small? && o'.Small? {
      if o.pfn == o'.pfn {
        var c := h.slabs[o.pfn].cache;
        SlabCache(h, o.pfn);
        if o.slot < o'.slot { SlotsApart(c, o.slot, o'.slot); } else { SlotsApart(c, o'.slot, o.slot); }
      }
    } else if o.Small? {
      SlabNotIn(h, o.pfn, o'.pfn);
    } else if o'.Small? {
      SlabNotIn(h, o'.pfn, o.pfn);
    } else {
      LargeApart(h);
      var k, k' := h.large[o.pfn], h.large[o'.pfn];
      RunSize(o.pfn, Pow2(k));
      RunSize(o'.pfn, Pow2(k'));
      assert o.pfn in Block(o.pfn, k) && o'.pfn in Block(o'.pfn, k');
      assert o.pfn !in Block(o'.pfn, k') && o'.pfn !in Block(o.pfn, k);
    }
  }

  lemma SlabCache(h: Heap, p: nat)
    requires h.Sized() && h.SlabsStored() && p in h.slabs
    ensures h.slabs[p].cache < KMALLOC_CACHES
  {
    assert h.SlabAt(p);
  }

  lemma SlabNotIn(h: Heap, p: nat, q: nat)
    requires h.LargeStored() && p in h.slabs && q in h.large
    ensures p < q || q + Pow2(h.large[q]) <= p
    ensures |Block(q, h.large[q])| == Pow2(h.large[q])
  {
    assert h.LargeAt(q);
    RunSize(q, Pow2(h.large[q]));
    assert p !in Block(q, h.large[q]);
  }

  /** The pages an object occupies. */
  ghost function PagesOf(h: Heap, o: Object): set<nat>
    requires h.IsLive(o)
  {
    match o
    case Small(p, s) => {p}
    case Big(p) => Block(p, h.large[p])
  }

  /** A live object lies within its own pages, none of which is free, and all of which kmalloc owns. */
  lemma LiveInPages(h: Heap, idle: set<nat>, o: Object)
    requires h.Consistent(idle) && h.IsLive(o)
    ensures Va(o.pfn) <= h.Start(o)
    ensures h.Start(o) + h.Length(o) <= Va(o.pfn) + |PagesOf(h, o)| * PAGE_SIZE
    ensures PagesOf(h, o) <= h.owned && PagesOf(h, o) !! h.free
  {
    match o
    case Small(p, s) =>
      assert h.SlabAt(p);
      SlotBounds(h.slabs[p].cache, s);
    case Big(p) =>
      assert h.LargeAt(p);
      RunSize(p, Pow2(h.large[p]));
      assert forall x :: x in Block(p, h.large[p]) ==> InBlocks(h.large, x);
  }

  /** Slab objects are aligned to their size class, hence to 16 bytes; large blocks to pages. */
  lemma LiveAligned(h: Heap, idle: set<nat>, o: Object)
    requires h.Consistent(idle) && h.IsLive(o)
    ensures h.Start(o) % 16 == 0
    ensures h.Start(o) % (if o.Small? then h.Length(o) else PAGE_SIZE) == 0
  {
    hide Heap.Consistent, Off, ObjSize, Va, Objects;
    match o
    case Small(p, s) =>
      ConsistentCache(h, idle, p);
      SlotAligned(p, h.slabs[p].cache, s);
    case Big(p) => PageAligned(p);
  }

  lemma ConsistentCache(h: Heap, idle: set<nat>, p: nat)
    requires h.Consistent(idle) && p in h.slabs
    ensures h.slabs[p].cache < KMALLOC_CACHES
  {
    SlabCache(h, p);
  }

  lemma PageAligned(p: nat)
    ensures Va(p) % PAGE_SIZE == 0 && Va(p) % 16 == 0
  {
    var q := p + VA_OFFSET / PAGE_SIZE;
    assert Va(p) == 4096 * q;
    MultipleAligned(q, PAGE_SIZE);
  }

  lemma SlotAligned(p: nat, c: nat, s: nat)
    requires c < KMALLOC_CACHES
    ensures (Va(p) + Off(c, s)) % ObjSize(c) == 0 && (Va(p) + Off(c, s)) % 16 == 0
  {
    CacheGeometry(c);
    var a := p + VA_OFFSET / PAGE_SIZE;
    ScaledSum(a, Objects(c), s, ObjSize(c));
    hide Objects, ObjSize;
    MultipleAligned(a * Objects(c) + s, ObjSize(c));
  }

  lemma ScaledSum(a: nat, n: nat, s: nat, z: nat)
    ensures (a * n + s) * z == a * (n * z) + s * z
  {
  }

  lemma MultipleAligned(m: nat, z: nat)
    requires z > 0 && z % 16 == 0
    ensures (m * z) % z == 0 && (m * z) % 16 == 0
  {
    DivModUnique(m * z, z, m, 0);
    var w := z / 16;
    assert m * z == (m * w) * 16;
  }
}
