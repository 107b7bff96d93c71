/** The buddy page allocator (mm/page_alloc.c).

Pages are named by page frame number. The free lists live in the shared list pool; the ghost field
`free` is the set of free pages, and the invariant says that the lists hold exactly the canonical
blocks of that set.
*/
module PageAlloc {
  import opened Machine
  import opened Options
  import opened PowersOfTwo
  import opened BuddyBlocks
  import opened IntrusiveList

  /** The list nodes of the allocators: free-list heads, slab-list heads, and the `lru` of each page. */
  datatype Node = FreeArea(order: nat) | Partial(cache: nat) | Lru(pfn: nat)

  /** A page descriptor; the two flag bits are `buddy` and `slab`. */
  datatype Page = Page(buddy: bool, slab: bool, order: nat, freelist: nat, cache: nat, inuse: nat)

  const ZERO_PAGE := Page(false, false, 0, 0, 0, 0)

  type Lists = map<Node, seq<Node>>

  ghost predicate Listed(lists: Lists, p: nat, k: nat) {
    FreeArea(k) in lists && Lru(p) in lists[FreeArea(k)]
  }

  /** The free-list heads exist and hold only pages. */
  ghost predicate HeadsReady(lists: Lists) {
    && (forall k: nat :: FreeArea(k) in lists <==> k < MAX_ORDER)
    && (forall h :: h in lists ==> !h.Lru?)
    && (forall k: nat, n :: FreeArea(k) in lists && n in lists[FreeArea(k)] ==> n.Lru?)
  }

  /** The lists hold exactly the canonical blocks of `free`. */
  ghost predicate ListsCanonical(lists: Lists, free: set<nat>) {
    forall p: nat, k: nat :: Listed(lists, p, k) <==> Canonical(free, p, k)
  }

  /** The buddy flag and order of a page say which list it is on. */
  ghost predicate FlagsMatch(pages: seq<Page>, base: nat, lists: Lists) {
    && (forall i :: 0 <= i < |pages| && pages[i].buddy ==> Listed(lists, base + i, pages[i].order))
    && (forall p: nat, k: nat :: Listed(lists, p, k) ==>
          base <= p < base + |pages| && pages[p - base].buddy && pages[p - base].order == k)
  }

  ghost predicate CountsMatch(nrFree: seq<nat>, lists: Lists) {
    && |nrFree| == MAX_ORDER
    && forall k: nat :: k < MAX_ORDER ==> FreeArea(k) in lists && nrFree[k] == |lists[FreeArea(k)]|
  }

  /** No free page is on a list other than a free list. */
  ghost predicate FreeOffOtherLists(lists: Lists, free: set<nat>) {
    forall h, p: nat :: h in lists && Lru(p) in lists[h] && p in free ==> h.FreeArea?
  }

  /** `p` heads the free list of the smallest order, from `order` up, that has one. */
  ghost predicate FirstFit(lists: Lists, order: nat, p: nat) {
    exists k: nat :: HeadsList(lists, k, p) && order <= k && forall j: nat :: order <= j < k ==> EmptyList(lists, j)
  }

  /** The canonical block at `p` is the smallest that is large enough. */
  ghost predicate SmallestFit(free: set<nat>, order: nat, p: nat) {
    exists k: nat :: Canonical(free, p, k) && order <= k && forall j: nat, q: nat :: order <= j < k ==> !Canonical(free, q, j)
  }

  lemma FirstIsSmallest(lists: Lists, free: set<nat>, order: nat, p: nat)
    requires ListsCanonical(lists, free) && FirstFit(lists, order, p)
    ensures SmallestFit(free, order, p)
  {
    hide Canonical;
    var k: nat :| HeadsList(lists, k, p) && order <= k && forall j: nat :: order <= j < k ==> EmptyList(lists, j);
    assert lists[FreeArea(k)][0] in lists[FreeArea(k)];
    assert Listed(lists, p, k);
    forall j: nat, q: nat | order <= j < k
      ensures !Canonical(free, q, j)
    {
      assert EmptyList(lists, j);
      assert !Listed(lists, q, j);
    }
  }

  ghost predicate HeadsList(lists: Lists, k: nat, p: nat) {
    FreeArea(k) in lists && lists[FreeArea(k)] != [] && lists[FreeArea(k)][0] == Lru(p)
  }

  ghost predicate EmptyList(lists: Lists, k: nat) {
    FreeArea(k) in lists && lists[FreeArea(k)] == []
  }

  /** Descriptors changed only in buddy flag and order, and only within `pfns`. */
  ghost predicate OnlyBuddyChanged(before: seq<Page>, after: seq<Page>, base: nat, pfns: set<nat>) {
    && |before| == |after|
    && forall i :: 0 <= i < |before| ==>
         && after[i] == before[i].(buddy := after[i].buddy, order := after[i].order)
         && (base + i !in pfns ==> after[i] == before[i])
  }

  /** Only free lists differ. */
  ghost predicate OtherListsSame(before: Lists, after: Lists) {
    && before.Keys == after.Keys
    && forall h :: h in before && !h.FreeArea? ==> after[h] == before[h]
  }

  /** The free lists are the same, in order. */
  ghost predicate SameFreeLists(before: Lists, after: Lists) {
    forall k: nat :: FreeArea(k) in before ==> FreeArea(k) in after && after[FreeArea(k)] == before[FreeArea(k)]
  }

  /** Sum over orders of `nr_free * 2^order`. */
  ghost function SumFree(nrFree: seq<nat>): nat {
    if nrFree == [] then 0
    else SumFree(nrFree[..|nrFree| - 1]) + nrFree[|nrFree| - 1] * Pow2(|nrFree| - 1)
  }

  lemma {:induction false} SumFreeBump(nrFree: seq<nat>, k: nat)
    requires k < |nrFree|
    ensures SumFree(nrFree[k := nrFree[k] + 1]) == SumFree(nrFree) + Pow2(k)
  {
    var last := |nrFree| - 1;
    var bumped := nrFree[k := nrFree[k] + 1];
    if k == last {
      assert bumped[..last] == nrFree[..last];
    } else {
      SumFreeBump(nrFree[..last], k);
      assert bumped[..last] == nrFree[..last][k := nrFree[k] + 1];
    }
  }

  lemma SumFreeDrop(nrFree: seq<nat>, k: nat)
    requires k < |nrFree| && nrFree[k] > 0
    ensures SumFree(nrFree[k := nrFree[k] - 1]) + Pow2(k) == SumFree(nrFree)
  {
    var less := nrFree[k := nrFree[k] - 1];
    SumFreeBump(less, k);
    assert less[k := less[k] + 1] == nrFree;
  }

  lemma {:induction false} SumFreeZero(nrFree: seq<nat>)
    requires forall k :: 0 <= k < |nrFree| ==> nrFree[k] == 0
    ensures SumFree(nrFree) == 0
  {
    if nrFree != [] { SumFreeZero(nrFree[..|nrFree| - 1]); }
  }

  ghost function Pushed(lists: Lists, p: nat, k: nat): Lists
    requires FreeArea(k) in lists
  {
    lists[FreeArea(k) := [Lru(p)] + lists[FreeArea(k)]]
  }

  ghost function Taken(lists: Lists, p: nat, k: nat): Lists
    requires FreeArea(k) in lists
  {
    lists[FreeArea(k) := Without(lists[FreeArea(k)], Lru(p))]
  }

  lemma ListedAfterPush(lists: Lists, p: nat, k: nat)
    requires HeadsReady(lists) && k < MAX_ORDER
    ensures HeadsReady(Pushed(lists, p, k))
    ensures forall q: nat, j: nat :: Listed(Pushed(lists, p, k), q, j) <==> Listed(lists, q, j) || (q, j) == (p, k)
  {
    forall q: nat, j: nat
      ensures Listed(Pushed(lists, p, k), q, j) <==> Listed(lists, q, j) || (q, j) == (p, k)
    {
      assert forall n :: n in [Lru(p)] + lists[FreeArea(k)] <==> n == Lru(p) || n in lists[FreeArea(k)];
    }
  }

  lemma ListedAfterTake(lists: Lists, p: nat, k: nat)
    requires HeadsReady(lists) && Separate(lists) && Listed(lists, p, k)
    ensures HeadsReady(Taken(lists, p, k))
    ensures forall q: nat, j: nat :: Listed(Taken(lists, p, k), q, j) <==> Listed(lists, q, j) && (q, j) != (p, k)
    ensures forall n :: Unlinked(lists, n) ==> Unlinked(Taken(lists, p, k), n)
    ensures |Taken(lists, p, k)[FreeArea(k)]| == |lists[FreeArea(k)]| - 1
  {
    WithoutMembers(lists[FreeArea(k)], Lru(p));
    forall n | Unlinked(lists, n)
      ensures Unlinked(Taken(lists, p, k), n)
    {
    }
  }

  lemma FlagsAfterPush(pages: seq<Page>, base: nat, lists: Lists, p: nat, k: nat)
    requires HeadsReady(lists) && k < MAX_ORDER && FlagsMatch(pages, base, lists)
    requires base <= p < base + |pages| && Unlinked(lists, Lru(p))
    ensures FlagsMatch(pages[p - base := pages[p - base].(order := k, buddy := true)], base, Pushed(lists, p, k))
  {
    ListedAfterPush(lists, p, k);
  }

  lemma FlagsAfterTake(pages: seq<Page>, base: nat, lists: Lists, p: nat, k: nat)
    requires HeadsReady(lists) && Separate(lists) && FlagsMatch(pages, base, lists) && Listed(lists, p, k)
    ensures FlagsMatch(pages[p - base := pages[p - base].(buddy := false)], base, Taken(lists, p, k))
  {
    ListedAfterTake(lists, p, k);
  }

  lemma OnlyBuddyTransitive(a: seq<Page>, b: seq<Page>, c: seq<Page>, base: nat, s: set<nat>, t: set<nat>, u: set<nat>)
    requires OnlyBuddyChanged(a, b, base, s) && OnlyBuddyChanged(b, c, base, t) && s + t <= u
    ensures OnlyBuddyChanged(a, c, base, u)
  {
  }

  /** The flag test of the merge loop decides membership of the free list. */
  lemma FlagsDecide(pages: seq<Page>, base: nat, lists: Lists, p: nat, k: nat)
    requires FlagsMatch(pages, base, lists)
    ensures Listed(lists, p, k) <==>
              base <= p < base + |pages| && pages[p - base].buddy && pages[p - base].order == k
  {
  }

  /** Replacing one free list leaves every other kind of list alone. */
  lemma OtherListsReplaced(a: Lists, b: Lists, k: nat, s: seq<Node>)
    requires OtherListsSame(a, b) && FreeArea(k) in b
    ensures OtherListsSame(a, b[FreeArea(k) := s])
  {
  }

  lemma OtherListsTransitive(a: Lists, b: Lists, c: Lists)
    requires OtherListsSame(a, b) && OtherListsSame(b, c)
    ensures OtherListsSame(a, c)
  {
  }

  lemma FreeOffAfter(before: Lists, after: Lists, free: set<nat>, block: set<nat>)
    requires OtherListsSame(before, after) && FreeOffOtherLists(before, free)
    requires forall p :: p in block ==> Unlinked(before, Lru(p))
    ensures FreeOffOtherLists(after, free + block)
  {
  }

  lemma NothingChanged(pages: seq<Page>, base: nat, pfns: set<nat>, lists: Lists)
    ensures OnlyBuddyChanged(pages, pages, base, pfns) && OtherListsSame(lists, lists)
  {
  }

  lemma OneDescriptor(pages: seq<Page>, base: nat, i: nat, order: nat, buddy: bool)
    requires i < |pages|
    ensures OnlyBuddyChanged(pages, pages[i := pages[i].(order := order, buddy := buddy)], base, {base + i})
  {
  }

  lemma CountsReplaced(nrFree: seq<nat>, lists: Lists, k: nat, s: seq<Node>)
    requires CountsMatch(nrFree, lists) && k < MAX_ORDER
    ensures CountsMatch(nrFree[k := |s|], lists[FreeArea(k) := s])
  {
  }

  lemma UnlinkedAfterPush(lists: Lists, p: nat, k: nat, q: nat)
    requires FreeArea(k) in lists && Unlinked(lists, Lru(q)) && p != q
    ensures Unlinked(Pushed(lists, p, k), Lru(q))
  {
  }

  /** Editing a list that is not a free list, without putting a free page on it, keeps everything. */
  lemma ClientList(lists: Lists, free: set<nat>, pages: seq<Page>, base: nat, nrFree: seq<nat>, h: Node, s: seq<Node>)
    requires HeadsReady(lists) && ListsCanonical(lists, free) && FlagsMatch(pages, base, lists)
    requires CountsMatch(nrFree, lists) && FreeOffOtherLists(lists, free) && h.Partial?
    requires forall p: nat :: Lru(p) in s ==> p !in free
    ensures var lists' := lists[h := s];
            && HeadsReady(lists') && ListsCanonical(lists', free) && FlagsMatch(pages, base, lists')
            && CountsMatch(nrFree, lists') && FreeOffOtherLists(lists', free)
  {
    hide Canonical;
    assert forall p: nat, k: nat :: Listed(lists[h := s], p, k) <==> Listed(lists, p, k);
  }

  lemma NothingCanonical()
    ensures forall p: nat, k: nat :: !Canonical({}, p, k)
  {
    forall p: nat, k: nat
      ensures !Canonical({}, p, k)
    {
      assert p in Block(p, k);
    }
  }

  /** Once a canonical block is off its list, none of its pages is on any list. */
  lemma TakenBlockUnlinked(lists: Lists, free: set<nat>, p: nat, k: nat)
    requires HeadsReady(lists) && Separate(lists)
    requires ListsCanonical(lists, free) && FreeOffOtherLists(lists, free) && Listed(lists, p, k)
    ensures Canonical(free, p, k)
    ensures FreeOffOtherLists(Taken(lists, p, k), free - Block(p, k))
    ensures ListsCanonical(Taken(lists, p, k), free - Block(p, k))
    ensures forall x :: x in Block(p, k) ==> Unlinked(Taken(lists, p, k), Lru(x))
  {
    var rest := Taken(lists, p, k);
    ListedAfterTake(lists, p, k);
    RemoveCanonical(free, p, k);
    WithoutMembers(lists[FreeArea(k)], Lru(p));
    forall x, h | x in Block(p, k) && h in rest
      ensures Lru(x) !in rest[h]
    {
      assert forall j: nat :: x in Block(x, j);
      if Lru(x) in rest[h] {
        assert Lru(x) in lists[h];
        assert Listed(rest, x, h.order) && Canonical(free, x, h.order);
        CanonicalDisjoint(free, x, h.order, p, k);
      }
    }
  }

  /** With the lists of all sufficient orders empty, no free block of the order exists. */
  lemma NothingSufficient(lists: Lists, free: set<nat>, order: nat)
    requires HeadsReady(lists) && ListsCanonical(lists, free) && order < MAX_ORDER
    requires forall j: nat :: order <= j < MAX_ORDER ==> EmptyList(lists, j)
    ensures forall p: nat :: !FreeBlock(free, p, order)
  {
    assert forall q: nat, j: nat :: order <= j && Canonical(free, q, j) ==> EmptyList(lists, j) && Listed(lists, q, j);
    forall p: nat
      ensures !FreeBlock(free, p, order)
    {
      if FreeBlock(free, p, order) {
        var q, j := CanonicalCover(free, p, order);
      }
    }
  }

  function Min(a: nat, b: nat): nat { if a < b then a else b }

  function Max(a: nat, b: nat): nat { if a < b then b else a }

  /** The address rounded up to a page, in 64-bit arithmetic, as a page number. */
  function RoundedPage(start: nat): nat { (start + PAGE_SIZE - 1) % WORD / PAGE_SIZE }

  /** The first and the one-past-last page that a byte range contributes to the `n` pages from `base` on. */
  function FirstPageOf(base: nat, start: nat): nat { Max(RoundedPage(start), base) }

  function LimitPageOf(base: nat, n: nat, end: nat): nat { Min(end / PAGE_SIZE, base + n) }

  /** Rounding up does not wrap around. */
  predicate RoundsUp(start: nat) { start + PAGE_SIZE - 1 < WORD }

  lemma RoundedUp(start: nat)
    ensures RoundsUp(start) ==> RoundedPage(start) == (start + PAGE_SIZE - 1) / PAGE_SIZE
    ensures !RoundsUp(start) && start < WORD ==> RoundedPage(start) == 0 && start > WORD - PAGE_SIZE
  {
  }

  /** Managed page `p` lies wholly in [start, end). */
  predicate WhollyIn(base: nat, n: nat, start: nat, end: nat, p: nat) {
    base <= p < base + n && start <= p * PAGE_SIZE && (p + 1) * PAGE_SIZE <= end
  }

  /** The pages that __free_memory_core frees are the managed pages wholly in the range exactly when rounding up does not wrap
      or the clipped run is empty. */
  lemma FreedExactly(base: nat, n: nat, start: nat, end: nat)
    requires start < WORD && end < WORD
    ensures (forall p: nat :: p in PageRun(FirstPageOf(base, start), LimitPageOf(base, n, end)) <==> WhollyIn(base, n, start, end, p))
            <==> RoundsUp(start) || LimitPageOf(base, n, end) <= base
  {
    RoundedUp(start);
    hide RoundedPage;
    var lo, hi := FirstPageOf(base, start), LimitPageOf(base, n, end);
    if RoundsUp(start) || hi <= base {
      forall p: nat
        ensures p in PageRun(lo, hi) <==> WhollyIn(base, n, start, end, p)
      {
      }
    } else {
      assert base in PageRun(lo, hi) && !WhollyIn(base, n, start, end, base);
    }
  }

  /** A range on which they are not: a hundred bytes in the last page of the address space free every managed page. */
  lemma WrappedRange(base: nat, n: nat, start: nat, end: nat)
    requires 0 < n && (base + n + 1) * PAGE_SIZE <= WORD && start == WORD - 101 && end == WORD - 1
    ensures PageRun(FirstPageOf(base, start), LimitPageOf(base, n, end)) == PageRun(base, base + n)
    ensures forall p: nat :: !WhollyIn(base, n, start, end, p)
  {
    RoundedUp(start);
    hide RoundedPage;
  }

  /** Pages [lo, hi), none when lo >= hi. */
  ghost function PageRun(lo: nat, hi: nat): set<nat> {
    if lo < hi then Run(lo, hi - lo) else {}
  }

  lemma PageRunExtend(lo: nat, p: nat, k: nat)
    requires lo <= p
    ensures PageRun(lo, p) + Block(p, k) == PageRun(lo, p + Pow2(k))
  {
  }

  /** [lo, hi) is empty, or the pages on either side of it are not free. */
  ghost predicate Isolated(free: set<nat>, lo: nat, hi: nat) {
    hi <= lo || (hi !in free && (lo > 0 ==> lo - 1 !in free))
  }

  /** Lists after pushing the blocks one after another, with no merging. */
  ghost function PushAll(lists: Lists, pieces: seq<(nat, nat)>): Lists {
    if pieces == [] then lists
    else
      var rest, (p, k) := PushAll(lists, pieces[..|pieces| - 1]), pieces[|pieces| - 1];
      if FreeArea(k) in rest then Pushed(rest, p, k) else rest
  }

  lemma PushAllSnoc(lists: Lists, pieces: seq<(nat, nat)>, p: nat, k: nat)
    ensures FreeArea(k) in PushAll(lists, pieces) ==>
              PushAll(lists, pieces + [(p, k)]) == Pushed(PushAll(lists, pieces), p, k)
  {
    assert (pieces + [(p, k)])[..|pieces|] == pieces;
  }

  lemma {:induction false} PushAllAppend(lists: Lists, a: seq<(nat, nat)>, b: seq<(nat, nat)>)
    ensures PushAll(PushAll(lists, a), b) == PushAll(lists, a + b)
  {
    if b == [] {
      assert a + b == a;
    } else {
      var n := |b| - 1;
      PushAllAppend(lists, a, b[..n]);
      assert (a + b)[..|a + b| - 1] == a + b[..n];
    }
  }

  lemma {:induction false} PushAllHeads(lists: Lists, pieces: seq<(nat, nat)>)
    ensures PushAll(lists, pieces).Keys == lists.Keys
  {
    if pieces != [] { PushAllHeads(lists, pieces[..|pieces| - 1]); }
  }

  lemma PushedListed(lists: Lists, p: nat, k: nat, q: nat, j: nat)
    requires FreeArea(j) in lists
    ensures FreeArea(k) in lists ==> (Listed(Pushed(lists, p, k), q, j) <==> Listed(lists, q, j) || (q, j) == (p, k))
    ensures FreeArea(k) !in lists ==> j != k
  {
    if FreeArea(k) in lists {
      assert forall n :: n in [Lru(p)] + lists[FreeArea(k)] <==> n == Lru(p) || n in lists[FreeArea(k)];
    }
  }

  /** What is listed after pushing is what was listed before and the pieces themselves. */
  lemma {:induction false} PushAllListed(lists: Lists, pieces: seq<(nat, nat)>, p: nat, k: nat)
    requires FreeArea(k) in lists
    ensures Listed(PushAll(lists, pieces), p, k) <==> Listed(lists, p, k) || (p, k) in pieces
  {
    hide Listed, Pushed;
    if pieces != [] {
      var front, last := pieces[..|pieces| - 1], pieces[|pieces| - 1];
      assert pieces == front + [last];
      PushAllHeads(lists, front);
      PushAllListed(lists, front, p, k);
      PushedListed(PushAll(lists, front), last.0, last.1, p, k);
    }
  }

  /** The inner search of __free_memory_core: the largest aligned piece at `pfn` ending by `limit`. */
  method LargestOrder(pfn: nat, limit: nat) returns (order: nat)
    requires pfn < limit
    ensures LargestFit(pfn, limit, order)
  {
    order := MAX_ORDER - 1;
    while order != 0 && (!Aligned(pfn, order) || pfn + Pow2(order) > limit)
      invariant order < MAX_ORDER
      invariant forall j: nat :: order < j < MAX_ORDER ==> !Fits(pfn, limit, j)
    {
      order := order - 1;
    }
  }

  /** One more greedy piece. */
  lemma PieceTaken(lo: nat, hi: nat, pfn: nat, order: nat, pieces: seq<(nat, nat)>)
    requires pfn < hi && LargestFit(pfn, hi, order) && pieces + GreedyPieces(pfn, hi) == GreedyPieces(lo, hi)
    ensures pieces + [(pfn, order)] + GreedyPieces(pfn + Pow2(order), hi) == GreedyPieces(lo, hi)
  {
    GreedyNext(pfn, hi, order);
    hide GreedyPieces;
    assert pieces + [(pfn, order)] + GreedyPieces(pfn + Pow2(order), hi) ==
           pieces + ([(pfn, order)] + GreedyPieces(pfn + Pow2(order), hi));
  }

  class PageAllocator {
    const pool: ListPool<Node>
    var memMap: array<Page>
    var basePfn: nat
    var nrFree: seq<nat>
    var freeCount: nat
    ghost var free: set<nat>

    predicate PfnValid(pfn: int)
      reads this`memMap, this`basePfn
    {
      basePfn <= pfn < basePfn + memMap.Length
    }

    /** Everything but the running total of free pages. */
    ghost predicate Core()
      reads this`memMap, this`basePfn, this`nrFree, this`free, pool, memMap
    {
      && pool.Valid() && HeadsReady(pool.lists)
      && (forall p :: p in free ==> PfnValid(p))
      && ListsCanonical(pool.lists, free)
      && FlagsMatch(memMap[..], basePfn, pool.lists)
      && CountsMatch(nrFree, pool.lists)
      && FreeOffOtherLists(pool.lists, free)
    }

    ghost predicate Valid()
      reads this, pool, memMap
    {
      && Core()
      && freeCount == |free|
      && freeCount == SumFree(nrFree)
    }

    /** free_area_init: no page is free, every list is empty. */
    constructor (base: nat, map': array<Page>, lists: ListPool<Node>)
      requires lists.Valid() && lists.lists == map[]
      modifies map', lists
      ensures Valid() && free == {} && freeCount == 0
      ensures pool == lists && memMap == map' && basePfn == base / PAGE_SIZE
      ensures forall k: nat :: k < MAX_ORDER ==> FreeArea(k) in pool.lists && pool.lists[FreeArea(k)] == []
      ensures forall h :: h in pool.lists ==> h.FreeArea?
      ensures forall i :: 0 <= i < map'.Length ==> map'[i] == ZERO_PAGE
    {
      memMap, pool := map', lists;
      basePfn := base / PAGE_SIZE;
      freeCount := 0;
      free := {};
      nrFree := seq(MAX_ORDER, _ => 0);
      new;
      ClearMap();
      InitHeads();
      SumFreeZero(nrFree);
      NothingCanonical();
      hide ListPool.Valid, Canonical, SumFree;
    }

    /** The descriptors are cleared. */
    method ClearMap()
      modifies memMap
      ensures forall i :: 0 <= i < memMap.Length ==> memMap[i] == ZERO_PAGE
    {
      for i := 0 to memMap.Length
        invariant forall j :: 0 <= j < i ==> memMap[j] == ZERO_PAGE
      {
        memMap[i] := ZERO_PAGE;
      }
    }

    /** The heads of the free lists. */
    method InitHeads()
      requires pool.Valid() && pool.lists == map[]
      modifies pool
      ensures pool.Valid() && forall h :: h in pool.lists <==> h.FreeArea? && h.order < MAX_ORDER
      ensures forall h :: h in pool.lists ==> pool.lists[h] == []
    {
      hide ListPool.Valid;
      for order := 0 to MAX_ORDER
        invariant pool.Valid()
        invariant forall h :: h in pool.lists <==> h.FreeArea? && h.order < order
        invariant forall h :: h in pool.lists ==> pool.lists[h] == []
      {
        pool.InitListHead(FreeArea(order));
      }
    }

    /** Put a block at the front of its free list. */
    method PushBlock(pfn: nat, order: nat)
      requires pool.Valid() && HeadsReady(pool.lists) && Unlinked(pool.lists, Lru(pfn))
      requires order < MAX_ORDER && PfnValid(pfn)
      requires FlagsMatch(memMap[..], basePfn, pool.lists) && CountsMatch(nrFree, pool.lists)
      modifies pool, memMap, this`nrFree
      ensures pool.Valid() && HeadsReady(pool.lists)
      ensures pool.lists == Pushed(old(pool.lists), pfn, order)
      ensures FlagsMatch(memMap[..], basePfn, pool.lists) && CountsMatch(nrFree, pool.lists)
      ensures forall q: nat, k: nat :: Listed(pool.lists, q, k) <==>
                old(Listed(pool.lists, q, k)) || (q, k) == (pfn, order)
      ensures OnlyBuddyChanged(old(memMap[..]), memMap[..], basePfn, {pfn})
      ensures SumFree(nrFree) == SumFree(old(nrFree)) + Pow2(order)
    {
      hide ListPool.Valid, HeadsReady, FlagsMatch, Listed, Unlinked, OnlyBuddyChanged;
      var i := pfn - basePfn;
      ListedAfterPush(pool.lists, pfn, order);
      CountsReplaced(nrFree, pool.lists, order, [Lru(pfn)] + pool.lists[FreeArea(order)]);
      OneDescriptor(memMap[..], basePfn, i, order, true);
      FlagsAfterPush(memMap[..], basePfn, pool.lists, pfn, order);
      memMap[i] := memMap[i].(order := order);
      memMap[i] := memMap[i].(buddy := true);
      assert memMap[..] == old(memMap[..])[i := old(memMap[i]).(order := order, buddy := true)];
      pool.Add(Lru(pfn), FreeArea(order));
      SumFreeBump(nrFree, order);
      nrFree := nrFree[order := nrFree[order] + 1];
    }

    /** Take a block off its free list. */
    method TakeBlock(pfn: nat, order: nat)
      requires pool.Valid() && HeadsReady(pool.lists) && Listed(pool.lists, pfn, order)
      requires FlagsMatch(memMap[..], basePfn, pool.lists) && CountsMatch(nrFree, pool.lists)
      modifies pool, memMap, this`nrFree
      ensures pool.Valid() && HeadsReady(pool.lists) && Unlinked(pool.lists, Lru(pfn))
      ensures pool.lists == Taken(old(pool.lists), pfn, order)
      ensures FlagsMatch(memMap[..], basePfn, pool.lists) && CountsMatch(nrFree, pool.lists)
      ensures forall q: nat, k: nat :: Listed(pool.lists, q, k) <==>
                old(Listed(pool.lists, q, k)) && (q, k) != (pfn, order)
      ensures forall n :: Unlinked(old(pool.lists), n) ==> Unlinked(pool.lists, n)
      ensures OnlyBuddyChanged(old(memMap[..]), memMap[..], basePfn, {pfn})
      ensures SumFree(nrFree) + Pow2(order) == SumFree(old(nrFree))
    {
      hide HeadsReady, FlagsMatch, Unlinked, OnlyBuddyChanged;
      FlagsDecide(memMap[..], basePfn, pool.lists, pfn, order);
      var i := pfn - basePfn;
      ListedAfterTake(pool.lists, pfn, order);
      CountsReplaced(nrFree, pool.lists, order, Without(pool.lists[FreeArea(order)], Lru(pfn)));
      OneDescriptor(memMap[..], basePfn, i, memMap[i].order, false);
      FlagsAfterTake(memMap[..], basePfn, pool.lists, pfn, order);
      pool.Del(Lru(pfn), FreeArea(order));
      memMap[i] := memMap[i].(buddy := false);
      assert memMap[..] == old(memMap[..])[i := old(memMap[i]).(buddy := false)];
      SumFreeDrop(nrFree, order);
      nrFree := nrFree[order := nrFree[order] - 1];
    }

    /** A block the caller holds: aligned, managed, not free, on no list. */
    ghost predicate Held(pfn: nat, order: nat)
      reads this`memMap, this`basePfn, this`free, pool
    {
      && order < MAX_ORDER && Aligned(pfn, order)
      && (forall p :: p in Block(pfn, order) ==> PfnValid(p))
      && Block(pfn, order) !! free
      && (forall p :: p in Block(pfn, order) ==> Unlinked(pool.lists, Lru(p)))
    }

    lemma HeldAligned(pfn: nat, order: nat)
      requires Held(pfn, order)
      ensures Aligned(pfn, order)
    {
    }

    /** A held block starts a merge with itself alone. */
    lemma MergeStart(pfn: nat, order: nat)
      requires Core() && Held(pfn, order)
      ensures Merging(free, pfn, order, pfn, order) && Unlinked(pool.lists, Lru(pfn))
      ensures forall q: nat, k: nat :: Canonical(free, q, k) ==> !Inside(q, k, pfn, order)
      ensures forall q: nat, k: nat :: Listed(pool.lists, q, k) <==> Canonical(free, q, k)
      ensures forall p :: p in free + Block(pfn, order) ==> PfnValid(p)
    {
      assert pfn in Block(pfn, order);
      forall q: nat, k: nat | Canonical(free, q, k)
        ensures !Inside(q, k, pfn, order)
      {
        assert q in Block(q, k);
      }
    }

    /** __free_one_page: merge upwards while the buddy is free at the same order. */
    method FreeOnePage(page: nat, order': nat)
      requires Core() && Held(page, order')
      modifies this`nrFree, this`free, pool, memMap
      ensures Core() && free == old(free) + Block(page, order')
      ensures SumFree(nrFree) == SumFree(old(nrFree)) + Pow2(order')
      ensures OnlyBuddyChanged(old(memMap[..]), memMap[..], basePfn, free)
      ensures OtherListsSame(old(pool.lists), pool.lists)
      ensures order' == MAX_ORDER - 1 || !BuddyFree(old(free), page, order') ==>
                pool.lists == Pushed(old(pool.lists), page, order')
    {
      hide ListPool.Valid, HeadsReady, FlagsMatch, Listed, Canonical, Merging, Inside,
           OnlyBuddyChanged, OtherListsSame, Unlinked, FreeOffOtherLists, SumFree, Bit, FlipBit, ClearBit, Block;
      var pfn: nat, order: nat := page, order';
      ghost var all := free + Block(page, order');
      MergeStart(page, order');
      NothingChanged(memMap[..], basePfn, all, pool.lists);
      while order < MAX_ORDER - 1
        modifies pool, memMap, this`nrFree
        invariant order' <= order < MAX_ORDER && pool.Valid() && HeadsReady(pool.lists)
        invariant Merging(free, page, order', pfn, order)
        invariant forall q: nat, k: nat :: Listed(pool.lists, q, k) <==>
                    Canonical(free, q, k) && !Inside(q, k, pfn, order)
        invariant FlagsMatch(memMap[..], basePfn, pool.lists) && CountsMatch(nrFree, pool.lists)
        invariant Unlinked(pool.lists, Lru(pfn))
        invariant SumFree(nrFree) + Pow2(order) == SumFree(old(nrFree)) + Pow2(order')
        invariant OnlyBuddyChanged(old(memMap[..]), memMap[..], basePfn, all)
        invariant OtherListsSame(old(pool.lists), pool.lists)
        invariant order' == order ==> pfn == page && pool.lists == old(pool.lists)
        invariant order' < order ==> BuddyFree(free, page, order')
      {
        var buddy := FlipBit(pfn, order);
        if !PfnValid(buddy) {
          break;
        }
        if !memMap[buddy - basePfn].buddy || memMap[buddy - basePfn].order != order {
          break;
        }
        FlagsDecide(memMap[..], basePfn, pool.lists, buddy, order);
        MergeStep(free, page, order', pfn, order);
        ghost var before, pages := pool.lists, memMap[..];
        TakeBlock(buddy, order);
        OtherListsReplaced(old(pool.lists), before, order, pool.lists[FreeArea(order)]);
        CanonicalHead(free, buddy, order);
        OnlyBuddyTransitive(old(memMap[..]), pages, memMap[..], basePfn, all, {buddy}, all);
        pfn := ClearBit(pfn, order);
        order := order + 1;
      }
      BuddyOutside(free, page, order', pfn, order);
      FlagsDecide(memMap[..], basePfn, pool.lists, FlipBit(pfn, order), order);
      MergeDone(free, page, order', pfn, order);
      ghost var before, pages := pool.lists, memMap[..];
      PushBlock(pfn, order);
      OtherListsReplaced(old(pool.lists), before, order, pool.lists[FreeArea(order)]);
      FreeOffAfter(old(pool.lists), pool.lists, free, Block(page, order'));
      OnlyBuddyTransitive(old(memMap[..]), pages, memMap[..], basePfn, all, {pfn}, all);
      free := all;
    }

    /** Listing the upper half of a held block frees it and leaves the lower half held. */
    method FreeUpperHalf(page: nat, order: nat)
      requires Core() && Held(page, order + 1)
      modifies this`nrFree, this`free, pool, memMap
      ensures Core() && Held(page, order)
      ensures Block(page, order) <= Block(page, order + 1)
      ensures free == old(free) + (Block(page, order + 1) - Block(page, order))
      ensures SumFree(nrFree) == SumFree(old(nrFree)) + Pow2(order)
      ensures OnlyBuddyChanged(old(memMap[..]), memMap[..], basePfn, free)
      ensures OtherListsSame(old(pool.lists), pool.lists)
    {
      hide ListPool.Valid, FlagsMatch, Listed, Canonical, Merging, Inside, OnlyBuddyChanged,
           OtherListsSame, Unlinked, FreeOffOtherLists, SumFree, Bit, FlipBit, ClearBit;
      var half := page + Pow2(order);
      UpperHalf(free, page, order);
      MergeDone(free, half, order, half, order);
      NothingChanged(memMap[..], basePfn, {}, pool.lists);
      assert half in Block(half, order);
      forall p | p in Block(page, order)
        ensures Unlinked(Pushed(pool.lists, half, order), Lru(p))
      {
        UnlinkedAfterPush(pool.lists, half, order, p);
      }
      PushBlock(half, order);
      OtherListsReplaced(old(pool.lists), old(pool.lists), order, pool.lists[FreeArea(order)]);
      FreeOffAfter(old(pool.lists), pool.lists, free, Block(half, order));
      free := free + Block(half, order);
      OnlyBuddyTransitive(old(memMap[..]), old(memMap[..]), memMap[..], basePfn, {}, {half}, free);
    }

    /** expand: give the unused upper halves back to the lower free lists. */
    method Expand(page: nat, low: nat, high': nat)
      requires Core() && low <= high' && Held(page, high')
      modifies this`nrFree, this`free, pool, memMap
      ensures Core() && Held(page, low)
      ensures Block(page, low) <= Block(page, high')
      ensures free == old(free) + (Block(page, high') - Block(page, low))
      ensures SumFree(nrFree) + Pow2(low) == SumFree(old(nrFree)) + Pow2(high')
      ensures OnlyBuddyChanged(old(memMap[..]), memMap[..], basePfn, free)
      ensures OtherListsSame(old(pool.lists), pool.lists)
    {
      hide Core, Held, OnlyBuddyChanged, OtherListsSame, SumFree, Block;
      var high := high';
      NothingChanged(memMap[..], basePfn, free, pool.lists);
      while high > low
        invariant low <= high <= high' && Core() && Held(page, high)
        invariant Block(page, high) <= Block(page, high')
        invariant free == old(free) + (Block(page, high') - Block(page, high))
        invariant SumFree(nrFree) + Pow2(high) == SumFree(old(nrFree)) + Pow2(high')
        invariant OnlyBuddyChanged(old(memMap[..]), memMap[..], basePfn, free)
        invariant OtherListsSame(old(pool.lists), pool.lists)
      {
        high := high - 1;
        ghost var before, pages, lists := free, memMap[..], pool.lists;
        FreeUpperHalf(page, high);
        OnlyBuddyTransitive(old(memMap[..]), pages, memMap[..], basePfn, before, free, free);
        OtherListsTransitive(old(pool.lists), lists, pool.lists);
      }
    }

    /** Take a listed block off its list, leaving all of it held. */
    method TakeFree(page: nat, order: nat)
      requires Core() && Listed(pool.lists, page, order)
      modifies this`nrFree, this`free, pool, memMap
      ensures Core() && Held(page, order) && FreeBlock(old(free), page, order)
      ensures free == old(free) - Block(page, order)
      ensures SumFree(nrFree) + Pow2(order) == SumFree(old(nrFree))
      ensures OnlyBuddyChanged(old(memMap[..]), memMap[..], basePfn, old(free))
      ensures OtherListsSame(old(pool.lists), pool.lists)
    {
      hide FlagsMatch, Listed, OnlyBuddyChanged, OtherListsSame, Unlinked, FreeOffOtherLists, SumFree, ListPool.Valid;
      pool.ValidSeparate();
      NothingChanged(memMap[..], basePfn, free, pool.lists);
      TakenBlockUnlinked(pool.lists, free, page, order);
      assert page in Block(page, order);
      TakeBlock(page, order);
      OtherListsReplaced(old(pool.lists), old(pool.lists), order, pool.lists[FreeArea(order)]);
      OnlyBuddyTransitive(old(memMap[..]), old(memMap[..]), memMap[..], basePfn, {}, {page}, free);
      free := free - Block(page, order);
    }

    /** Allocate the first `2^order` pages of a listed block. */
    method AllocFrom(page: nat, order: nat, current: nat)
      requires Valid() && Listed(pool.lists, page, current) && order <= current
      modifies this`nrFree, this`free, this`freeCount, pool, memMap
      ensures Valid() && Held(page, order) && FreeBlock(old(free), page, order)
      ensures free == old(free) - Block(page, order)
      ensures OnlyBuddyChanged(old(memMap[..]), memMap[..], basePfn, old(free))
      ensures OtherListsSame(old(pool.lists), pool.lists)
    {
      hide Core, Held, Listed, OnlyBuddyChanged, OtherListsSame, SumFree;
      TakeFree(page, current);
      ghost var pages, lists := memMap[..], pool.lists;
      RunSize(page, Pow2(order));
      Pow2Monotone(order, current);
      freeCount := freeCount - Pow2(order);
      Expand(page, order, current);
      assert free == old(free) - Block(page, order);
      HeldAligned(page, order);
      OtherListsTransitive(old(pool.lists), lists, pool.lists);
      OnlyBuddyTransitive(old(memMap[..]), pages, memMap[..], basePfn, old(free), free, old(free));
    }

    /** alloc_pages: the first block of the smallest sufficient order, cut down to size. */
    method AllocPages(order: nat) returns (page: Option<nat>)
      requires Valid()
      modifies this`nrFree, this`free, this`freeCount, pool, memMap
      ensures Valid()
      ensures page.None? <==> order >= 11 || forall p: nat :: !FreeBlock(old(free), p, order)
      ensures page.None? ==> free == old(free) && pool.lists == old(pool.lists) && nrFree == old(nrFree) &&
                             freeCount == old(freeCount) && memMap[..] == old(memMap[..])
      ensures page.Some? ==> Held(page.value, order) && FreeBlock(old(free), page.value, order)
      ensures page.Some? ==> free == old(free) - Block(page.value, order)
      ensures page.Some? ==> FirstFit(old(pool.lists), order, page.value) && SmallestFit(old(free), order, page.value)
      ensures OnlyBuddyChanged(old(memMap[..]), memMap[..], basePfn, old(free))
      ensures OtherListsSame(old(pool.lists), pool.lists)
    {
      hide ListPool.Valid, FlagsMatch, ListsCanonical, Canonical, OnlyBuddyChanged, OtherListsSame,
           Unlinked, FreeOffOtherLists, SumFree, SmallestFit;
      NothingChanged(memMap[..], basePfn, free, pool.lists);
      if order >= MAX_ORDER {
        return None;
      }
      for current := order to MAX_ORDER
        invariant Valid() && free == old(free) && pool.lists == old(pool.lists) && nrFree == old(nrFree) &&
                  freeCount == old(freeCount) && memMap[..] == old(memMap[..])
        invariant forall j: nat :: order <= j < current ==> EmptyList(pool.lists, j)
      {
        var empty := pool.IsEmpty(FreeArea(current));
        if empty {
          continue;
        }
        var first := pool.First(FreeArea(current));
        page := Some(first.pfn);
        assert HeadsList(pool.lists, current, first.pfn);
        FirstIsSmallest(pool.lists, free, order, first.pfn);
        AllocFrom(first.pfn, order, current);
        assert FreeBlock(old(free), first.pfn, order);
        return;
      }
      NothingSufficient(pool.lists, free, order);
      page := None;
    }

    /** __free_pages */
    method FreePages(page: nat, order: nat)
      requires Valid() && Held(page, order)
      modifies this`nrFree, this`free, this`freeCount, pool, memMap
      ensures Valid() && free == old(free) + Block(page, order)
      ensures freeCount == old(freeCount) + Pow2(order)
      ensures OnlyBuddyChanged(old(memMap[..]), memMap[..], basePfn, free)
      ensures OtherListsSame(old(pool.lists), pool.lists)
      ensures order == MAX_ORDER - 1 || !BuddyFree(old(free), page, order) ==>
                pool.lists == Pushed(old(pool.lists), page, order)
    {
      hide Core, OnlyBuddyChanged, OtherListsSame, SumFree, BuddyFree, Unlinked;
      RunSize(page, Pow2(order));
      FreeOnePage(page, order);
      freeCount := freeCount + Pow2(order);
    }

    /** The first and the one-past-last page a byte range contributes. */
    function FirstPage(start: nat): nat
      reads this`basePfn
    {
      FirstPageOf(basePfn, start)
    }

    function LimitPage(end: nat): nat
      reads this`basePfn, this`memMap
    {
      LimitPageOf(basePfn, memMap.Length, end)
    }

    /** Pages [lo, hi) are managed, not free and on no list. */
    ghost predicate RunHeld(lo: nat, hi: nat)
      reads this`memMap, this`basePfn, this`free, pool
    {
      forall p: nat :: lo <= p < hi ==> PfnValid(p) && p !in free && Unlinked(pool.lists, Lru(p))
    }

    lemma RunHeldApart(lo: nat, hi: nat)
      requires RunHeld(lo, hi)
      ensures PageRun(lo, hi) !! free
    {
    }

    lemma CoreHeads()
      requires Valid()
      ensures forall k: nat :: k < MAX_ORDER ==> FreeArea(k) in pool.lists
    {
    }

    /** A page that is not free can only gain a place on a list the allocator does not own. */
    lemma StillUnlinked(before: Lists, p: nat)
      requires Core() && OtherListsSame(before, pool.lists) && Unlinked(before, Lru(p)) && p !in free
      ensures Unlinked(pool.lists, Lru(p))
    {
      forall h | h in pool.lists
        ensures Lru(p) !in pool.lists[h]
      {
        if h.FreeArea? && Lru(p) in pool.lists[h] {
          assert Listed(pool.lists, p, h.order);
          CanonicalHead(free, p, h.order);
        }
      }
    }

    /** After the front piece of a held run is freed, the rest is still held. */
    lemma RunTailHeld(before: Lists, was: set<nat>, lo: nat, hi: nat, k: nat)
      requires Core() && OtherListsSame(before, pool.lists) && free == was + Block(lo, k)
      requires forall p: nat :: lo <= p < hi ==> PfnValid(p) && p !in was && Unlinked(before, Lru(p))
      ensures RunHeld(lo + Pow2(k), hi)
    {
      hide Core, OtherListsSame, Unlinked;
      forall p: nat | lo + Pow2(k) <= p < hi
        ensures PfnValid(p) && p !in free && Unlinked(pool.lists, Lru(p))
      {
        StillUnlinked(before, p);
      }
    }

    lemma RunBlockHeld(lo: nat, hi: nat, p: nat, k: nat)
      requires RunHeld(lo, hi) && lo <= p && Fits(p, hi, k) && k < MAX_ORDER
      ensures Held(p, k)
    {
    }

    /** Seeding [lo, hi) has reached `pfn`, having pushed `pieces`, the greedy pieces so far; the rest describes the start. */
    ghost predicate Seeding(lo: nat, hi: nat, pfn: nat, was: set<nat>, pages: seq<Page>, lists: Lists,
                            pieces: seq<(nat, nat)>)
      reads this, pool, memMap
    {
      && Valid() && lo <= pfn && (pfn <= hi || pfn == lo)
      && RunHeld(pfn, hi) && NoStraddle(lo, hi, pfn)
      && PageRun(lo, hi) !! was && free == was + PageRun(lo, pfn)
      && OnlyBuddyChanged(pages, memMap[..], basePfn, free)
      && OtherListsSame(lists, pool.lists)
      && pieces + GreedyPieces(pfn, hi) == GreedyPieces(lo, hi)
      && (Isolated(was, lo, hi) ==> pool.lists == PushAll(lists, pieces))
    }

    /** Free the largest piece that fits at the front of the remaining run. */
    method FreePiece(pfn: nat, order: nat, ghost lo: nat, ghost hi: nat, ghost was: set<nat>,
                     ghost pages: seq<Page>, ghost lists: Lists, ghost pieces: seq<(nat, nat)>)
      requires Seeding(lo, hi, pfn, was, pages, lists, pieces) && pfn < hi && LargestFit(pfn, hi, order)
      modifies this`nrFree, this`free, this`freeCount, pool, memMap
      ensures Seeding(lo, hi, pfn + Pow2(order), was, pages, lists, pieces + [(pfn, order)])
    {
      hide Core, OnlyBuddyChanged, OtherListsSame, SumFree, BuddyFree, Unlinked, NoStraddle, Held, Block, Run, Bit,
           Pushed, PushAll, GreedyPieces;
      PageRunExtend(lo, pfn, order);
      GreedyStep(lo, hi, pfn, order);
      PieceTaken(lo, hi, pfn, order, pieces);
      RunBlockHeld(pfn, hi, pfn, order);
      assert pfn == lo ==> Run(lo, pfn - lo) == {} by { RunSize(lo, 0); }
      if Isolated(was, lo, hi) && order < MAX_ORDER - 1 {
        GreedyNoMerge(was, lo, hi, pfn, order);
      }
      CoreHeads();
      FreePages(pfn, order);
      RunTailHeld(old(pool.lists), old(free), pfn, hi, order);
      OnlyBuddyTransitive(pages, old(memMap[..]), memMap[..], basePfn, old(free), free, free);
      OtherListsTransitive(lists, old(pool.lists), pool.lists);
      PushAllSnoc(lists, pieces, pfn, order);
    }

    /** The loop of __free_memory_core: free pages [lo, hi) as largest aligned pieces. */
    method FreeRun(lo: nat, hi: nat)
      requires Valid() && RunHeld(lo, hi)
      modifies this`nrFree, this`free, this`freeCount, pool, memMap
      ensures Valid()
      ensures free == old(free) + PageRun(lo, hi)
      ensures OnlyBuddyChanged(old(memMap[..]), memMap[..], basePfn, free)
      ensures OtherListsSame(old(pool.lists), pool.lists)
      ensures Isolated(old(free), lo, hi) ==> pool.lists == PushAll(old(pool.lists), GreedyPieces(lo, hi))
    {
      hide *;
      ghost var pieces: seq<(nat, nat)> := [];
      var pfn := lo;
      SeedingStart(lo, hi);
      while pfn < hi
        invariant Seeding(lo, hi, pfn, old(free), old(memMap[..]), old(pool.lists), pieces)
        decreases hi - pfn
      {
        var order := LargestOrder(pfn, hi);
        FreePiece(pfn, order, lo, hi, old(free), old(memMap[..]), old(pool.lists), pieces);
        pieces := pieces + [(pfn, order)];
        pfn := pfn + Pow2(order);
      }
      SeedingEnd(lo, hi, pfn, old(free), old(memMap[..]), old(pool.lists), pieces);
    }

    lemma SeedingStart(lo: nat, hi: nat)
      requires Valid() && RunHeld(lo, hi)
      ensures Seeding(lo, hi, lo, free, memMap[..], pool.lists, [])
    {
      hide Core, Unlinked, NoStraddle, GreedyPieces, SumFree;
      NothingChanged(memMap[..], basePfn, free, pool.lists);
      GreedyStart(lo, hi);
      RunHeldApart(lo, hi);
      assert [] + GreedyPieces(lo, hi) == GreedyPieces(lo, hi);
    }

    lemma SeedingEnd(lo: nat, hi: nat, pfn: nat, was: set<nat>, pages: seq<Page>, lists: Lists,
                     pieces: seq<(nat, nat)>)
      requires Seeding(lo, hi, pfn, was, pages, lists, pieces) && hi <= pfn
      ensures Valid() && free == was + PageRun(lo, hi)
      ensures OnlyBuddyChanged(pages, memMap[..], basePfn, free) && OtherListsSame(lists, pool.lists)
      ensures Isolated(was, lo, hi) ==> pool.lists == PushAll(lists, GreedyPieces(lo, hi))
    {
      assert pieces + GreedyPieces(pfn, hi) == pieces;
      hide Core, Unlinked, NoStraddle, GreedyPieces, SumFree, RunHeld;
    }

    /** __free_memory_core: free the managed pages from `start` rounded up to `end` rounded down, as the largest aligned pieces
        from the front; pieces of an isolated run are not merged. FreedExactly says when these are the pages of the range. */
    method FreeMemoryCore(start: nat, end: nat)
      requires start < WORD && end < WORD && Valid() && RunHeld(FirstPage(start), LimitPage(end))
      modifies this`nrFree, this`free, this`freeCount, pool, memMap
      ensures Valid()
      ensures free == old(free) + PageRun(FirstPage(start), LimitPage(end))
      ensures OnlyBuddyChanged(old(memMap[..]), memMap[..], basePfn, free)
      ensures OtherListsSame(old(pool.lists), pool.lists)
      ensures Isolated(old(free), FirstPage(start), LimitPage(end)) ==>
                pool.lists == PushAll(old(pool.lists), GreedyPieces(FirstPage(start), LimitPage(end)))
    {
      hide Valid, OnlyBuddyChanged, OtherListsSame, RunHeld, PushAll, Isolated, PageRun, GreedyPieces;
      var pfn := (start + PAGE_SIZE - 1) % WORD / PAGE_SIZE;
      var limit := end / PAGE_SIZE;
      if pfn < basePfn {
        pfn := basePfn;
      }
      if limit > basePfn + memMap.Length {
        limit := basePfn + memMap.Length;
      }
      FreeRun(pfn, limit);
    }

    /** A client links a page it holds into a list of its own. */
    method LinkPage(pfn: nat, h: Node)
      requires Valid() && h.Partial? && h in pool.lists && Unlinked(pool.lists, Lru(pfn)) && pfn !in free
      modifies pool
      ensures Valid() && pool.lists == old(pool.lists)[h := [Lru(pfn)] + old(pool.lists[h])]
    {
      hide SumFree, Canonical, CountsMatch, ListPool.Valid, Unlinked;
      ClientList(pool.lists, free, memMap[..], basePfn, nrFree, h, [Lru(pfn)] + pool.lists[h]);
      pool.Add(Lru(pfn), h);
    }

    /** A client takes a page off its list. */
    method UnlinkPage(pfn: nat, ghost h: Node)
      requires Valid() && h.Partial? && h in pool.lists && Lru(pfn) in pool.lists[h]
      modifies pool
      ensures Valid() && pool.lists == old(pool.lists)[h := Without(old(pool.lists[h]), Lru(pfn))]
      ensures Unlinked(pool.lists, Lru(pfn))
    {
      hide SumFree, Canonical, CountsMatch, Unlinked;
      WithoutMembers(pool.lists[h], Lru(pfn));
      ClientList(pool.lists, free, memMap[..], basePfn, nrFree, h, Without(pool.lists[h], Lru(pfn)));
      pool.Del(Lru(pfn), h);
    }

    /** A client creates a list. */
    method InitClientList(h: Node)
      requires Valid() && h.Partial? && h !in pool.lists
      requires forall g :: g in pool.lists ==> h !in pool.lists[g]
      modifies pool
      ensures Valid() && pool.lists == old(pool.lists)[h := []]
    {
      hide SumFree, Canonical, CountsMatch, ListPool.Valid;
      ClientList(pool.lists, free, memMap[..], basePfn, nrFree, h, []);
      pool.InitListHead(h);
    }

    /** A client updates the descriptor of a page it holds. */
    method SetPage(pfn: nat, page: Page)
      requires Valid() && PfnValid(pfn) && !memMap[pfn - basePfn].buddy && !page.buddy
      modifies memMap
      ensures Valid() && memMap[..] == old(memMap[..])[pfn - basePfn := page]
    {
      hide SumFree, Canonical, CountsMatch, ListPool.Valid, Listed, FreeOffOtherLists;
      memMap[pfn - basePfn] := page;
      assert memMap[..] == old(memMap[..])[pfn - basePfn := page];
    }
  }
}
