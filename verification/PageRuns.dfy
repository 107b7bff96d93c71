/** Whole runs of alloc_pages and __free_pages (mm/page_alloc.c). */
module PageRuns {
  import opened PowersOfTwo
  import opened BuddyBlocks
  import opened IntrusiveList
  import opened PageAlloc

  /** The free lists, as sets of blocks, are a function of the free pages. */
  lemma ListsDetermined(lists: Lists, lists': Lists, free: set<nat>)
    requires ListsCanonical(lists, free) && ListsCanonical(lists', free)
    ensures forall p: nat, k: nat :: Listed(lists, p, k) <==> Listed(lists', p, k)
  {
    hide Listed, Canonical;
  }

  /** One call a client makes. `which` picks one of the blocks the client holds. */
  datatype PageOp = AllocBlock(order: nat) | FreeBlockAt(which: nat)

  /** A block the client holds. */
  datatype Lease = Lease(pfn: nat, order: nat) {
    ghost function Pages(): set<nat> { Block(pfn, order) }
  }

  ghost predicate Leased(held: seq<Lease>, x: nat) {
    exists i :: 0 <= i < |held| && x in held[i].Pages()
  }

  /** No two held blocks share a page. */
  ghost predicate LeasesApart(held: seq<Lease>) {
    forall i, j :: 0 <= i < j < |held| ==> held[i].Pages() !! held[j].Pages()
  }

  /** Every page in play is either free or in exactly one held block. */
  ghost predicate Accounted(free: set<nat>, held: seq<Lease>, total: set<nat>) {
    && LeasesApart(held)
    && (forall i :: 0 <= i < |held| ==> held[i].Pages() !! free)
    && (forall x: nat :: x in total <==> x in free || Leased(held, x))
  }

  ghost predicate Running(alloc: PageAllocator, held: seq<Lease>, total: set<nat>)
    reads alloc, alloc.pool, alloc.memMap
  {
    && alloc.Valid() && Accounted(alloc.free, held, total)
    && forall i :: 0 <= i < |held| ==> alloc.Held(held[i].pfn, held[i].order)
  }

  lemma TakeLease(free: set<nat>, held: seq<Lease>, total: set<nat>, l: Lease)
    requires Accounted(free, held, total) && l.Pages() <= free
    ensures Accounted(free - l.Pages(), held + [l], total)
  {
    hide Block;
    var more := held + [l];
    forall x: nat
      ensures Leased(more, x) <==> Leased(held, x) || x in l.Pages()
    {
      LeasedSplit(held, [l], x);
      LeasedOne(l, x);
    }
  }

  lemma LeasedOne(l: Lease, x: nat)
    ensures Leased([l], x) <==> x in l.Pages()
  {
    hide Block;
    if x in l.Pages() { assert x in [l][0].Pages(); }
  }

  lemma LeasedSplit(a: seq<Lease>, b: seq<Lease>, x: nat)
    ensures Leased(a + b, x) <==> Leased(a, x) || Leased(b, x)
  {
    hide Block;
    var s := a + b;
    if Leased(a, x) {
      var i :| 0 <= i < |a| && x in a[i].Pages();
      assert x in s[i].Pages();
    }
    if Leased(b, x) {
      var i :| 0 <= i < |b| && x in b[i].Pages();
      assert x in s[|a| + i].Pages();
    }
    if Leased(s, x) {
      var i :| 0 <= i < |s| && x in s[i].Pages();
      assert if i < |a| then x in a[i].Pages() else x in b[i - |a|].Pages();
    }
  }

  ghost function Dropped(held: seq<Lease>, k: nat): seq<Lease>
    requires k < |held|
  {
    held[..k] + held[k + 1..]
  }

  lemma DropLease(free: set<nat>, held: seq<Lease>, total: set<nat>, k: nat)
    requires Accounted(free, held, total) && k < |held|
    ensures Accounted(free + held[k].Pages(), Dropped(held, k), total)
  {
    hide Block;
    var rest, l := Dropped(held, k), held[k];
    assert held == held[..k] + ([l] + held[k + 1..]);
    forall x: nat
      ensures Leased(held, x) <==> Leased(rest, x) || x in l.Pages()
    {
      LeasedSplit(held[..k], [l] + held[k + 1..], x);
      LeasedSplit([l], held[k + 1..], x);
      LeasedSplit(held[..k], held[k + 1..], x);
      LeasedOne(l, x);
    }
    forall i | 0 <= i < |rest|
      ensures rest[i].Pages() !! free + l.Pages()
    {
      var j := if i < k then i else i + 1;
      assert rest[i] == held[j];
    }
  }

  /** A held block stays held while it is not freed. */
  lemma StillHeld(alloc: PageAllocator, before: Lists, pfn: nat, order: nat)
    requires alloc.Valid() && OtherListsSame(before, alloc.pool.lists) && Block(pfn, order) !! alloc.free
    requires order < MAX_ORDER && Aligned(pfn, order) && forall p :: p in Block(pfn, order) ==> alloc.PfnValid(p)
    requires forall p :: p in Block(pfn, order) ==> Unlinked(before, Lru(p))
    ensures alloc.Held(pfn, order)
  {
    hide PageAllocator.Core, OtherListsSame, Unlinked, Block;
    forall p | p in Block(pfn, order)
      ensures Unlinked(alloc.pool.lists, Lru(p))
    {
      alloc.StillUnlinked(before, p);
    }
  }

  /** What a client and the allocator know between calls. */
  datatype PageState = PageState(free: set<nat>, lists: Lists, held: seq<Lease>)

  ghost function StateOf(alloc: PageAllocator, held: seq<Lease>): PageState
    reads alloc`free, alloc.pool
  {
    PageState(alloc.free, alloc.pool.lists, held)
  }

  /** An allocation fails, changing nothing, exactly when no aligned free run exists; otherwise the client gets the front of
      the first block of the smallest sufficient order. A release gives the block's pages back. */
  ghost predicate PageStep(s: PageState, op: PageOp, s': PageState) {
    match op
    case AllocBlock(order) =>
      if order >= MAX_ORDER || forall p: nat :: !FreeBlock(s.free, p, order) then s' == s
      else
        && |s'.held| == |s.held| + 1
        && var l := s'.held[|s.held|];
           && s'.held == s.held + [l] && l.order == order
           && FreeBlock(s.free, l.pfn, order) && FirstFit(s.lists, order, l.pfn) && s'.free == s.free - l.Pages()
    case FreeBlockAt(k) =>
      if k < |s.held| then s'.free == s.free + s.held[k].Pages() && s'.held == Dropped(s.held, k) else s' == s
  }

  /** The states that the calls go through. */
  ghost predicate Trace(states: seq<PageState>, ops: seq<PageOp>) {
    |states| == |ops| + 1 && forall i :: 0 <= i < |ops| ==> PageStep(states[i], ops[i], states[i + 1])
  }

  lemma TraceMore(states: seq<PageState>, ops: seq<PageOp>, i: nat, s: PageState)
    requires i < |ops| && Trace(states, ops[..i]) && PageStep(states[i], ops[i], s)
    ensures Trace(states + [s], ops[..i + 1])
  {
    hide PageStep;
    var more, done := states + [s], ops[..i + 1];
    forall j | 0 <= j < |done|
      ensures PageStep(more[j], done[j], more[j + 1])
    {
      assert j < i ==> PageStep(states[j], ops[..i][j], states[j + 1]);
    }
  }

  /** One allocation. */
  method StepAlloc(alloc: PageAllocator, order: nat, held: seq<Lease>, ghost total: set<nat>) returns (held': seq<Lease>)
    requires Running(alloc, held, total)
    modifies alloc`nrFree, alloc`free, alloc`freeCount, alloc.pool, alloc.memMap
    ensures Running(alloc, held', total)
    ensures PageStep(old(StateOf(alloc, held)), AllocBlock(order), StateOf(alloc, held'))
  {
    hide PageAllocator.Core, OtherListsSame, Unlinked, Accounted, OnlyBuddyChanged, FirstFit, Block, Aligned;
    ghost var lists, free := alloc.pool.lists, alloc.free;
    var page := alloc.AllocPages(order);
    held' := held;
    if page.Some? {
      held' := held + [Lease(page.value, order)];
      TakeLease(free, held, total, Lease(page.value, order));
    }
    forall i | 0 <= i < |held|
      ensures alloc.Held(held[i].pfn, held[i].order)
    {
      StillHeld(alloc, lists, held[i].pfn, held[i].order);
    }
  }

  /** One release. */
  method StepFree(alloc: PageAllocator, k: nat, held: seq<Lease>, ghost total: set<nat>) returns (held': seq<Lease>)
    requires Running(alloc, held, total)
    modifies alloc`nrFree, alloc`free, alloc`freeCount, alloc.pool, alloc.memMap
    ensures Running(alloc, held', total)
    ensures PageStep(old(StateOf(alloc, held)), FreeBlockAt(k), StateOf(alloc, held'))
  {
    hide PageAllocator.Core, OtherListsSame, Unlinked, OnlyBuddyChanged, Block, Aligned, Leased;
    held' := held;
    if k < |held| {
      ghost var lists, free := alloc.pool.lists, alloc.free;
      held' := held[..k] + held[k + 1..];
      DropLease(free, held, total, k);
      alloc.FreePages(held[k].pfn, held[k].order);
      hide LeasesApart;
      forall i | 0 <= i < |held'|
        ensures alloc.Held(held'[i].pfn, held'[i].order)
      {
        assert held'[i] == held[if i < k then i else i + 1];
        assert held'[i].Pages() !! alloc.free;
        StillHeld(alloc, lists, held'[i].pfn, held'[i].order);
      }
    }
  }

  /** Any run, started with nothing held: every call does what PageStep says; the held blocks are disjoint, aligned and in
      range, and with the free pages they make up the pages there were; releasing everything restores the free pages and the
      blocks on every free list. */
  method Run(alloc: PageAllocator, ops: seq<PageOp>) returns (held: seq<Lease>, ghost states: seq<PageState>)
    requires alloc.Valid()
    modifies alloc`nrFree, alloc`free, alloc`freeCount, alloc.pool, alloc.memMap
    ensures Trace(states, ops) && states[0] == old(StateOf(alloc, [])) && states[|ops|] == StateOf(alloc, held)
    ensures Running(alloc, held, old(alloc.free))
    ensures held == [] ==> alloc.free == old(alloc.free)
    ensures held == [] ==> forall p: nat, k: nat ::
              Listed(alloc.pool.lists, p, k) <==> old(Listed(alloc.pool.lists, p, k))
  {
    ghost var lists, free := alloc.pool.lists, alloc.free;
    held := [];
    assert ListsCanonical(lists, free);
    hide Listed, Canonical, Block, PageAllocator.Held, LeasesApart;
    assert Running(alloc, held, free);
    states := [StateOf(alloc, held)];
    hide Running, ListsCanonical, PageStep;
    for i := 0 to |ops|
      invariant Running(alloc, held, free)
      invariant Trace(states, ops[..i]) && states[0] == old(StateOf(alloc, [])) && states[i] == StateOf(alloc, held)
    {
      match ops[i] {
        case AllocBlock(order) => held := StepAlloc(alloc, order, held, free);
        case FreeBlockAt(k) => held := StepFree(alloc, k, held, free);
      }
      TraceMore(states, ops, i, StateOf(alloc, held));
      states := states + [StateOf(alloc, held)];
    }
    assert ops[..|ops|] == ops;
    RunEnd(alloc, held, lists, free);
  }

  lemma RunEnd(alloc: PageAllocator, held: seq<Lease>, lists: Lists, free: set<nat>)
    requires Running(alloc, held, free) && ListsCanonical(lists, free)
    ensures held == [] ==> alloc.free == free
    ensures held == [] ==> forall p: nat, k: nat :: Listed(alloc.pool.lists, p, k) <==> Listed(lists, p, k)
  {
    hide Listed, Canonical;
    if held == [] {
      assert forall x: nat :: !Leased(held, x);
      assert alloc.free == free;
      ListsDetermined(lists, alloc.pool.lists, free);
    }
  }
}
