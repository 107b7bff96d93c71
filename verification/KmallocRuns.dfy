/** Properties of whole runs of kmalloc, kzalloc, kfree and caller writes (mm/slab.c). */
module KmallocRuns {
  import opened Machine
  import opened IntrusiveList
  import opened Words
  import opened PageAlloc
  import opened SlabPages
  import opened SlabHeap
  import opened Kmalloc
  import PageRuns

  /** Between calls, every slab has a live object. */
  lemma NoIdleSlab(h: Heap, p: nat) returns (slot: nat)
    requires h.Consistent({}) && p in h.slabs
    ensures h.IsLive(Small(p, slot))
  {
    assert h.SlabAt(p) && h.map'[p - h.base].inuse > 0;
    var chain, n := h.slabs[p].chain, Objects(h.slabs[p].cache);
    hide *;
    if s: nat :| s < n && s !in chain {
      slot := s;
    } else {
      slot := 0;
      CoverBound(chain, n);
    }
    LiveSlot(h, p, slot);
  }

  lemma LiveSlot(h: Heap, p: nat, s: nat)
    requires p in h.slabs && s < Objects(h.slabs[p].cache) && s !in h.slabs[p].chain
    ensures h.IsLive(Small(p, s))
  {
  }

  /** A sequence containing all numbers below `n` has at least `n` elements. */
  lemma {:induction false} CoverBound(s: seq<nat>, n: nat)
    requires forall x: nat :: x < n ==> x in s
    ensures |s| >= n
  {
    if n > 0 {
      assert n - 1 in s;
      var k :| 0 <= k < |s| && s[k] == n - 1;
      var t := s[..k] + s[k + 1..];
      forall x: nat | x < n - 1
        ensures x in t
      {
        assert x in s;
        var j :| 0 <= j < |s| && s[j] == x;
        assert t[if j < k then j else j - 1] == x;
      }
      CoverBound(t, n - 1);
    }
  }

  /** With nothing live, every page kmalloc was given is free again. */
  lemma AllReleased(h: Heap)
    requires h.Consistent({}) && forall o :: !h.IsLive(o)
    ensures h.free == h.owned && h.slabs == map[] && h.large == map[]
  {
    forall p | p in h.slabs
      ensures false
    {
      var slot := NoIdleSlab(h, p);
    }
    forall p | p in h.large
      ensures false
    {
      assert h.IsLive(Big(p));
    }
    assert forall x :: !InBlocks(h.large, x);
  }

  /** One call a client makes. `which` picks one of the objects the client holds. */
  datatype Op = Alloc(size: nat) | AllocZeroed(size: nat) | Free(which: nat) | Store(which: nat, offset: nat, bytes: seq<Byte>)

  /** The address and requested size of an object, as the client remembers them. */
  datatype Handle = Handle(addr: nat, size: nat)

  ghost predicate Names(h: Heap, handle: Handle, o: Object) {
    h.IsLive(o) && h.Start(o) == handle.addr && handle.size <= h.Length(o)
  }

  /** The client holds exactly the live objects, each once. */
  ghost predicate Holding(h: Heap, held: seq<Handle>, objects: seq<Object>) {
    && |held| == |objects|
    && (forall o :: h.IsLive(o) <==> o in objects)
    && Distinct(objects)
    && (forall i :: 0 <= i < |objects| ==> Names(h, held[i], objects[i]))
  }

  lemma HoldMore(h: Heap, g: Heap, held: seq<Handle>, objects: seq<Object>, handle: Handle, o: Object)
    requires Holding(h, held, objects) && Allocated(h, g, o) && Names(g, handle, o)
    ensures Holding(g, held + [handle], objects + [o])
  {
    hide Heap.IsLive, Heap.Start, Heap.Length, SameData;
    assert forall x :: x in objects + [o] <==> x in objects || x == o;
    forall i | 0 <= i < |objects|
      ensures Names(g, held[i], objects[i])
    {
      assert Names(h, held[i], objects[i]) && Unmoved(h, g, objects[i]);
    }
  }

  /** Dropping one of several different elements drops just that one. */
  lemma DropMembers(s: seq<Object>, k: nat)
    requires Distinct(s) && k < |s|
    ensures var rest := s[..k] + s[k + 1..];
            Distinct(rest) && forall x :: x in rest <==> x in s && x != s[k]
  {
    var rest := s[..k] + s[k + 1..];
    forall x | x in s && x != s[k]
      ensures x in rest
    {
      var i :| 0 <= i < |s| && s[i] == x;
      assert rest[if i < k then i else i - 1] == x;
    }
  }

  lemma HoldLess(h: Heap, g: Heap, held: seq<Handle>, objects: seq<Object>, k: nat)
    requires Holding(h, held, objects) && k < |objects| && Allocated(g, h, objects[k])
    ensures Holding(g, held[..k] + held[k + 1..], objects[..k] + objects[k + 1..])
  {
    hide Distinct, Heap.IsLive, Heap.Start, Heap.Length, SameData;
    var rest := objects[..k] + objects[k + 1..];
    DropMembers(objects, k);
    forall i | 0 <= i < |rest|
      ensures Names(g, (held[..k] + held[k + 1..])[i], rest[i])
    {
      var j := if i < k then i else i + 1;
      assert rest[i] in rest && Names(h, held[j], objects[j]);
      assert g.IsLive(rest[i]) && Unmoved(g, h, rest[i]);
    }
  }

  lemma HoldSame(h: Heap, g: Heap, held: seq<Handle>, objects: seq<Object>, o: Object, at: nat, t: seq<Byte>)
    requires Holding(h, held, objects) && StoredIn(h, g, o, at, t)
    ensures Holding(g, held, objects)
  {
    hide Objects, ObjSize, Off, Overlay;
    forall x
      ensures h.IsLive(x) <==> g.IsLive(x)
      ensures h.IsLive(x) ==> h.Start(x) == g.Start(x) && h.Length(x) == g.Length(x)
    {
    }
    forall i | 0 <= i < |objects|
      ensures Names(g, held[i], objects[i])
    {
      assert Names(h, held[i], objects[i]);
    }
  }

  lemma Held(h: Heap, held: seq<Handle>, objects: seq<Object>, k: nat)
    requires Holding(h, held, objects) && k < |held|
    ensures k < |objects| && Names(h, held[k], objects[k])
  {
  }

  ghost predicate Running(heap: SlabAllocator, owned: set<nat>, held: seq<Handle>, objects: seq<Object>)
    reads heap, heap.pages, heap.pages.pool, heap.pages.memMap, heap.ram
  {
    heap.Valid() && heap.owned == owned && Holding(heap.H(), held, objects)
  }

  /** What the client and the heap are between calls. */
  datatype RunState = RunState(heap: Heap, held: seq<Handle>, objects: seq<Object>)

  ghost function StateOf(heap: SlabAllocator, held: seq<Handle>, objects: seq<Object>): RunState
    reads heap, heap.pages, heap.pages.pool, heap.pages.memMap, heap.ram
  {
    RunState(heap.H(), held, objects)
  }

  /** The `size` bytes at kernel address `addr` are zero. */
  ghost predicate ZeroAt(h: Heap, addr: nat, size: nat) {
    var at := addr - VA_OFFSET - h.base * PAGE_SIZE;
    0 <= at && at + size <= |h.ram| && forall a :: at <= a < at + size ==> h.ram[a] == 0
  }

  /** An allocation fails, changing nothing, exactly for size zero and where the heap cannot serve it; otherwise the client
      gets exactly one new object of the right size. */
  ghost predicate AllocStep(s: RunState, size: nat, zeroed: bool, s': RunState) {
    if size == 0 || !CanServe(s.heap, size) then s' == s
    else
      && |s'.held| == |s.held| + 1 && |s'.objects| == |s.objects| + 1
      && var handle, o := s'.held[|s.held|], s'.objects[|s.objects|];
         && s'.held == s.held + [handle] && s'.objects == s.objects + [o] && handle.size == size
         && Allocated(s.heap, s'.heap, o) && s'.heap.Start(o) == handle.addr && RightSize(s'.heap, o, size)
         && (zeroed ==> ZeroAt(s'.heap, handle.addr, size))
  }

  /** A release takes back exactly the object it names. */
  ghost predicate FreeStep(s: RunState, k: nat, s': RunState) {
    if k < |s.held| && k < |s.objects| then
      && Allocated(s'.heap, s.heap, s.objects[k])
      && s'.held == s.held[..k] + s.held[k + 1..] && s'.objects == s.objects[..k] + s.objects[k + 1..]
    else s' == s
  }

  /** A write within an object changes exactly its bytes. */
  ghost predicate StoreStep(s: RunState, k: nat, offset: nat, bytes: seq<Byte>, s': RunState) {
    if k < |s.held| && k < |s.objects| && offset + |bytes| <= s.held[k].size then
      StoredIn(s.heap, s'.heap, s.objects[k], offset, bytes) && s'.held == s.held && s'.objects == s.objects
    else s' == s
  }

  /** One call; requests that the client has no right to make are skipped. */
  ghost predicate RunStep(s: RunState, op: Op, s': RunState) {
    match op
    case Alloc(size) => AllocStep(s, size, false, s')
    case AllocZeroed(size) => AllocStep(s, size, true, s')
    case Free(k) => FreeStep(s, k, s')
    case Store(k, offset, bytes) => StoreStep(s, k, offset, bytes, s')
  }

  /** The states that the calls go through. */
  ghost predicate Trace(states: seq<RunState>, ops: seq<Op>) {
    |states| == |ops| + 1 && forall i :: 0 <= i < |ops| ==> RunStep(states[i], ops[i], states[i + 1])
  }

  lemma TraceMore(states: seq<RunState>, ops: seq<Op>, i: nat, s: RunState)
    requires i < |ops| && Trace(states, ops[..i]) && RunStep(states[i], ops[i], s)
    ensures Trace(states + [s], ops[..i + 1])
  {
    hide RunStep;
    var more, done := states + [s], ops[..i + 1];
    forall j | 0 <= j < |done|
      ensures RunStep(more[j], done[j], more[j + 1])
    {
      assert j < i ==> RunStep(states[j], ops[..i][j], states[j + 1]);
    }
  }

  /** One step of a run; requests the client has no right to make are skipped. */
  method Step(heap: SlabAllocator, op: Op, held: seq<Handle>, ghost objects: seq<Object>, ghost owned: set<nat>)
    returns (held': seq<Handle>, ghost objects': seq<Object>)
    requires Running(heap, owned, held, objects)
    modifies heap`slabs, heap`large, heap`owned, heap.pages`nrFree, heap.pages`free, heap.pages`freeCount,
             heap.pages.pool, heap.pages.memMap, heap.ram
    ensures Running(heap, owned, held', objects')
    ensures RunStep(old(StateOf(heap, held, objects)), op, StateOf(heap, held', objects'))
  {
    hide AllocStep, FreeStep, StoreStep, Running;
    match op {
      case Alloc(size) => held', objects' := StepAlloc(heap, size, false, held, objects, owned);
      case AllocZeroed(size) => held', objects' := StepAlloc(heap, size, true, held, objects, owned);
      case Free(k) => held', objects' := StepFree(heap, k, held, objects, owned);
      case Store(k, offset, bytes) =>
        StepStore(heap, k, offset, bytes, held, objects, owned);
        held', objects' := held, objects;
    }
  }

  method StepAlloc(heap: SlabAllocator, size: nat, zeroed: bool, held: seq<Handle>, ghost objects: seq<Object>, ghost owned: set<nat>)
    returns (held': seq<Handle>, ghost objects': seq<Object>)
    requires Running(heap, owned, held, objects)
    modifies heap`slabs, heap`large, heap`owned, heap.pages`nrFree, heap.pages`free, heap.pages`freeCount,
             heap.pages.pool, heap.pages.memMap, heap.ram
    ensures Running(heap, owned, held', objects')
    ensures AllocStep(old(StateOf(heap, held, objects)), size, zeroed, StateOf(heap, held', objects'))
  {
    hide SlabAllocator.Valid, Holding, Allocated, CanServe, RightSize, Heap.IsLive, Heap.Start, Heap.Length;
    ghost var h := heap.H();
    var addr: nat;
    ghost var o: Object;
    if zeroed {
      addr, o := heap.Kzalloc(size);
    } else {
      addr, o := heap.Kmalloc(size);
    }
    held', objects' := held, objects;
    if addr != 0 {
      SameOwned(h, heap.H(), o);
      HoldMore(h, heap.H(), held, objects, Handle(addr, size), o);
      held', objects' := held + [Handle(addr, size)], objects + [o];
    }
  }

  lemma SameOwned(h: Heap, g: Heap, o: Object)
    requires Allocated(h, g, o)
    ensures h.owned == g.owned && g.IsLive(o)
  {
  }

  method StepFree(heap: SlabAllocator, k: nat, held: seq<Handle>, ghost objects: seq<Object>, ghost owned: set<nat>)
    returns (held': seq<Handle>, ghost objects': seq<Object>)
    requires Running(heap, owned, held, objects)
    modifies heap`slabs, heap`large, heap`owned, heap.pages`nrFree, heap.pages`free, heap.pages`freeCount,
             heap.pages.pool, heap.pages.memMap, heap.ram
    ensures Running(heap, owned, held', objects')
    ensures FreeStep(old(StateOf(heap, held, objects)), k, StateOf(heap, held', objects'))
  {
    hide SlabAllocator.Valid, Holding, Allocated, Heap.IsLive, Heap.Start, Heap.Length;
    SameCount(heap, owned, held, objects);
    held', objects' := held, objects;
    if k < |held| {
      ghost var h := heap.H();
      Held(h, held, objects, k);
      Nonzero(h, objects[k]);
      heap.Kfree(held[k].addr, objects[k]);
      SameOwned(heap.H(), h, objects[k]);
      HoldLess(h, heap.H(), held, objects, k);
      held', objects' := held[..k] + held[k + 1..], objects[..k] + objects[k + 1..];
    }
  }

  lemma SameCount(heap: SlabAllocator, owned: set<nat>, held: seq<Handle>, objects: seq<Object>)
    requires Running(heap, owned, held, objects)
    ensures |held| == |objects|
  {
  }

  lemma Nonzero(h: Heap, o: Object)
    requires h.IsLive(o)
    ensures h.Start(o) != 0
  {
  }

  method StepStore(heap: SlabAllocator, k: nat, offset: nat, bytes: seq<Byte>, held: seq<Handle>, ghost objects: seq<Object>,
                   ghost owned: set<nat>)
    requires Running(heap, owned, held, objects)
    modifies heap.ram
    ensures Running(heap, owned, held, objects)
    ensures StoreStep(old(StateOf(heap, held, objects)), k, offset, bytes, StateOf(heap, held, objects))
  {
    hide SlabAllocator.Valid, Holding, StoredIn, Heap.IsLive, Heap.Start, Heap.Length;
    SameCount(heap, owned, held, objects);
    if k < |held| && offset + |bytes| <= held[k].size {
      ghost var h := heap.H();
      Held(h, held, objects, k);
      heap.CallerStore(held[k].addr, offset, bytes, objects[k]);
      HoldSame(h, heap.H(), held, objects, objects[k], offset, bytes);
    }
  }

  /** Any run from a state with nothing live: every call does what RunStep says; the invariant and the pages in play are
      kept; the client's handles name the live objects; and once all of them are freed the free pages, and with them the
      blocks on every free list, are what they were at the start. */
  method Run(heap: SlabAllocator, ops: seq<Op>) returns (held: seq<Handle>, ghost objects: seq<Object>, ghost states: seq<RunState>)
    requires heap.Valid() && forall o :: !heap.H().IsLive(o)
    modifies heap`slabs, heap`large, heap`owned, heap.pages`nrFree, heap.pages`free, heap.pages`freeCount,
             heap.pages.pool, heap.pages.memMap, heap.ram
    ensures Trace(states, ops) && states[0] == old(StateOf(heap, [], [])) && states[|ops|] == StateOf(heap, held, objects)
    ensures heap.Valid() && heap.owned == old(heap.owned) && Holding(heap.H(), held, objects)
    ensures held == [] ==> heap.pages.free == old(heap.pages.free)
    ensures held == [] ==> forall p: nat, k: nat ::
              Listed(heap.pages.pool.lists, p, k) <==> old(Listed(heap.pages.pool.lists, p, k))
  {
    hide Heap.IsLive, Heap.Consistent, Listed;
    ghost var owned := heap.owned;
    held, objects := [], [];
    AllReleased(heap.H());
    ghost var lists, free := heap.pages.pool.lists, heap.pages.free;
    assert ListsCanonical(lists, free);
    states := [StateOf(heap, [], [])];
    assert Trace(states, ops[..0]);
    ghost var first := states[0];
    assert Running(heap, owned, held, objects);
    hide PageAllocator.Valid, Running, RunStep, ListsCanonical;
    for i := 0 to |ops|
      invariant Running(heap, owned, held, objects)
      invariant Trace(states, ops[..i]) && states[0] == first && states[i] == StateOf(heap, held, objects)
    {
      held, objects := Step(heap, ops[i], held, objects, owned);
      TraceMore(states, ops, i, StateOf(heap, held, objects));
      states := states + [StateOf(heap, held, objects)];
    }
    assert ops[..|ops|] == ops;
    RunEnd(heap, owned, held, objects, lists, free);
  }

  lemma RunEnd(heap: SlabAllocator, owned: set<nat>, held: seq<Handle>, objects: seq<Object>, lists: Lists, free: set<nat>)
    requires Running(heap, owned, held, objects) && ListsCanonical(lists, free) && free == owned
    ensures heap.Valid() && heap.owned == owned && Holding(heap.H(), held, objects)
    ensures held == [] ==> heap.pages.free == free
    ensures held == [] ==> forall p: nat, k: nat :: Listed(heap.pages.pool.lists, p, k) <==> Listed(lists, p, k)
  {
    hide Heap.IsLive, Heap.Consistent;
    if held == [] {
      AllReleased(heap.H());
      PageRuns.ListsDetermined(lists, heap.pages.pool.lists, free);
    }
  }
}
