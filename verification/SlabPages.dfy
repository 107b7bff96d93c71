/** One slab: a page carved into equal objects, its free objects chained through their own first word.

Everything here is about the bytes of one page and its descriptor; SlabHeap.dfy puts pages together.
*/
module SlabPages {
  import opened Machine
  import opened PowersOfTwo
  import opened Words
  import opened IntrusiveList
  import opened PageAlloc

  const KMALLOC_CACHES: nat := 8
  const KMALLOC_MIN_SIZE: nat := 16
  const KMALLOC_MAX_SIZE: nat := 2048

  /** Object size and objects per slab of a size-class cache. */
  function ObjSize(c: nat): (r: nat)
    ensures r > 0
  {
    KMALLOC_MIN_SIZE * Pow2(c)
  }

  function ObjectsOf(size: nat): nat
    requires size > 0
  {
    PAGE_SIZE / size
  }

  function Objects(c: nat): nat { ObjectsOf(ObjSize(c)) }

  lemma CacheGeometry(c: nat)
    requires c < KMALLOC_CACHES
    ensures Objects(c) * ObjSize(c) == PAGE_SIZE && ObjSize(c) % 16 == 0
    ensures 16 <= ObjSize(c) <= KMALLOC_MAX_SIZE && 2 <= Objects(c)
    ensures PAGE_SIZE % ObjSize(c) == 0
  {
    assert Pow2(4) == 16 && Pow2(5) == 32 && Pow2(6) == 64 && Pow2(7) == 128;
    assert Pow2(0) == 1 && Pow2(1) == 2 && Pow2(2) == 4 && Pow2(3) == 8;
  }

  /** Byte offset of object `slot` within the page. */
  function Off(c: nat, slot: nat): nat { slot * ObjSize(c) }

  lemma SlotBounds(c: nat, slot: nat)
    requires c < KMALLOC_CACHES && slot < Objects(c)
    ensures Off(c, slot) + ObjSize(c) <= PAGE_SIZE && ObjSize(c) >= 16
  {
    CacheGeometry(c);
    MulAtLeast(Objects(c) - slot, ObjSize(c));
    assert (Objects(c) - slot) * ObjSize(c) == Objects(c) * ObjSize(c) - slot * ObjSize(c);
  }

  lemma SlotsApart(c: nat, i: nat, j: nat)
    requires c < KMALLOC_CACHES && i < j
    ensures Off(c, i) + ObjSize(c) <= Off(c, j)
  {
    MulAtLeast(j - i, ObjSize(c));
    assert (j - i) * ObjSize(c) == Off(c, j) - Off(c, i);
  }

  /** A slab: its cache and the slots of its free objects, in chain order. */
  datatype Slab = Slab(cache: nat, chain: seq<nat>)

  ghost predicate ChainShape(slab: Slab) {
    && slab.cache < KMALLOC_CACHES
    && Distinct(slab.chain)
    && forall s :: s in slab.chain ==> s < Objects(slab.cache)
  }

  /** Address of the `i`-th chained object, null past the end. `va` is the address of the page. */
  ghost function Link(va: nat, slab: Slab, i: nat): nat {
    if i < |slab.chain| then va + Off(slab.cache, slab.chain[i]) else 0
  }

  /** Chained object `i` stores the address of the next one. */
  ghost predicate ChainAt(bytes: seq<Byte>, va: nat, slab: Slab, i: nat) {
    && i < |slab.chain|
    && Off(slab.cache, slab.chain[i]) + WORD_SIZE <= |bytes|
    && WordAt(bytes, Off(slab.cache, slab.chain[i])) == Link(va, slab, i + 1)
  }

  ghost predicate ChainStored(bytes: seq<Byte>, va: nat, slab: Slab) {
    forall i: nat :: i < |slab.chain| ==> ChainAt(bytes, va, slab, i)
  }

  /** The descriptor and the page contents represent `slab`. */
  ghost predicate SlabOk(bytes: seq<Byte>, va: nat, page: Page, slab: Slab) {
    && |bytes| == PAGE_SIZE && 0 < va && va + PAGE_SIZE <= Pow256(WORD_SIZE)
    && ChainShape(slab) && ChainStored(bytes, va, slab)
    && page.slab && !page.buddy && page.cache == slab.cache
    && page.freelist == Link(va, slab, 0)
    && page.inuse + |slab.chain| == Objects(slab.cache)
  }

  ghost predicate SameWord(s: seq<Byte>, t: seq<Byte>, a: nat) {
    && a + WORD_SIZE <= |s| && a + WORD_SIZE <= |t|
    && s[a..a + WORD_SIZE] == t[a..a + WORD_SIZE]
  }

  /** A change of the page that leaves alone the first word of every chained object keeps the chain. */
  lemma ChainFrame(bytes: seq<Byte>, bytes': seq<Byte>, va: nat, slab: Slab)
    requires ChainStored(bytes, va, slab) && |bytes| == |bytes'|
    requires forall s :: s in slab.chain ==> SameWord(bytes, bytes', Off(slab.cache, s))
    ensures ChainStored(bytes', va, slab)
  {
    hide Off;
    forall i: nat | i < |slab.chain|
      ensures ChainAt(bytes', va, slab, i)
    {
      assert ChainAt(bytes, va, slab, i) && slab.chain[i] in slab.chain;
    }
  }

  /** Bytes changed within one object do not touch the first word of another. */
  lemma OtherSlotKept(bytes: seq<Byte>, c: nat, slot: nat, at: nat, t: seq<Byte>, s: nat)
    requires |bytes| == PAGE_SIZE && c < KMALLOC_CACHES && slot < Objects(c) && s < Objects(c) && s != slot
    requires Off(c, slot) <= at && at + |t| <= Off(c, slot) + ObjSize(c)
    ensures at + |t| <= |bytes| && SameWord(bytes, Overlay(bytes, at, t), Off(c, s))
  {
    SlotBounds(c, slot);
    SlotBounds(c, s);
    if s < slot { SlotsApart(c, s, slot); } else { SlotsApart(c, slot, s); }
    OverlaySlice(bytes, at, t, Off(c, s), Off(c, s) + WORD_SIZE);
  }

  /** Writing inside an object that is not chained keeps the slab intact, whatever is written. */
  lemma WriteLive(bytes: seq<Byte>, va: nat, page: Page, slab: Slab, slot: nat, at: nat, t: seq<Byte>)
    requires SlabOk(bytes, va, page, slab) && slot < Objects(slab.cache) && slot !in slab.chain
    requires Off(slab.cache, slot) <= at && at + |t| <= Off(slab.cache, slot) + ObjSize(slab.cache)
    ensures at + |t| <= PAGE_SIZE && SlabOk(Overlay(bytes, at, t), va, page, slab)
  {
    SlotBounds(slab.cache, slot);
    forall s | s in slab.chain
      ensures SameWord(bytes, Overlay(bytes, at, t), Off(slab.cache, s))
    {
      OtherSlotKept(bytes, slab.cache, slot, at, t, s);
    }
    ChainFrame(bytes, Overlay(bytes, at, t), va, slab);
  }

  /** Taking the first free object: the freelist moves to the word stored in it. */
  lemma PopObject(bytes: seq<Byte>, va: nat, page: Page, slab: Slab)
    requires SlabOk(bytes, va, page, slab) && slab.chain != []
    ensures Off(slab.cache, slab.chain[0]) + WORD_SIZE <= PAGE_SIZE
    ensures SlabOk(bytes, va,
                   page.(freelist := WordAt(bytes, Off(slab.cache, slab.chain[0])), inuse := page.inuse + 1),
                   slab.(chain := slab.chain[1..]))
    ensures page.freelist == va + Off(slab.cache, slab.chain[0])
    ensures WordAt(bytes, Off(slab.cache, slab.chain[0])) == 0 <==> |slab.chain| == 1
  {
    hide Off;
    assert ChainAt(bytes, va, slab, 0);
    var rest := slab.(chain := slab.chain[1..]);
    assert forall s :: s in rest.chain ==> s in slab.chain;
    forall i: nat | i < |rest.chain|
      ensures ChainAt(bytes, va, rest, i)
    {
      assert ChainAt(bytes, va, slab, i + 1);
    }
  }

  /** Returning an object: its first word takes the old freelist, which then points at it. */
  lemma PushObject(bytes: seq<Byte>, va: nat, page: Page, slab: Slab, slot: nat)
    requires SlabOk(bytes, va, page, slab) && slot < Objects(slab.cache) && slot !in slab.chain
    ensures Off(slab.cache, slot) + WORD_SIZE <= PAGE_SIZE
    ensures page.inuse > 0
    ensures SlabOk(Overlay(bytes, Off(slab.cache, slot), ToBytes(page.freelist, WORD_SIZE)), va,
                   page.(freelist := va + Off(slab.cache, slot), inuse := page.inuse - 1),
                   slab.(chain := [slot] + slab.chain))
  {
    SlotBounds(slab.cache, slot);
    var at, t := Off(slab.cache, slot), ToBytes(page.freelist, WORD_SIZE);
    WriteLive(bytes, va, page, slab, slot, at, t);
    assert page.freelist < Pow256(WORD_SIZE) by {
      if slab.chain != [] {
        assert slab.chain[0] in slab.chain;
        SlotBounds(slab.cache, slab.chain[0]);
      }
    }
    BytesRoundTrip(page.freelist, WORD_SIZE);
    OverlaySlice(bytes, at, t, at, at + WORD_SIZE);
    PushLinks(Overlay(bytes, at, t), va, slab, slot);
  }

  lemma PushLinks(bytes: seq<Byte>, va: nat, slab: Slab, slot: nat)
    requires ChainShape(slab) && ChainStored(bytes, va, slab) && slot < Objects(slab.cache) && slot !in slab.chain
    requires Off(slab.cache, slot) + WORD_SIZE <= |bytes|
    requires WordAt(bytes, Off(slab.cache, slot)) == Link(va, slab, 0)
    ensures var more := slab.(chain := [slot] + slab.chain);
            ChainShape(more) && ChainStored(bytes, va, more) && |more.chain| <= Objects(slab.cache)
  {
    hide Off, WordAt;
    var more := slab.(chain := [slot] + slab.chain);
    forall i: nat | i < |more.chain|
      ensures ChainAt(bytes, va, more, i)
    {
      if i > 0 { assert ChainAt(bytes, va, slab, i - 1); }
    }
    ChainLength(more);
  }

  /** A chain is no longer than the slab has objects. */
  lemma ChainLength(slab: Slab)
    requires ChainShape(slab)
    ensures |slab.chain| <= Objects(slab.cache)
  {
    DistinctBound(slab.chain, Objects(slab.cache));
  }

  lemma {:induction false} DistinctBound(s: seq<nat>, n: nat)
    requires Distinct(s) && forall x :: x in s ==> x < n
    ensures |s| <= n
  {
    if s != [] {
      assert s[0] in s;
      if n - 1 in s {
        var k :| 0 <= k < |s| && s[k] == n - 1;
        var t := s[..k] + s[k + 1..];
        assert forall x :: x in t ==> x in s && x != n - 1;
        DistinctBound(t, n - 1);
      } else {
        DistinctBound(s, n - 1);
      }
    }
  }

  /** The first `k` objects are chained in address order. */
  ghost predicate Carved(bytes: seq<Byte>, va: nat, c: nat, k: nat) {
    forall i: nat :: i < k ==> CarvedAt(bytes, va, c, i)
  }

  ghost predicate CarvedAt(bytes: seq<Byte>, va: nat, c: nat, i: nat) {
    Off(c, i) + WORD_SIZE <= |bytes| && WordAt(bytes, Off(c, i)) == va + Off(c, i + 1)
  }

  /** Linking object `k` to any address keeps the earlier links. */
  lemma CarveLink(bytes: seq<Byte>, va: nat, c: nat, k: nat, fp: nat)
    requires |bytes| == PAGE_SIZE && c < KMALLOC_CACHES && k < Objects(c) && Carved(bytes, va, c, k)
    requires fp < Pow256(WORD_SIZE)
    ensures Off(c, k) + WORD_SIZE <= PAGE_SIZE
    ensures var bytes' := Overlay(bytes, Off(c, k), ToBytes(fp, WORD_SIZE));
            Carved(bytes', va, c, k) && WordAt(bytes', Off(c, k)) == fp
  {
    SlotBounds(c, k);
    BytesRoundTrip(fp, WORD_SIZE);
    OverlaySlice(bytes, Off(c, k), ToBytes(fp, WORD_SIZE), Off(c, k), Off(c, k) + WORD_SIZE);
    var bytes' := Overlay(bytes, Off(c, k), ToBytes(fp, WORD_SIZE));
    forall i: nat | i < k
      ensures CarvedAt(bytes', va, c, i)
    {
      assert CarvedAt(bytes, va, c, i);
      OtherSlotKept(bytes, c, k, Off(c, k), ToBytes(fp, WORD_SIZE), i);
    }
  }

  /** The chain of a fresh slab: every slot, in order. */
  ghost function AllSlots(c: nat): seq<nat> {
    seq(Objects(c), i requires 0 <= i => i)
  }

  /** A fully carved page is a slab with every object free. */
  lemma CarvedSlab(bytes: seq<Byte>, va: nat, c: nat, page: Page)
    requires |bytes| == PAGE_SIZE && c < KMALLOC_CACHES && 0 < va && va + PAGE_SIZE <= Pow256(WORD_SIZE)
    requires Objects(c) >= 1 && Carved(bytes, va, c, Objects(c) - 1)
    requires Off(c, Objects(c) - 1) + WORD_SIZE <= |bytes| && WordAt(bytes, Off(c, Objects(c) - 1)) == 0
    requires page.slab && !page.buddy && page.cache == c && page.inuse == 0 && page.freelist == va
    ensures SlabOk(bytes, va, page, Slab(c, AllSlots(c)))
  {
    var slab := Slab(c, AllSlots(c));
    hide WordAt, Objects, ObjSize;
    assert Off(c, 0) == 0;
    hide Off;
    forall i: nat | i < |slab.chain|
      ensures ChainAt(bytes, va, slab, i)
    {
      if i + 1 < |slab.chain| { assert CarvedAt(bytes, va, c, i); }
    }
  }

  /** An object boundary lies before the end of the page exactly when it is an object. */
  lemma SlotOrder(c: nat, k: nat)
    requires c < KMALLOC_CACHES && k < Objects(c)
    ensures Off(c, k + 1) < Objects(c) * ObjSize(c) <==> k + 1 < Objects(c)
    ensures Off(c, k + 1) <= PAGE_SIZE && Off(c, k + 2) == Off(c, k + 1) + ObjSize(c)
  {
    SlotBounds(c, k);
    CacheGeometry(c);
    if k + 1 < Objects(c) { SlotsApart(c, k + 1, Objects(c)); }
  }
}
