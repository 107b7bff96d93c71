/** Translation descriptors (mm/mmu.c). A descriptor is a 64-bit word: address bits 47..12, attributes in the
    other bits. The parts occupy different bits, so joining them is addition. */
module Descriptors {
  import opened Machine
  import opened PowersOfTwo

  const TABLE_SIZE: nat := 512
  /** One past the largest output address (bits 47..0). */
  const PA_LIMIT: nat := 0x1_0000_0000_0000
  const PA_PAGES: nat := 0x10_0000_0000

  const TYPE_TABLE: nat := 3
  const TYPE_PAGE: nat := 3
  const NORMAL_NC: nat := 0x4
  const DEVICE: nat := 0x0
  const USER: nat := 0x40
  const RDONLY: nat := 0x80
  const SHARED: nat := 0x300
  const AF: nat := 0x400
  const PXN: nat := 0x20_0000_0000_0000
  const UXN: nat := 0x40_0000_0000_0000

  const PROT_DEFAULT: nat := TYPE_PAGE + AF + SHARED
  const PROT_DEVICE: nat := PROT_DEFAULT + PXN + UXN + DEVICE
  const PAGE_KERNEL: nat := PROT_DEFAULT + PXN + UXN + NORMAL_NC
  const PAGE_KERNEL_RO: nat := PAGE_KERNEL + RDONLY
  const PAGE_KERNEL_ROX: nat := PAGE_KERNEL - PXN + RDONLY
  const PAGE_SHARED: nat := PROT_DEFAULT + NORMAL_NC + USER + PXN + UXN
  const PAGE_READONLY_EXEC: nat := PROT_DEFAULT + NORMAL_NC + USER + RDONLY + PXN

  /** Bits outside the address field. */
  predicate IsProt(prot: nat) { prot % PA_LIMIT < PAGE_SIZE }

  predicate IsPage(pa: nat) { pa % PAGE_SIZE == 0 && pa < PA_LIMIT }

  /** `w & PTE_ADDR_MASK` */
  function AddrOf(w: nat): nat { w / PAGE_SIZE % PA_PAGES * PAGE_SIZE }

  function ProtOf(w: nat): nat { assert w / PAGE_SIZE % PA_PAGES <= w / PAGE_SIZE; w - AddrOf(w) }

  /** A word built from an address and attributes splits back into them. */
  lemma SplitWord(pa: nat, prot: nat)
    requires IsPage(pa) && IsProt(prot)
    ensures AddrOf(pa + prot) == pa && ProtOf(pa + prot) == prot
    ensures (pa + prot) % 4 == prot % 4
  {
    var hi, lo, n := prot / PA_LIMIT, prot % PA_LIMIT, pa / PAGE_SIZE;
    DivModUnique(pa + prot, PAGE_SIZE, hi * PA_PAGES + n, lo);
    DivModUnique(hi * PA_PAGES + n, PA_PAGES, hi, n);
    LowBits(prot, n * 0x400);
  }

  lemma LowBits(x: nat, k: nat)
    ensures (x + 4 * k) % 4 == x % 4
  {
  }

  /** Descriptor type bits 0b11: a table at levels 1 and 2, a page at level 3. */
  predicate IsValid(w: nat) { w % 4 == 3 }

  predicate HasBit(prot: nat, bit: nat)
    requires bit > 0
  {
    prot / bit % 2 == 1
  }

  /** Access permissions, section D8.4 of the Arm Architecture Reference Manual, DDI 0487. */
  predicate WritableEl1(prot: nat) { !HasBit(prot, RDONLY) }
  predicate WritableEl0(prot: nat) { HasBit(prot, USER) && !HasBit(prot, RDONLY) }
  predicate ExecutableEl1(prot: nat) { !HasBit(prot, PXN) }
  predicate ExecutableEl0(prot: nat) { !HasBit(prot, UXN) }
  predicate ReadableEl0(prot: nat) { HasBit(prot, USER) }

  predicate WriteXorExecute(prot: nat) {
    && !(WritableEl1(prot) && ExecutableEl1(prot))
    && !(WritableEl0(prot) && ExecutableEl0(prot))
  }

  /** `a | b` */
  function Or(a: nat, b: nat): nat
    decreases a + b
  {
    if a == 0 then b else if b == 0 then a else
      (if a % 2 == 1 || b % 2 == 1 then 1 else 0) + 2 * Or(a / 2, b / 2)
  }

  lemma OrStep(a: nat, b: nat)
    ensures Or(a, b) == (if a % 2 == 1 || b % 2 == 1 then 1 else 0) + 2 * Or(a / 2, b / 2)
  {
  }

  /** `x << k` */
  function Shl(x: nat, k: nat): nat { if k == 0 then x else 2 * Shl(x, k - 1) }

  /** Bits above and below position `k` are joined separately. */
  lemma {:induction false} OrSplit(x: nat, u: nat, y: nat, v: nat, k: nat)
    requires u < Pow2(k) && v < Pow2(k)
    ensures Or(Shl(x, k) + u, Shl(y, k) + v) == Shl(Or(x, y), k) + Or(u, v)
    decreases k
  {
    if k > 0 {
      assert Pow2(k) == 2 * Pow2(k - 1) && u / 2 < Pow2(k - 1) && v / 2 < Pow2(k - 1);
      ShlStep(x, k);
      ShlStep(y, k);
      ShlStep(Or(x, y), k);
      hide Or, Shl, Pow2;
      OrSplit(x, u / 2, y, v / 2, k - 1);
      OrShift(Shl(x, k - 1), u, Shl(y, k - 1), v, Shl(Or(x, y), k - 1));
    } else {
      OrZero(0);
    }
  }

  lemma ShlStep(x: nat, k: nat)
    requires k > 0
    ensures Shl(x, k) == 2 * Shl(x, k - 1)
  {
  }

  lemma OrShift(a: nat, u: nat, b: nat, v: nat, c: nat)
    requires Or(a + u / 2, b + v / 2) == c + Or(u / 2, v / 2)
    ensures Or(2 * a + u, 2 * b + v) == 2 * c + Or(u, v)
  {
    hide Or;
    OrStep(2 * a + u, 2 * b + v);
    OrStep(u, v);
    assert (2 * a + u) / 2 == a + u / 2 && (2 * b + v) / 2 == b + v / 2;
  }

  lemma ShlFour(x: nat, k: nat)
    ensures Shl(x, k + 4) == 16 * Shl(x, k) && Pow2(k + 4) == 16 * Pow2(k)
  {
    assert Shl(x, k + 2) == 4 * Shl(x, k) && Shl(x, k + 4) == 4 * Shl(x, k + 2);
    assert Pow2(k + 2) == 4 * Pow2(k) && Pow2(k + 4) == 4 * Pow2(k + 2);
  }

  lemma ShlPage(x: nat)
    ensures Shl(x, 12) == PAGE_SIZE * x && Pow2(12) == PAGE_SIZE
  {
    assert Shl(x, 0) == x && Pow2(0) == 1;
    hide Shl, Pow2;
    ShlFour(x, 0);
    ShlFour(x, 4);
    ShlFour(x, 8);
  }

  lemma ShlPages(x: nat)
    ensures Shl(x, 36) == PA_PAGES * x && Pow2(36) == PA_PAGES
  {
    ShlPage(x);
    hide Shl, Pow2;
    ShlFour(x, 12);
    ShlFour(x, 16);
    ShlFour(x, 20);
    ShlFour(x, 24);
    ShlFour(x, 28);
    ShlFour(x, 32);
  }

  /** Joining a page address and attributes with `|` adds them: their bits are apart. */
  lemma OrIsSum(pa: nat, prot: nat)
    requires IsPage(pa) && IsProt(prot)
    ensures Or(pa, prot) == pa + prot
  {
    hide Or;
    var hi, lo, n := prot / PA_LIMIT, prot % PA_LIMIT, pa / PAGE_SIZE;
    OrFields(n, hi, lo);
    assert pa == PAGE_SIZE * n && prot == PAGE_SIZE * (PA_PAGES * hi) + lo;
  }

  lemma OrFields(n: nat, hi: nat, lo: nat)
    requires n < PA_PAGES && lo < PAGE_SIZE
    ensures Or(PAGE_SIZE * n, PAGE_SIZE * (PA_PAGES * hi) + lo) == PAGE_SIZE * (PA_PAGES * hi + n) + lo
  {
    hide Pow2, Or, Shl;
    ShlPages(0);
    ShlPages(hi);
    OrZero(hi);
    OrZero(n);
    OrSplit(0, n, hi, 0, 36);
    ShlPage(n);
    ShlPage(PA_PAGES * hi);
    ShlPage(PA_PAGES * hi + n);
    OrZero(lo);
    OrSplit(n, 0, PA_PAGES * hi, lo, 12);
  }

  lemma OrZero(a: nat)
    ensures Or(0, a) == a && Or(a, 0) == a
  {
  }
}

/** Three-level tables as a value: the words of the roots and of the pool, and which entry each pool table hangs from. */
module RadixTree {
  import opened Machine
  import opened PowersOfTwo
  import opened Sets
  import opened Descriptors
  import opened BuddyBlocks

  /** The entry that refers to a pool table: of a root, or of a level 2 table. */
  datatype Slot = L2(root: nat, i: nat) | L3(root: nat, i: nat, j: nat)

  const ROOTS: nat := 3
  const SWAPPER: nat := 0
  const IDMAP: nat := 1
  const APPS: nat := 2
  /** Pages in one root's address space: 27 bits of page number. */
  const SPACE: nat := 0x800_0000

  /** Page number within an address space, and its three indices. */
  function PageOf(va: nat): (p: nat) ensures p < SPACE { va / PAGE_SIZE % SPACE }
  function Index1(p: nat): (i: nat) ensures p < SPACE ==> i < TABLE_SIZE { p / 0x4_0000 }
  function Index2(p: nat): (j: nat) ensures j < TABLE_SIZE { p / 0x200 % 0x200 }
  function Index3(p: nat): (k: nat) ensures k < TABLE_SIZE { p % 0x200 }

  lemma IndicesIdentify(p: nat, q: nat)
    ensures p == q <==> Index1(p) == Index1(q) && Index2(p) == Index2(q) && Index3(p) == Index3(q)
  {
    IndicesSum(p);
    IndicesSum(q);
    hide Index1, Index2, Index3;
  }

  lemma IndicesSum(p: nat)
    ensures p == Index1(p) * 0x4_0000 + Index2(p) * 0x200 + Index3(p)
  {
    var t := p / 0x200;
    DivModUnique(p, 0x4_0000, t / 0x200, t % 0x200 * 0x200 + p % 0x200);
  }

  function SlotL2(root: nat, p: nat): Slot { L2(root, Index1(p)) }
  function SlotL3(root: nat, p: nat): Slot { L3(root, Index1(p), Index2(p)) }

  /** Position of entry `j` of table `t` in an array of tables. */
  function At(t: nat, j: nat): nat { t * TABLE_SIZE + j }

  lemma AtApart(t: nat, j: nat, u: nat, k: nat)
    requires j < TABLE_SIZE && k < TABLE_SIZE
    ensures At(t, j) == At(u, k) <==> t == u && j == k
  {
  }

  lemma AtInside(t: nat, j: nat, count: nat)
    requires t < count && j < TABLE_SIZE
    ensures At(t, j) < count * TABLE_SIZE
  {
  }

  /** The tables that mapping pages [p, p + n) needs. */
  ghost function Needed(root: nat, p: nat, n: nat): set<Slot> {
    if n == 0 then {} else Needed(root, p, n - 1) + {SlotL2(root, p + n - 1), SlotL3(root, p + n - 1)}
  }

  lemma {:induction false} NeededGrows(root: nat, p: nat, m: nat, n: nat)
    requires m <= n
    ensures Needed(root, p, m) <= Needed(root, p, n)
  {
    if m < n { NeededGrows(root, p, m, n - 1); }
  }

  lemma NeededOne(root: nat, p: nat)
    ensures Needed(root, p, 1) == {SlotL2(root, p), SlotL3(root, p)}
  {
    assert Needed(root, p, 0) == {};
  }

  lemma NeededStep(root: nat, p: nat, n: nat)
    ensures Needed(root, p, n + 1) == Needed(root, p, n) + Needed(root, p + n, 1)
  {
    hide SlotL2, SlotL3;
    NeededOne(root, p + n);
  }

  datatype Radix = Radix(base: nat, count: nat, roots: seq<nat>, pool: seq<nat>, used: nat, where': map<Slot, nat>) {
    /** The descriptor that refers to pool table `t`. */
    function TableWord(t: nat): nat { base + t * PAGE_SIZE + TYPE_TABLE }

    ghost predicate Shape() {
      && |roots| == ROOTS * TABLE_SIZE && |pool| == count * TABLE_SIZE
      && base % PAGE_SIZE == 0 && base + count * PAGE_SIZE <= PA_LIMIT && used <= count
    }

    /** What the entry for a slot must hold. */
    ghost function Ref(s: Slot): nat {
      if s in where' then TableWord(where'[s]) else 0
    }

    ghost predicate RootOk(r: nat, i: nat) {
      At(r, i) < |roots| && roots[At(r, i)] == Ref(L2(r, i))
    }

    ghost predicate MidOk(r: nat, i: nat, j: nat) {
      L2(r, i) in where' ==> At(where'[L2(r, i)], j) < |pool| && pool[At(where'[L2(r, i)], j)] == Ref(L3(r, i, j))
    }

    ghost predicate SlotOk(s: Slot) {
      s in where' ==>
        && where'[s] < used && s.root < ROOTS && s.i < TABLE_SIZE
        && (s.L3? ==> s.j < TABLE_SIZE && L2(s.root, s.i) in where')
    }

    ghost predicate EntryZero(t: nat, j: nat) {
      At(t, j) < |pool| && pool[At(t, j)] == 0
    }

    ghost predicate Injective() {
      |where'| == used && forall s, t :: s in where' && t in where' && where'[s] == where'[t] ==> s == t
    }

    ghost predicate Slots() { forall s :: SlotOk(s) }

    ghost predicate RootsRefer() {
      forall r: nat, i: nat :: r < ROOTS && i < TABLE_SIZE ==> RootOk(r, i)
    }

    ghost predicate MidsRefer() {
      forall r: nat, i: nat, j: nat :: j < TABLE_SIZE ==> MidOk(r, i, j)
    }

    ghost predicate RestZero() {
      forall t: nat, j: nat :: used <= t < count && j < TABLE_SIZE ==> EntryZero(t, j)
    }

    /** Entries of roots and level 2 tables refer to the tables in use, each from exactly one entry. */
    ghost predicate Tree() {
      Shape() && Injective() && Slots() && RootsRefer() && MidsRefer() && RestZero()
    }

    /** The level 3 entry of a page. */
    ghost function Leaf(r: nat, p: nat): nat {
      if SlotL3(r, p) in where' && At(where'[SlotL3(r, p)], Index3(p)) < |pool|
      then pool[At(where'[SlotL3(r, p)], Index3(p))] else 0
    }

    ghost predicate SameLeaf(g: Radix, r: nat, p: nat) { g.Leaf(r, p) == Leaf(r, p) }

    /** The flat view is the same. */
    ghost predicate SameLeaves(g: Radix) { forall r: nat, p: nat :: SameLeaf(g, r, p) }

    /** The flat view is the same but for page `p` of `root`, which holds `w`. */
    ghost predicate OneLeaf(g: Radix, root: nat, p: nat, w: nat) {
      g.Leaf(root, p) == w && forall r: nat, q: nat :: (r, q) != (root, p) ==> SameLeaf(g, r, q)
    }

    lemma SameLeavesRefl()
      ensures SameLeaves(this)
    {
    }

    lemma SameLeavesThen(g: Radix, k: Radix)
      requires SameLeaves(g)
      ensures g.SameLeaves(k) ==> SameLeaves(k)
      ensures forall root: nat, p: nat, w: nat :: g.OneLeaf(k, root, p, w) ==> OneLeaf(k, root, p, w)
    {
      hide Leaf;
      forall r: nat, p: nat
        ensures g.SameLeaf(k, r, p) ==> SameLeaf(k, r, p)
      {
        assert SameLeaf(g, r, p);
      }
    }

    lemma TableWordSplits(t: nat)
      requires Shape() && t < count
      ensures IsValid(TableWord(t)) && (AddrOf(TableWord(t)) - base) / PAGE_SIZE == t && AddrOf(TableWord(t)) >= base
    {
      SplitWord(base + t * PAGE_SIZE, TYPE_TABLE);
    }

    lemma TableJoin(t: nat)
      requires Tree() && t < count
      ensures Or(base + t * PAGE_SIZE, TYPE_TABLE) == TableWord(t)
    {
      TablePage(t);
      OrIsSum(base + t * PAGE_SIZE, TYPE_TABLE);
    }

    lemma TablePage(t: nat)
      requires Shape() && t < count
      ensures IsPage(base + t * PAGE_SIZE)
    {
    }

    /** A slot that is new gets a table of its own. */
    lemma AddSlot(g: Radix, s: Slot)
      requires Injective() && Slots() && s !in where' && g.where' == where'[s := used] && g.used == used + 1
      requires s.root < ROOTS && s.i < TABLE_SIZE && (s.L3? ==> s.j < TABLE_SIZE && L2(s.root, s.i) in where')
      ensures g.Injective() && g.Slots()
    {
      forall q
        ensures g.SlotOk(q)
      {
        assert SlotOk(q);
      }
      forall q, r | q in g.where' && r in g.where' && g.where'[q] == g.where'[r]
        ensures q == r
      {
        assert SlotOk(q) && SlotOk(r);
      }
    }

    ghost predicate NewL2(g: Radix, root: nat, i: nat) {
      && root < ROOTS && i < TABLE_SIZE && L2(root, i) !in where' && used < count && At(root, i) < |roots|
      && g == this.(used := used + 1, where' := where'[L2(root, i) := used], roots := roots[At(root, i) := TableWord(used)])
    }

    /** A new level 2 table. */
    lemma AddL2(g: Radix, root: nat, i: nat)
      requires Tree() && NewL2(g, root, i)
      ensures g.Tree()
      ensures SameLeaves(g)
    {
      AddSlot(g, L2(root, i));
      hide At, Slots, Injective, Index1, Index2, Index3;
      AddL2Roots(g, root, i);
      AddL2Mids(g, root, i);
      forall t: nat, j: nat | g.used <= t < count && j < TABLE_SIZE
        ensures g.EntryZero(t, j)
      {
        assert EntryZero(t, j);
      }
    }

    lemma AddL2Roots(g: Radix, root: nat, i: nat)
      requires RootsRefer() && NewL2(g, root, i)
      ensures g.RootsRefer()
    {
      hide At;
      forall r: nat, i': nat | r < ROOTS && i' < TABLE_SIZE
        ensures g.RootOk(r, i')
      {
        assert RootOk(r, i');
        AtApart(root, i, r, i');
      }
    }

    lemma AddL2Mids(g: Radix, root: nat, i: nat)
      requires MidsRefer() && RestZero() && Slots() && NewL2(g, root, i)
      ensures g.MidsRefer()
    {
      hide At;
      forall r: nat, i': nat, j: nat | j < TABLE_SIZE
        ensures g.MidOk(r, i', j)
      {
        assert MidOk(r, i', j) && EntryZero(used, j) && SlotOk(L3(root, i, j));
      }
    }

    ghost predicate NewL3(g: Radix, root: nat, i: nat, j: nat) {
      && root < ROOTS && i < TABLE_SIZE && j < TABLE_SIZE && used < count
      && L2(root, i) in where' && L3(root, i, j) !in where' && At(where'[L2(root, i)], j) < |pool|
      && g == this.(used := used + 1, where' := where'[L3(root, i, j) := used],
                    pool := pool[At(where'[L2(root, i)], j) := TableWord(used)])
    }

    /** A new level 3 table. */
    lemma AddL3(g: Radix, root: nat, i: nat, j: nat)
      requires Tree() && NewL3(g, root, i, j)
      ensures g.Tree()
      ensures SameLeaves(g)
    {
      AddSlot(g, L3(root, i, j));
      AddL3Rest(g, root, i, j);
      AddL3Mids(g, root, i, j);
      AddL3Leaves(g, root, i, j);
      hide At, Slots, Injective, Index1, Index2, Index3, SameLeaf;
      forall r: nat, i': nat | r < ROOTS && i' < TABLE_SIZE
        ensures g.RootOk(r, i')
      {
        assert RootOk(r, i');
      }
    }

    lemma AddL3Rest(g: Radix, root: nat, i: nat, j: nat)
      requires RestZero() && Slots() && NewL3(g, root, i, j)
      ensures g.RestZero()
    {
      hide At;
      assert SlotOk(L2(root, i));
      forall t: nat, k: nat | g.used <= t < count && k < TABLE_SIZE
        ensures g.EntryZero(t, k)
      {
        assert EntryZero(t, k);
        AtApart(where'[L2(root, i)], j, t, k);
      }
    }

    lemma AddL3Mids(g: Radix, root: nat, i: nat, j: nat)
      requires MidsRefer() && Injective() && Slots() && NewL3(g, root, i, j)
      ensures g.MidsRefer()
    {
      hide At;
      forall r: nat, i': nat, k: nat | k < TABLE_SIZE
        ensures g.MidOk(r, i', k)
      {
        assert MidOk(r, i', k);
        if L2(r, i') in where' {
          AtApart(where'[L2(root, i)], j, where'[L2(r, i')], k);
        }
      }
    }

    lemma AddL3Leaves(g: Radix, root: nat, i: nat, j: nat)
      requires RestZero() && Injective() && Slots() && NewL3(g, root, i, j)
      ensures SameLeaves(g)
    {
      hide At, Index1, Index2, Index3;
      forall r: nat, p: nat
        ensures SameLeaf(g, r, p)
      {
        var s := SlotL3(r, p);
        assert EntryZero(used, Index3(p)) && SlotOk(L2(root, i));
        AtApart(where'[L2(root, i)], j, g.used - 1, Index3(p));
        if s in where' {
          AtApart(where'[L2(root, i)], j, where'[s], Index3(p));
        }
      }
    }

    ghost predicate Wrote(g: Radix, root: nat, p: nat, w: nat) {
      && SlotL3(root, p) in where' && At(where'[SlotL3(root, p)], Index3(p)) < |pool|
      && g == this.(pool := pool[At(where'[SlotL3(root, p)], Index3(p)) := w])
    }

    /** Writing a level 3 entry changes the leaf of that page and nothing else. */
    lemma SetLeaf(g: Radix, root: nat, p: nat, w: nat)
      requires Tree() && Wrote(g, root, p, w)
      ensures g.Tree()
      ensures OneLeaf(g, root, p, w)
    {
      hide At, Index1, Index2, Index3;
      var s := SlotL3(root, p);
      assert SlotOk(s);
      SetLeafOthers(g, root, p, w);
      forall r: nat, i: nat | r < ROOTS && i < TABLE_SIZE
        ensures g.RootOk(r, i)
      {
        assert RootOk(r, i);
      }
      forall q
        ensures g.SlotOk(q)
      {
        assert SlotOk(q);
      }
      SetLeafTables(g, root, p, w);
    }

    lemma SetLeafTables(g: Radix, root: nat, p: nat, w: nat)
      requires Tree() && Wrote(g, root, p, w)
      ensures g.MidsRefer() && g.RestZero()
    {
      hide At, Index1, Index2, Index3;
      var s := SlotL3(root, p);
      assert SlotOk(s);
      forall r: nat, i: nat, j: nat | j < TABLE_SIZE
        ensures g.MidOk(r, i, j)
      {
        assert MidOk(r, i, j);
        if L2(r, i) in where' {
          AtApart(where'[s], Index3(p), where'[L2(r, i)], j);
        }
      }
      forall t: nat, j: nat | g.used <= t < count && j < TABLE_SIZE
        ensures g.EntryZero(t, j)
      {
        assert EntryZero(t, j);
        AtApart(where'[s], Index3(p), t, j);
      }
    }

    lemma SetLeafOthers(g: Radix, root: nat, p: nat, w: nat)
      requires Injective() && Wrote(g, root, p, w)
      ensures forall r: nat, q: nat :: (r, q) != (root, p) ==> SameLeaf(g, r, q)
    {
      hide At;
      var s := SlotL3(root, p);
      forall r: nat, q: nat | (r, q) != (root, p)
        ensures SameLeaf(g, r, q)
      {
        IndicesIdentify(p, q);
        hide Index1, Index2, Index3;
        var u := SlotL3(r, q);
        if u in where' {
          AtApart(where'[s], Index3(p), where'[u], Index3(q));
        }
      }
    }

    /** Table number a descriptor refers to. */
    function TableOf(w: nat): int { (AddrOf(w) - base) / PAGE_SIZE }

    /** The hardware's walk: from the root through the words themselves, faulting on invalid descriptors. */
    function Walk(r: nat, p: nat): nat {
      var at1 := At(r, Index1(p));
      if at1 >= |roots| || !IsValid(roots[at1]) || TableOf(roots[at1]) < 0 then 0 else
        var at2 := At(TableOf(roots[at1]), Index2(p));
        if at2 >= |pool| || !IsValid(pool[at2]) || TableOf(pool[at2]) < 0 then 0 else
          var at3 := At(TableOf(pool[at2]), Index3(p));
          if at3 >= |pool| then 0 else pool[at3]
    }

    /** In a tree, the walk of a page ends at its leaf. */
    lemma WalkIsLeaf(r: nat, p: nat)
      requires Tree() && r < ROOTS && p < SPACE
      ensures Walk(r, p) == Leaf(r, p)
    {
      hide At, Index1, Index2, Index3, AddrOf;
      var i, j := Index1(p), Index2(p);
      assert RootOk(r, i) && MidOk(r, i, j) && SlotOk(L2(r, i)) && SlotOk(L3(r, i, j));
      if L2(r, i) in where' {
        TableWordSplits(where'[L2(r, i)]);
        if L3(r, i, j) in where' {
          TableWordSplits(where'[L3(r, i, j)]);
          AtInside(where'[L3(r, i, j)], Index3(p), count);
        }
      }
    }

    /** What the code finds in a root entry. */
    lemma RootEntry(r: nat, i: nat)
      requires Tree() && r < ROOTS && i < TABLE_SIZE
      ensures At(r, i) < |roots| && |where'| == used
      ensures roots[At(r, i)] == 0 <==> L2(r, i) !in where'
      ensures L2(r, i) in where' ==> where'[L2(r, i)] < used <= count && TableOf(roots[At(r, i)]) == where'[L2(r, i)]
    {
      assert RootOk(r, i) && SlotOk(L2(r, i));
      hide At, AddrOf;
      if L2(r, i) in where' { TableWordSplits(where'[L2(r, i)]); }
    }

    /** What the code finds in a level 2 entry. */
    lemma MidEntry(r: nat, i: nat, j: nat)
      requires Tree() && L2(r, i) in where' && j < TABLE_SIZE
      ensures At(where'[L2(r, i)], j) < |pool| && |where'| == used
      ensures pool[At(where'[L2(r, i)], j)] == 0 <==> L3(r, i, j) !in where'
      ensures L3(r, i, j) in where' ==>
                where'[L3(r, i, j)] < used <= count && TableOf(pool[At(where'[L2(r, i)], j)]) == where'[L3(r, i, j)]
    {
      assert MidOk(r, i, j) && SlotOk(L3(r, i, j));
      hide At, AddrOf;
      if L3(r, i, j) in where' { TableWordSplits(where'[L3(r, i, j)]); }
    }

    lemma LeafEntry(r: nat, p: nat)
      requires Tree() && SlotL3(r, p) in where'
      ensures At(where'[SlotL3(r, p)], Index3(p)) < |pool| && Leaf(r, p) == pool[At(where'[SlotL3(r, p)], Index3(p))]
    {
      hide Index1, Index2, Index3;
      assert SlotOk(SlotL3(r, p));
      AtInside(where'[SlotL3(r, p)], Index3(p), count);
    }

    lemma EmptyTree()
      requires Shape() && used == 0 && where' == map[]
      requires (forall a :: 0 <= a < |roots| ==> roots[a] == 0) && (forall a :: 0 <= a < |pool| ==> pool[a] == 0)
      ensures Tree()
    {
      forall t: nat, j: nat | t < count && j < TABLE_SIZE
        ensures EntryZero(t, j)
      {
        AtInside(t, j, count);
      }
    }

    /** Some entry of a root or of a level 2 table refers to pool table `t`. */
    ghost predicate Refers(s: Slot, t: nat) {
      match s
      case L2(r, i) => r < ROOTS && i < TABLE_SIZE && At(r, i) < |roots| && roots[At(r, i)] == TableWord(t)
      case L3(r, i, j) =>
        && j < TABLE_SIZE && L2(r, i) in where' && At(where'[L2(r, i)], j) < |pool|
        && pool[At(where'[L2(r, i)], j)] == TableWord(t)
    }

    /** Every pool table in use is referred to from exactly one entry, and no other table is referred to. */
    lemma ReferredOnce(t: nat) returns (s: Slot)
      requires Tree() && t < used
      ensures Refers(s, t) && forall q :: Refers(q, t) ==> q == s
    {
      hide At;
      s := Holder(t);
      assert SlotOk(s);
      match s {
        case L2(r, i) => assert RootOk(r, i);
        case L3(r, i, j) => assert MidOk(r, i, j);
      }
      forall q | Refers(q, t)
        ensures q == s
      {
        match q {
          case L2(r, i) => assert RootOk(r, i);
          case L3(r, i, j) => assert MidOk(r, i, j);
        }
        assert q in where' && where'[q] == t;
      }
    }

    /** The tables in use are exactly the ones recorded. */
    lemma Holder(t: nat) returns (s: Slot)
      requires Injective() && Slots() && t < used
      ensures s in where' && where'[s] == t
    {
      if t !in where'.Values {
        ValuesCount(where');
        var below := Run(0, used) - {t};
        RunSize(0, used);
        forall v | v in where'.Values
          ensures v in below
        {
          var q :| q in where' && where'[q] == v;
          assert SlotOk(q);
        }
        SubsetSize(where'.Values, below);
        assert false;
      }
      s :| s in where' && where'[s] == t;
    }
  }

  lemma {:induction false} ValuesCount(m: map<Slot, nat>)
    requires forall s, t :: s in m && t in m && m[s] == m[t] ==> s == t
    ensures |m.Values| == |m|
  {
    if m.Keys == {} {
      assert m.Values == {};
    } else {
      var s :| s in m;
      var rest := m - {s};
      ValuesCount(rest);
      assert m.Values == rest.Values + {m[s]};
      assert m.Keys == rest.Keys + {s};
    }
  }
}

/** The tables in memory (mm/mmu.c). */
module PageTables {
  import opened Machine
  import opened Sets
  import opened Descriptors
  import opened RadixTree

  function PageCount(size: nat): nat { (size + PAGE_SIZE - 1) / PAGE_SIZE }

  /** The leaf of a page after mapping `n` pages from `first` to `phys` on. */
  ghost function Mapped(h: Radix, root: nat, phys: nat, first: nat, n: nat, prot: nat, r: nat, p: nat): nat {
    if r == root && first <= p < first + n then Or(phys + (p - first) * PAGE_SIZE, prot) else h.Leaf(r, p)
  }

  ghost predicate LeafIs(g: Radix, h: Radix, root: nat, phys: nat, first: nat, n: nat, prot: nat, r: nat, p: nat) {
    g.Leaf(r, p) == Mapped(h, root, phys, first, n, prot, r, p)
  }

  /** Everything one mapping changes: the leaves of the range, and the tables it needs. */
  ghost predicate Maps(h: Radix, g: Radix, root: nat, phys: nat, first: nat, n: nat, prot: nat) {
    && g.Tree() && g.base == h.base && g.count == h.count
    && g.where'.Keys == h.where'.Keys + Needed(root, first, n)
    && forall r: nat, p: nat :: LeafIs(g, h, root, phys, first, n, prot, r, p)
  }

  lemma MapsNothing(h: Radix, root: nat, phys: nat, first: nat, prot: nat)
    requires h.Tree()
    ensures Maps(h, h, root, phys, first, 0, prot)
  {
  }

  lemma CountStep(size: nat, n: nat)
    ensures n * PAGE_SIZE < size <==> n < PageCount(size)
  {
  }

  lemma NextPage(virt: nat, n: nat)
    requires virt % PAGE_SIZE == 0 && PageOf(virt) + n < SPACE
    ensures PageOf(virt + n * PAGE_SIZE) == PageOf(virt) + n
  {
    assert (virt + n * PAGE_SIZE) / PAGE_SIZE == virt / PAGE_SIZE + n;
  }

  /** The pool has room for the tables that a range needs. */
  ghost predicate RoomFor(h: Radix, root: nat, first: nat, n: nat) {
    |h.where'.Keys + Needed(root, first, n)| <= h.count
  }

  /** The next page's tables are among those the whole range needs. */
  lemma NextFits(h: Radix, g: Radix, root: nat, phys: nat, first: nat, n: nat, all: nat, prot: nat)
    requires Maps(h, g, root, phys, first, n, prot) && n < all
    ensures RoomFor(h, root, first, all) ==> RoomFor(g, root, first + n, 1)
  {
    hide Needed, SlotL2, SlotL3, Radix.Tree, LeafIs;
    NeededStep(root, first, n);
    NeededGrows(root, first, n + 1, all);
    NextRoom(h.where'.Keys, g.where'.Keys, Needed(root, first, n), Needed(root, first + n, 1), Needed(root, first, all), h.count);
  }

  lemma NextRoom(before: set<Slot>, after: set<Slot>, done: set<Slot>, one: set<Slot>, total: set<Slot>, count: nat)
    requires after == before + done && done + one <= total
    ensures |before + total| <= count ==> |after + one| <= count
  {
    SubsetSize(after + one, before + total);
  }

  lemma MapsStep(h: Radix, g: Radix, k: Radix, root: nat, phys: nat, first: nat, n: nat, prot: nat)
    requires Maps(h, g, root, phys, first, n, prot)
    requires k.Tree() && k.base == g.base && k.count == g.count && g.OneLeaf(k, root, first + n, Or(phys + n * PAGE_SIZE, prot))
    requires k.where'.Keys == g.where'.Keys + {SlotL2(root, first + n), SlotL3(root, first + n)}
    ensures Maps(h, k, root, phys, first, n + 1, prot)
  {
    hide Radix.Tree, Radix.Leaf, Index1, Index2, Or;
    var m := n + 1;
    forall r: nat, p: nat
      ensures LeafIs(k, h, root, phys, first, m, prot, r, p)
    {
      assert LeafIs(g, h, root, phys, first, n, prot, r, p);
      assert (r, p) != (root, first + n) ==> g.SameLeaf(k, r, p);
    }
  }

  class Tables {
    const roots: array<nat>
    const pool: array<nat>
    const count: nat
    /** Physical address of the pool. */
    const base: nat
    var used: nat
    ghost var where': map<Slot, nat>

    ghost function R(): Radix
      reads this, roots, pool
    {
      Radix(base, count, roots[..], pool[..], used, where')
    }

    ghost predicate Valid()
      reads this, roots, pool
    {
      roots != pool && R().Tree()
    }

    constructor (base': nat, count': nat)
      requires base' % PAGE_SIZE == 0 && base' + count' * PAGE_SIZE <= PA_LIMIT
      ensures Valid() && where' == map[] && used == 0 && count == count' && base == base'
      ensures fresh(roots) && fresh(pool)
    {
      base, count := base', count';
      roots := new nat[ROOTS * TABLE_SIZE](_ => 0);
      pool := new nat[count' * TABLE_SIZE](_ => 0);
      used := 0;
      where' := map[];
      new;
      R().EmptyTree();
    }

    /** early_pgtable_alloc: the physical address of the next table. */
    method EarlyPgtableAlloc() returns (address: nat)
      requires used < count
      modifies this`used
      ensures address == base + old(used) * PAGE_SIZE && used == old(used) + 1
    {
      address := base + used * PAGE_SIZE;
      used := used + 1;
    }

    /** First half of walk_to_pte: the level 2 table of a page, taken from the pool if there is none yet. */
    method WalkToPmd(root: nat, p: nat) returns (t: nat)
      requires Valid() && root < ROOTS && p < SPACE && |where'.Keys + {SlotL2(root, p)}| <= count
      modifies this`used, this`where', roots
      ensures Valid() && SlotL2(root, p) in where' && t == where'[SlotL2(root, p)]
      ensures where'.Keys == old(where'.Keys) + {SlotL2(root, p)}
      ensures old(R()).SameLeaves(R())
    {
      hide At, Index1, Index2, Index3, Radix.Tree, Radix.Leaf, AddrOf, Radix.SameLeaves, Or;
      ghost var h := R();
      var i := Index1(p);
      h.RootEntry(root, i);
      if roots[At(root, i)] == 0 {
        assert where'.Keys + {L2(root, i)} == where'[L2(root, i) := used].Keys;
        var address := EarlyPgtableAlloc();
        where' := where'[L2(root, i) := used - 1];
        h.TableJoin(used - 1);
        roots[At(root, i)] := Or(address, TYPE_TABLE);
        assert R().roots == h.roots[At(root, i) := address + TYPE_TABLE];
        h.AddL2(R(), root, i);
      } else {
        h.SameLeavesRefl();
        assert where'.Keys == where'.Keys + {SlotL2(root, p)};
      }
      R().RootEntry(root, i);
      t := TableNumber(roots[At(root, i)]);
    }

    /** The table a descriptor refers to. */
    function TableNumber(w: nat): int { (AddrOf(w) - base) / PAGE_SIZE }

    /** Second half of walk_to_pte: the level 3 entry of a page, given its level 2 table. */
    method PmdToPte(root: nat, p: nat, t: nat) returns (at: nat)
      requires Valid() && root < ROOTS && p < SPACE && |where'.Keys + {SlotL3(root, p)}| <= count
      requires SlotL2(root, p) in where' && t == where'[SlotL2(root, p)]
      modifies this`used, this`where', pool
      ensures Valid() && SlotL3(root, p) in where' && at == At(where'[SlotL3(root, p)], Index3(p)) && at < pool.Length
      ensures where'.Keys == old(where'.Keys) + {SlotL3(root, p)}
      ensures old(R()).SameLeaves(R())
    {
      hide At, Index1, Index2, Index3, Radix.Tree, Radix.Leaf, AddrOf, Radix.SameLeaves, Or;
      var i, j := Index1(p), Index2(p);
      ghost var h := R();
      h.MidEntry(root, i, j);
      if pool[At(t, j)] == 0 {
        assert where'.Keys + {L3(root, i, j)} == where'[L3(root, i, j) := used].Keys;
        var address := EarlyPgtableAlloc();
        where' := where'[L3(root, i, j) := used - 1];
        h.TableJoin(used - 1);
        pool[At(t, j)] := Or(address, TYPE_TABLE);
        assert R().pool == h.pool[At(t, j) := address + TYPE_TABLE];
        h.AddL3(R(), root, i, j);
      } else {
        h.SameLeavesRefl();
        assert where'.Keys == where'.Keys + {SlotL3(root, p)};
      }
      R().MidEntry(root, i, j);
      at := At(TableNumber(pool[At(t, j)]), Index3(p));
      R().LeafEntry(root, p);
    }

    /** walk_to_pte: the position of the level 3 entry of a page. */
    method WalkToPte(root: nat, p: nat) returns (at: nat)
      requires Valid() && root < ROOTS && p < SPACE && |where'.Keys + {SlotL2(root, p), SlotL3(root, p)}| <= count
      modifies this`used, this`where', roots, pool
      ensures Valid() && SlotL3(root, p) in where' && at == At(where'[SlotL3(root, p)], Index3(p)) && at < pool.Length
      ensures where'.Keys == old(where'.Keys) + {SlotL2(root, p), SlotL3(root, p)}
      ensures old(R()).SameLeaves(R())
    {
      hide At, Index1, Index2, Index3, Radix.Tree, Radix.Leaf, AddrOf, Radix.SameLeaves, Or;
      ghost var need := where'.Keys + {SlotL2(root, p), SlotL3(root, p)};
      SubsetSize(where'.Keys + {SlotL2(root, p)}, need);
      var t := WalkToPmd(root, p);
      ghost var h := R();
      assert where'.Keys + {SlotL3(root, p)} == need;
      at := PmdToPte(root, p, t);
      old(R()).SameLeavesThen(h, R());
    }

    /** One step of create_pgd_mapping. */
    method MapPage(root: nat, p: nat, w: nat)
      requires Valid() && root < ROOTS && p < SPACE && RoomFor(R(), root, p, 1)
      modifies this`used, this`where', roots, pool
      ensures Valid() && where'.Keys == old(where'.Keys) + {SlotL2(root, p), SlotL3(root, p)}
      ensures old(R()).OneLeaf(R(), root, p, w)
    {
      hide At, Index1, Index2, Index3, Radix.Tree, Radix.Leaf, Radix.SameLeaves, Radix.OneLeaf;
      NeededOne(root, p);
      var at := WalkToPte(root, p);
      ghost var h := R();
      h.LeafEntry(root, p);
      pool[at] := w;
      assert R().pool == h.pool[at := w];
      h.SetLeaf(R(), root, p, w);
      old(R()).SameLeavesThen(h, R());
    }

    /** One round of create_pgd_mapping; `h` is the state before the first. */
    method MapNext(root: nat, p: nat, w: nat, ghost h: Radix, ghost phys: nat, ghost first: nat, ghost n: nat, ghost all: nat, ghost prot: nat)
      requires Valid() && root < ROOTS && p == first + n && n < all && first + all <= SPACE
      requires w == Or(phys + n * PAGE_SIZE, prot) && RoomFor(h, root, first, all) && Maps(h, R(), root, phys, first, n, prot)
      modifies this`used, this`where', roots, pool
      ensures Valid() && Maps(h, R(), root, phys, first, n + 1, prot)
    {
      hide Maps, RoomFor, SlotL2, SlotL3, Radix.OneLeaf, Radix.Tree, Needed, Or;
      ghost var g := R();
      NextFits(h, g, root, phys, first, n, all, prot);
      MapPage(root, p, w);
      MapsStep(h, g, R(), root, phys, first, n, prot);
    }

    /** create_pgd_mapping: the flat view gains the range, everything else stays, and the tables in use grow by
        the ones the range needs. */
    method CreatePgdMapping(root: nat, phys: nat, virt: nat, size: nat, prot: nat)
      requires Valid() && root < ROOTS && virt % PAGE_SIZE == 0 && PageOf(virt) + PageCount(size) <= SPACE
      requires phys + PageCount(size) * PAGE_SIZE <= WORD
      requires RoomFor(R(), root, PageOf(virt), PageCount(size))
      modifies this`used, this`where', roots, pool
      ensures Valid() && Maps(old(R()), R(), root, phys, PageOf(virt), PageCount(size), prot)
    {
      hide Radix.Tree, Maps, RoomFor, PageOf, PageCount, Or;
      var offset := 0;
      ghost var n, first, all := 0, PageOf(virt), PageCount(size);
      MapsNothing(R(), root, phys, first, prot);
      CountStep(size, 0);
      while offset < size
        invariant offset == n * PAGE_SIZE && n <= all && (offset < size <==> n < all)
        invariant Valid() && Maps(old(R()), R(), root, phys, first, n, prot)
      {
        NextPage(virt, n);
        MapNext(root, PageOf(virt + offset), Or(phys + offset, prot), old(R()), phys, first, n, all, prot);
        n, offset := n + 1, offset + PAGE_SIZE;
        CountStep(size, n);
      }
    }
  }
}
