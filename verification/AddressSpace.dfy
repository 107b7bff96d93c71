/** Sequences of mappings, and the address space that mmu_init builds (mm/mmu.c). */
module Mappings {
  import opened Machine
  import opened Sets
  import opened PowersOfTwo
  import opened Descriptors
  import opened RadixTree
  import opened PageTables

  datatype Translation = Fault | Page(pa: nat, prot: nat)

  /** The addresses a root translates: bits 63..39 all ones for the kernel's root, all zeros for the others. */
  function HalfBase(root: nat): nat {
    if root == SWAPPER then 0xffff_ff80_0000_0000 else 0
  }

  predicate InHalf(root: nat, va: nat) { HalfBase(root) <= va < HalfBase(root) + SPACE * PAGE_SIZE }

  function Decode(w: nat, va: nat): Translation {
    if !IsValid(w) then Fault else Page(AddrOf(w) + va % PAGE_SIZE, ProtOf(w))
  }

  /** What the hardware makes of an address. */
  function Translate(h: Radix, root: nat, va: nat): Translation {
    if InHalf(root, va) then Decode(h.Walk(root, PageOf(va)), va) else Fault
  }

  lemma PageDigits(x: nat)
    ensures var y := x / 512;
            var z := y / 512;
            var p := x % 0x800_0000;
            p / 0x4_0000 == z % 512 && p / 0x200 % 0x200 == y % 512 && p % 0x200 == x % 512
  {
    var y, k := x / 512, x % 512;
    var z, j := y / 512, y % 512;
    var h, i := z / 512, z % 512;
    assert x == h * 0x800_0000 + (i * 0x4_0000 + j * 0x200 + k);
    DivModUnique(x, 0x800_0000, h, i * 0x4_0000 + j * 0x200 + k);
    DivModUnique(i * 0x4_0000 + j * 0x200 + k, 0x4_0000, i, j * 0x200 + k);
    DivModUnique(i * 0x4_0000 + j * 0x200 + k, 0x200, i * 0x200 + j, k);
    DivModUnique(i * 0x200 + j, 0x200, i, j);
  }

  lemma AddressDigits(va: nat)
    ensures var x := va / 0x1000; x / 512 == va / 0x20_0000 && x / 512 / 512 == va / 0x4000_0000
  {
    var x, c := va / 0x1000, va % 0x1000;
    var y, k := x / 512, x % 512;
    var z, j := y / 512, y % 512;
    assert va == y * 0x20_0000 + (k * 0x1000 + c);
    DivModUnique(va, 0x20_0000, y, k * 0x1000 + c);
    DivModUnique(va, 0x4000_0000, z, j * 0x20_0000 + k * 0x1000 + c);
  }

  /** The table indices of an address: bits 38..30, 29..21 and 20..12. */
  lemma IndexBits(va: nat)
    ensures var p := PageOf(va);
            Index1(p) == va / 0x4000_0000 % 512 && Index2(p) == va / 0x20_0000 % 512 && Index3(p) == va / 0x1000 % 512
  {
    AddressDigits(va);
    PageDigits(va / 0x1000);
  }

  /** The walk in numbers: a valid word has bits 1..0 set and its address in bits 47..12. Three valid words, each at the index
      that the address gives in the table that the word before refers to, translate the address. */
  lemma HardwareWalk(h: Radix, root: nat, va: nat, t2: nat, t3: nat, w1: nat, w2: nat, w3: nat)
    requires if root == 0 then 0xffff_ff80_0000_0000 <= va < 0x1_0000_0000_0000_0000 else va < 0x80_0000_0000
    requires var i := root * 512 + va / 0x4000_0000 % 512; i < |h.roots| && h.roots[i] == w1
    requires var i := t2 * 512 + va / 0x20_0000 % 512; i < |h.pool| && h.pool[i] == w2
    requires var i := t3 * 512 + va / 0x1000 % 512; i < |h.pool| && h.pool[i] == w3
    requires Output(w1) == h.base + t2 * 0x1000 && Output(w2) == h.base + t3 * 0x1000
    ensures w1 % 4 == 3 && w2 % 4 == 3 && w3 % 4 == 3 ==>
              Output(w3) <= w3 && Translate(h, root, va) == Page(Output(w3) + va % 0x1000, w3 - Output(w3))
    ensures w1 % 4 != 3 || w2 % 4 != 3 || w3 % 4 != 3 ==> Translate(h, root, va) == Fault
  {
    IndexBits(va);
    OutputIs(w1);
    OutputIs(w2);
    OutputIs(w3);
    hide PageOf, Index1, Index2, Index3, Output, AddrOf;
    var p := PageOf(va);
    TableIs(h, w1, t2);
    TableIs(h, w2, t3);
    assert h.roots[At(root, Index1(p))] == w1 && h.pool[At(t2, Index2(p))] == w2 && h.pool[At(t3, Index3(p))] == w3;
  }

  /** Bits 47..12 of a word, in place. */
  function Output(w: nat): nat { w / 0x1000 % 0x10_0000_0000 * 0x1000 }

  lemma OutputIs(w: nat)
    ensures Output(w) == AddrOf(w) <= w && ProtOf(w) == w - Output(w)
  {
    assert w / 0x1000 % 0x10_0000_0000 <= w / 0x1000;
  }

  lemma TableIs(h: Radix, w: nat, t: nat)
    requires AddrOf(w) == h.base + t * 0x1000
    ensures h.TableOf(w) == t
  {
    hide AddrOf;
    DivModUnique(t * 0x1000, 0x1000, t, 0);
  }

  /** Page numbers of a range within one half are consecutive. */
  lemma PagesOfRange(root: nat, virt: nat, n: nat, va: nat)
    requires virt % PAGE_SIZE == 0 && InHalf(root, va) && HalfBase(root) <= virt && virt + n * PAGE_SIZE <= HalfBase(root) + SPACE * PAGE_SIZE
    ensures n > 0 ==> (virt <= va < virt + n * PAGE_SIZE <==> PageOf(virt) <= PageOf(va) < PageOf(virt) + n)
    ensures n > 0 && virt <= va < virt + n * PAGE_SIZE ==> (PageOf(va) - PageOf(virt)) * PAGE_SIZE + va % PAGE_SIZE == va - virt
  {
    HalfPages(root, va);
    if n > 0 { HalfPages(root, virt); }
  }

  lemma HalfPages(root: nat, va: nat)
    requires InHalf(root, va)
    ensures va == HalfBase(root) + PageOf(va) * PAGE_SIZE + va % PAGE_SIZE
  {
  }

  /** create_pgd_mapping on translations: the range gets physical address plus offset with the given protection,
      every other address of every root is unchanged. */
  lemma MappingTranslates(h: Radix, g: Radix, root: nat, phys: nat, virt: nat, n: nat, prot: nat, r: nat, va: nat)
    requires h.Tree() && Maps(h, g, root, phys, PageOf(virt), n, prot) && root < ROOTS && r < ROOTS
    requires virt % PAGE_SIZE == 0 && HalfBase(root) <= virt && virt + n * PAGE_SIZE <= HalfBase(root) + SPACE * PAGE_SIZE
    requires phys % PAGE_SIZE == 0 && phys + n * PAGE_SIZE <= PA_LIMIT && IsProt(prot) && IsValid(prot)
    ensures Translate(g, r, va) ==
            if r == root && virt <= va < virt + n * PAGE_SIZE then Page(phys + (va - virt), prot) else Translate(h, r, va)
  {
    hide Radix.Tree, Radix.Leaf, Radix.Walk, PageOf, AddrOf, Or;
    if InHalf(r, va) {
      var p, first := PageOf(va), PageOf(virt);
      g.WalkIsLeaf(r, p);
      h.WalkIsLeaf(r, p);
      assert LeafIs(g, h, root, phys, first, n, prot, r, p);
      if r == root {
        PagesOfRange(root, virt, n, va);
        if first <= p < first + n {
          RangePage(phys, p - first, n);
          OrIsSum(phys + (p - first) * PAGE_SIZE, prot);
          SplitWord(phys + (p - first) * PAGE_SIZE, prot);
        }
      }
    }
  }

  lemma RangePage(phys: nat, k: nat, n: nat)
    requires phys % PAGE_SIZE == 0 && k < n && phys + n * PAGE_SIZE <= PA_LIMIT
    ensures IsPage(phys + k * PAGE_SIZE)
  {
  }

  datatype Mapping = Mapping(root: nat, phys: nat, first: nat, n: nat, prot: nat) {
    ghost predicate Covers(r: nat, p: nat) { r == root && first <= p < first + n }

    /** The entry for a page of the range. */
    ghost function Word(p: nat): nat { if first <= p then Or(phys + (p - first) * PAGE_SIZE, prot) else 0 }

    ghost function Tables(): set<Slot> { Needed(root, first, n) }
  }

  /** The flat map after a sequence of mappings: the last one that covers a page wins. */
  ghost function After(plan: seq<Mapping>, r: nat, p: nat): int {
    if plan == [] then 0 else
      var last := plan[|plan| - 1];
      if last.Covers(r, p) then last.Word(p) else After(plan[..|plan| - 1], r, p)
  }

  ghost function TablesOf(plan: seq<Mapping>): set<Slot> {
    if plan == [] then {} else TablesOf(plan[..|plan| - 1]) + plan[|plan| - 1].Tables()
  }

  ghost predicate Holds(g: Radix, plan: seq<Mapping>, r: nat, p: nat) { g.Leaf(r, p) == After(plan, r, p) }

  /** The tables are what the sequence of mappings built. */
  ghost predicate Built(g: Radix, plan: seq<Mapping>) {
    g.Tree() && g.where'.Keys == TablesOf(plan) && forall r: nat, p: nat :: Holds(g, plan, r, p)
  }

  lemma BuiltNothing(g: Radix)
    requires g.Tree() && g.where' == map[]
    ensures Built(g, [])
  {
  }

  /** One more mapping. */
  lemma BuiltStep(h: Radix, g: Radix, plan: seq<Mapping>, m: Mapping)
    requires Built(h, plan) && Maps(h, g, m.root, m.phys, m.first, m.n, m.prot)
    ensures Built(g, plan + [m])
  {
    hide Radix.Tree, Radix.Leaf, Needed;
    var more := plan + [m];
    assert more[..|more| - 1] == plan;
    forall r: nat, p: nat
      ensures Holds(g, more, r, p)
    {
      assert Holds(h, plan, r, p) && LeafIs(g, h, m.root, m.phys, m.first, m.n, m.prot, r, p);
    }
  }

  /** A mapping whose tables are among `target` fits a pool of that many tables. */
  method Extend(t: Tables, root: nat, phys: nat, virt: nat, size: nat, prot: nat, ghost plan: seq<Mapping>, ghost target: set<Slot>)
    returns (ghost plan': seq<Mapping>)
    requires t.Valid() && Built(t.R(), plan) && root < ROOTS && virt % PAGE_SIZE == 0 && PageOf(virt) + PageCount(size) <= SPACE
    requires phys + PageCount(size) * PAGE_SIZE <= WORD
    requires TablesOf(plan) <= target && Needed(root, PageOf(virt), PageCount(size)) <= target && |target| <= t.count
    modifies t`used, t`where', t.roots, t.pool
    ensures t.Valid() && Built(t.R(), plan') && TablesOf(plan') <= target
    ensures plan' == plan + [Mapping(root, phys, PageOf(virt), PageCount(size), prot)]
  {
    hide Radix.Tree, Maps, Needed, PageOf, PageCount, Holds;
    ghost var h, m := t.R(), Mapping(root, phys, PageOf(virt), PageCount(size), prot);
    SubsetSize(h.where'.Keys + m.Tables(), target);
    t.CreatePgdMapping(root, phys, virt, size, prot);
    BuiltStep(h, t.R(), plan, m);
    plan' := plan + [m];
    assert plan'[..|plan'| - 1] == plan;
  }
}

module AddressSpace {
  import opened Machine
  import opened PowersOfTwo
  import opened Descriptors
  import opened RadixTree
  import opened PageTables
  import opened Mappings

  const PMD_SIZE: nat := 0x20_0000
  const APP_END: nat := APP_FIRST + APP_COUNT * APP_SLOT_SIZE

  /** Physical bounds of the kernel's text and read-only data, and the size of memory. */
  datatype Layout = Layout(ramSize: nat, text: nat, etext: nat, rodata: nat, erodata: nat) {
    /** What the linker script guarantees; memory is a multiple of 2 MiB, at most 1 GiB, and holds the application slots. */
    ghost predicate Sane() {
      && ramSize % PMD_SIZE == 0 && ramSize <= 0x4000_0000 && APP_END <= PHYS_OFFSET + ramSize
      && text % PAGE_SIZE == 0 && etext % PAGE_SIZE == 0 && rodata % PAGE_SIZE == 0 && erodata % PAGE_SIZE == 0
      && PHYS_OFFSET <= text <= etext <= rodata <= erodata <= APP_FIRST
    }

    /** EARLY_PGTABLES */
    function PoolSize(): nat { 6 + ramSize / PMD_SIZE }

    /** Protection of memory in the linear map. */
    ghost function LinearProt(pa: nat): nat {
      if text <= pa < etext then PAGE_KERNEL_ROX
      else if rodata <= pa < erodata then PAGE_KERNEL_RO
      else PAGE_KERNEL
    }

    /** The kernel's half: the linear map and three device ranges. */
    ghost function KernelSpace(va: nat): Translation {
      if PAGE_OFFSET <= va < PAGE_OFFSET + ramSize then
        var pa := va - PAGE_OFFSET + PHYS_OFFSET;
        Page(pa, LinearProt(pa))
      else if IO_OFFSET <= va && IsDevice(va - IO_OFFSET) then Page(va - IO_OFFSET, PROT_DEVICE)
      else Fault
    }

    /** The identity map: all memory, as in the linear map. */
    ghost function IdentitySpace(va: nat): Translation {
      if PHYS_OFFSET <= va < PHYS_OFFSET + ramSize then Page(va, LinearProt(va)) else Fault
    }
  }

  /** Distributor, redistributor and UART. */
  ghost predicate IsDevice(pa: int) {
    0x0800_0000 <= pa < 0x0801_0000 || 0x080a_0000 <= pa < 0x080c_0000 || 0x0900_0000 <= pa < 0x0900_1000
  }

  /** The applications' space: image and stack of each slot at their physical addresses, a guard in between. */
  ghost function AppSpace(va: nat): Translation {
    if !(APP_FIRST <= va < APP_END) then Fault else
      var offset := (va - APP_FIRST) % APP_SLOT_SIZE;
      if offset < APP_IMAGE_SIZE then Page(va, PAGE_READONLY_EXEC)
      else if offset >= APP_SLOT_SIZE - APP_STACK_SIZE then Page(va, PAGE_SHARED)
      else Fault
  }

  ghost function Space(l: Layout, root: nat, va: nat): Translation {
    if root == SWAPPER then l.KernelSpace(va)
    else if root == IDMAP then l.IdentitySpace(va)
    else AppSpace(va)
  }

  /** No address of any root is both writable and executable at one exception level. */
  lemma WriteXorExecuteEverywhere(l: Layout, root: nat, va: nat)
    ensures Space(l, root, va).Page? ==> WriteXorExecute(Space(l, root, va).prot)
  {
  }

  /** No mapping of kernel text or read-only data, in any root, is writable. */
  lemma TextNeverWritable(l: Layout, root: nat, va: nat)
    requires l.Sane()
    ensures var t := Space(l, root, va);
            t.Page? && (l.text <= t.pa < l.etext || l.rodata <= t.pa < l.erodata) ==>
              !WritableEl1(t.prot) && !WritableEl0(t.prot)
  {
  }

  /** At EL1 only kernel text is executable, and nothing in the kernel's root or the identity map is open to EL0. */
  lemma KernelPermissions(l: Layout, root: nat, va: nat)
    requires l.Sane() && root < ROOTS
    ensures var t := Space(l, root, va);
            && (t.Page? && ExecutableEl1(t.prot) ==> root != APPS && l.text <= t.pa < l.etext)
            && (t.Page? && root != APPS ==> !ReadableEl0(t.prot) && !WritableEl0(t.prot) && !ExecutableEl0(t.prot))
  {
  }

  /** The kernel's root by addresses and descriptor bits (section D8.3 of the Arm Architecture Reference Manual, DDI 0487): the
      linear map of memory, readable, executable in text only (bit 53), writable outside text and read-only data (bit 7), closed
      to EL0 (bits 6 and 54), Normal memory (index 1, bits 4..2), inner shareable, access flag set (bit 10); the three device
      ranges, readable and writable, not executable, index 0; nothing else. */
  ghost predicate KernelRights(l: Layout, va: nat, t: Translation) {
    && (0xffff_ffc0_0000_0000 <= va < 0xffff_ffc0_0000_0000 + l.ramSize ==>
          && t.Page? && t.pa == va - 0xffff_ffc0_0000_0000 + 0x4000_0000
          && t.prot % 4 == 3 && t.prot / 0x4 % 8 == 1 && t.prot / 0x100 % 4 == 3 && t.prot / 0x400 % 2 == 1
          && t.prot / 0x40 % 2 == 0 && t.prot / 0x40_0000_0000_0000 % 2 == 1
          && (t.prot / 0x80 % 2 == 1 <==> l.text <= t.pa < l.etext || l.rodata <= t.pa < l.erodata)
          && (t.prot / 0x20_0000_0000_0000 % 2 == 0 <==> l.text <= t.pa < l.etext))
    && ((0xffff_ff80_0800_0000 <= va < 0xffff_ff80_0801_0000 || 0xffff_ff80_080a_0000 <= va < 0xffff_ff80_080c_0000 ||
         0xffff_ff80_0900_0000 <= va < 0xffff_ff80_0900_1000) ==>
          && t.Page? && t.pa == va - 0xffff_ff80_0000_0000
          && t.prot % 4 == 3 && t.prot / 0x4 % 8 == 0 && t.prot / 0x400 % 2 == 1
          && t.prot / 0x40 % 2 == 0 && t.prot / 0x80 % 2 == 0
          && t.prot / 0x20_0000_0000_0000 % 2 == 1 && t.prot / 0x40_0000_0000_0000 % 2 == 1)
    && (t.Page? ==>
          || 0xffff_ffc0_0000_0000 <= va < 0xffff_ffc0_0000_0000 + l.ramSize
          || 0xffff_ff80_0800_0000 <= va < 0xffff_ff80_0801_0000 || 0xffff_ff80_080a_0000 <= va < 0xffff_ff80_080c_0000
          || 0xffff_ff80_0900_0000 <= va < 0xffff_ff80_0900_1000)
  }

  /** The identity map: every memory address to itself, with the bits of the linear map; nothing else. */
  ghost predicate IdentityRights(l: Layout, va: nat, t: Translation) {
    && (0x4000_0000 <= va < 0x4000_0000 + l.ramSize ==>
          && t.Page? && t.pa == va
          && t.prot % 4 == 3 && t.prot / 0x4 % 8 == 1 && t.prot / 0x100 % 4 == 3 && t.prot / 0x400 % 2 == 1
          && t.prot / 0x40 % 2 == 0 && t.prot / 0x40_0000_0000_0000 % 2 == 1
          && (t.prot / 0x80 % 2 == 1 <==> l.text <= va < l.etext || l.rodata <= va < l.erodata)
          && (t.prot / 0x20_0000_0000_0000 % 2 == 0 <==> l.text <= va < l.etext))
    && (t.Page? ==> 0x4000_0000 <= va < 0x4000_0000 + l.ramSize)
  }

  /** The applications' root: in each slot the first 64 KiB readable and executable at EL0 (bits 6 and 7 set, 54 clear), the last
      16 KiB readable and writable at EL0 (bit 7 clear) and not executable; both not executable at EL1; nothing else. */
  ghost predicate AppRights(va: nat, t: Translation) {
    && (0x4100_0000 <= va < 0x4106_0000 && (va - 0x4100_0000) % 0x2_0000 < 0x1_0000 ==>
          && t.Page? && t.pa == va
          && t.prot % 4 == 3 && t.prot / 0x4 % 8 == 1 && t.prot / 0x100 % 4 == 3 && t.prot / 0x400 % 2 == 1
          && t.prot / 0x40 % 2 == 1 && t.prot / 0x80 % 2 == 1
          && t.prot / 0x20_0000_0000_0000 % 2 == 1 && t.prot / 0x40_0000_0000_0000 % 2 == 0)
    && (0x4100_0000 <= va < 0x4106_0000 && (va - 0x4100_0000) % 0x2_0000 >= 0x1_c000 ==>
          && t.Page? && t.pa == va
          && t.prot % 4 == 3 && t.prot / 0x4 % 8 == 1 && t.prot / 0x100 % 4 == 3 && t.prot / 0x400 % 2 == 1
          && t.prot / 0x40 % 2 == 1 && t.prot / 0x80 % 2 == 0
          && t.prot / 0x20_0000_0000_0000 % 2 == 1 && t.prot / 0x40_0000_0000_0000 % 2 == 1)
    && (t.Page? ==> 0x4100_0000 <= va < 0x4106_0000 &&
                    ((va - 0x4100_0000) % 0x2_0000 < 0x1_0000 || (va - 0x4100_0000) % 0x2_0000 >= 0x1_c000))
  }

  lemma SpaceRights(l: Layout, va: nat)
    requires l.Sane()
    ensures KernelRights(l, va, Space(l, SWAPPER, va))
    ensures IdentityRights(l, va, Space(l, IDMAP, va))
    ensures AppRights(va, Space(l, APPS, va))
  {
    KernelSpaceRights(l, va);
    IdentitySpaceRights(l, va);
    AppSpaceRights(va);
    hide *;
  }

  lemma KernelSpaceRights(l: Layout, va: nat)
    requires l.Sane()
    ensures KernelRights(l, va, Space(l, SWAPPER, va))
  {
  }

  lemma IdentitySpaceRights(l: Layout, va: nat)
    requires l.Sane()
    ensures IdentityRights(l, va, Space(l, IDMAP, va))
  {
  }

  lemma AppSpaceRights(va: nat)
    ensures forall l: Layout :: AppRights(va, Space(l, APPS, va))
  {
  }

  /** What REQ-MM-006 asks of a translation. */
  ghost predicate Permitted(l: Layout, root: nat, t: Translation) {
    t.Page? ==>
      && WriteXorExecute(t.prot)
      && (l.text <= t.pa < l.etext || l.rodata <= t.pa < l.erodata ==> !WritableEl1(t.prot) && !WritableEl0(t.prot))
      && (ExecutableEl1(t.prot) ==> root != APPS && l.text <= t.pa < l.etext)
      && (root != APPS ==> !ReadableEl0(t.prot) && !WritableEl0(t.prot) && !ExecutableEl0(t.prot))
  }

  lemma SpacePermitted(l: Layout, root: nat, va: nat)
    requires l.Sane() && root < ROOTS
    ensures Permitted(l, root, Space(l, root, va))
  {
    hide WriteXorExecute, WritableEl1, WritableEl0, ExecutableEl1, ExecutableEl0, ReadableEl0, Space;
    WriteXorExecuteEverywhere(l, root, va);
    TextNeverWritable(l, root, va);
    KernelPermissions(l, root, va);
  }

  /** First page number of the linear map. */
  const LINEAR: nat := 0x400_0000

  /** Level 3 entries of the kernel's root. */
  ghost function KernelWord(l: Layout, p: nat): nat {
    if LINEAR <= p < LINEAR + l.ramSize / PAGE_SIZE then
      var pa := PHYS_OFFSET + (p - LINEAR) * PAGE_SIZE;
      pa + l.LinearProt(pa)
    else if IsDevice(p * PAGE_SIZE) then p * PAGE_SIZE + PROT_DEVICE
    else 0
  }

  /** Level 3 entries of the applications' root when `k` slots are mapped. */
  ghost function AppWord(k: nat, p: nat): nat {
    var pa := p * PAGE_SIZE;
    if !(APP_FIRST <= pa < APP_FIRST + k * APP_SLOT_SIZE) then 0 else
      var offset := (pa - APP_FIRST) % APP_SLOT_SIZE;
      if offset < APP_IMAGE_SIZE then pa + PAGE_READONLY_EXEC
      else if offset >= APP_SLOT_SIZE - APP_STACK_SIZE then pa + PAGE_SHARED
      else 0
  }

  ghost function Word(l: Layout, k: nat, r: nat, p: nat): nat {
    if r == SWAPPER then KernelWord(l, p) else if r == APPS then AppWord(k, p) else 0
  }

  lemma AfterSnoc(plan: seq<Mapping>, m: Mapping, r: nat, p: nat)
    ensures After(plan + [m], r, p) == if m.Covers(r, p) then m.Word(p) else After(plan, r, p)
  {
    var more := plan + [m];
    assert more[..|more| - 1] == plan && more[|more| - 1] == m;
  }

  ghost function Segment(start: nat, end: nat, prot: nat): Mapping
    requires PHYS_OFFSET <= start <= end
  {
    Mapping(SWAPPER, start, LINEAR + (start - PHYS_OFFSET) / PAGE_SIZE, (end - start) / PAGE_SIZE, prot)
  }

  ghost function Device(pa: nat, size: nat): Mapping {
    Mapping(SWAPPER, pa, pa / PAGE_SIZE, size / PAGE_SIZE, PROT_DEVICE)
  }

  ghost function AppRange(pa: nat, size: nat, prot: nat): Mapping {
    Mapping(APPS, pa, pa / PAGE_SIZE, size / PAGE_SIZE, prot)
  }

  /** The mappings of the kernel's memory, in order. */
  ghost function MemoryPlan(l: Layout): seq<Mapping>
    requires l.Sane()
  {
    [] + [Segment(PHYS_OFFSET, PHYS_OFFSET + l.ramSize, PAGE_KERNEL)]
       + [Segment(l.text, l.etext, PAGE_KERNEL_ROX)]
       + [Segment(l.rodata, l.erodata, PAGE_KERNEL_RO)]
  }

  ghost function KernelPlan(l: Layout): seq<Mapping>
    requires l.Sane()
  {
    MemoryPlan(l) + [Device(0x0800_0000, 0x1_0000)] + [Device(0x080a_0000, 0x2_0000)] + [Device(0x0900_0000, 0x1000)]
  }

  ghost function SlotPlan(plan: seq<Mapping>, k: nat): seq<Mapping> {
    var slot := APP_FIRST + k * APP_SLOT_SIZE;
    plan + [AppRange(slot, APP_IMAGE_SIZE, PAGE_READONLY_EXEC)]
         + [AppRange(slot + APP_SLOT_SIZE - APP_STACK_SIZE, APP_STACK_SIZE, PAGE_SHARED)]
  }

  ghost function Plan(l: Layout, k: nat): seq<Mapping>
    requires l.Sane()
  {
    if k == 0 then KernelPlan(l) else SlotPlan(Plan(l, k - 1), k - 1)
  }

  lemma SegmentCovers(l: Layout, start: nat, end: nat, prot: nat, r: nat, p: nat)
    requires PHYS_OFFSET <= start <= end <= PA_LIMIT && start % PAGE_SIZE == 0 && end % PAGE_SIZE == 0 && ProtUsed(prot)
    ensures var m := Segment(start, end, prot);
            var pa := PHYS_OFFSET + (p - LINEAR) * PAGE_SIZE;
            && (m.Covers(r, p) <==> r == SWAPPER && start <= pa < end)
            && (m.Covers(r, p) ==> m.Word(p) == pa + prot)
  {
    hide ProtUsed, IsProt, Or, Segment;
    ProtUsedOk(prot);
    var m := Segment(start, end, prot);
    var n := m.n;
    SegmentPages(start, end, prot);
    if m.Covers(r, p) {
      RangePage(start, p - m.first, n);
      OrIsSum(start + (p - m.first) * PAGE_SIZE, prot);
    }
  }

  lemma SegmentPages(start: nat, end: nat, prot: nat)
    requires PHYS_OFFSET <= start <= end && start % PAGE_SIZE == 0 && end % PAGE_SIZE == 0
    ensures var m := Segment(start, end, prot);
            && m.root == SWAPPER && m.phys == start && m.prot == prot && LINEAR <= m.first
            && start == PHYS_OFFSET + (m.first - LINEAR) * PAGE_SIZE && end == start + m.n * PAGE_SIZE
  {
    var s, n := (start - PHYS_OFFSET) / PAGE_SIZE, (end - start) / PAGE_SIZE;
    assert start == PHYS_OFFSET + s * PAGE_SIZE && end == start + n * PAGE_SIZE;
  }

  /** The linear map by pages and by addresses. */
  lemma LinearBounds(l: Layout, p: nat)
    requires l.Sane()
    ensures LINEAR <= p < LINEAR + l.ramSize / PAGE_SIZE <==>
            PHYS_OFFSET <= PHYS_OFFSET + (p - LINEAR) * PAGE_SIZE < PHYS_OFFSET + l.ramSize
  {
    var n := l.ramSize / PAGE_SIZE;
    assert l.ramSize == n * PAGE_SIZE;
  }

  lemma MemoryAfter(l: Layout, r: nat, p: nat)
    requires l.Sane()
    ensures After(MemoryPlan(l), r, p) ==
            if r == SWAPPER && LINEAR <= p < LINEAR + l.ramSize / PAGE_SIZE then KernelWord(l, p) else 0
  {
    hide After, MemoryPlan, ChosenWord, Layout.LinearProt;
    MemoryChosen(l, r, p);
    LinearBounds(l, p);
    if r == SWAPPER { ChosenProt(l, PHYS_OFFSET + (p - LINEAR) * PAGE_SIZE); }
    hide Layout.Sane;
  }

  /** The entry for address `pa` by the last of the three ranges that holds it. */
  ghost function ChosenWord(l: Layout, pa: int): int {
    if l.rodata <= pa < l.erodata then pa + PAGE_KERNEL_RO
    else if l.text <= pa < l.etext then pa + PAGE_KERNEL_ROX
    else if PHYS_OFFSET <= pa < PHYS_OFFSET + l.ramSize then pa + PAGE_KERNEL
    else 0
  }

  lemma ChosenProt(l: Layout, pa: int)
    requires l.Sane()
    ensures ChosenWord(l, pa) == if PHYS_OFFSET <= pa < PHYS_OFFSET + l.ramSize then pa + l.LinearProt(pa) else 0
  {
    assert PHYS_OFFSET <= l.text <= l.etext <= l.rodata <= l.erodata <= PHYS_OFFSET + l.ramSize;
    hide Layout.Sane;
  }

  lemma MemoryChosen(l: Layout, r: nat, p: nat)
    requires l.Sane()
    ensures After(MemoryPlan(l), r, p) == if r == SWAPPER then ChosenWord(l, PHYS_OFFSET + (p - LINEAR) * PAGE_SIZE) else 0
  {
    SaneBounds(l);
    hide Mapping.Covers, Mapping.Word, After, Segment, ProtUsed, MemoryPlan, Layout.Sane;
    MemoryLast(l, r, p);
    UsedHere();
    SegmentCovers(l, PHYS_OFFSET, PHYS_OFFSET + l.ramSize, PAGE_KERNEL, r, p);
    SegmentCovers(l, l.text, l.etext, PAGE_KERNEL_ROX, r, p);
    SegmentCovers(l, l.rodata, l.erodata, PAGE_KERNEL_RO, r, p);
  }

  lemma SaneBounds(l: Layout)
    requires l.Sane()
    ensures (PHYS_OFFSET + l.ramSize) % PAGE_SIZE == 0 && l.text % PAGE_SIZE == 0 && l.etext % PAGE_SIZE == 0
    ensures l.rodata % PAGE_SIZE == 0 && l.erodata % PAGE_SIZE == 0 && PHYS_OFFSET + l.ramSize <= PA_LIMIT
    ensures PHYS_OFFSET <= l.text <= l.etext <= l.rodata <= l.erodata <= PHYS_OFFSET + l.ramSize
  {
  }

  /** The last of the three mappings that covers a page decides. */
  lemma MemoryLast(l: Layout, r: nat, p: nat)
    requires l.Sane()
    ensures var a, b, c := Segment(PHYS_OFFSET, PHYS_OFFSET + l.ramSize, PAGE_KERNEL), Segment(l.text, l.etext, PAGE_KERNEL_ROX),
                           Segment(l.rodata, l.erodata, PAGE_KERNEL_RO);
            After(MemoryPlan(l), r, p) ==
            if c.Covers(r, p) then c.Word(p) else if b.Covers(r, p) then b.Word(p) else if a.Covers(r, p) then a.Word(p) else 0
  {
    hide Mapping.Covers, Mapping.Word, After, Segment;
    var a, b, c := Segment(PHYS_OFFSET, PHYS_OFFSET + l.ramSize, PAGE_KERNEL), Segment(l.text, l.etext, PAGE_KERNEL_ROX),
                   Segment(l.rodata, l.erodata, PAGE_KERNEL_RO);
    AfterNone(r, p);
    AfterSnoc([], a, r, p);
    AfterSnoc([] + [a], b, r, p);
    AfterSnoc([] + [a] + [b], c, r, p);
  }

  lemma UsedHere()
    ensures ProtUsed(PAGE_KERNEL) && ProtUsed(PAGE_KERNEL_ROX) && ProtUsed(PAGE_KERNEL_RO)
  {
  }

  lemma AfterNone(r: nat, p: nat)
    ensures After([], r, p) == 0
  {
  }

  /** The kernel's mappings give the kernel's entries. */
  lemma KernelAfter(l: Layout, r: nat, p: nat)
    requires l.Sane()
    ensures After(KernelPlan(l), r, p) == Word(l, 0, r, p)
  {
    MemoryAfter(l, r, p);
    hide After, MemoryPlan, Mapping.Covers, Mapping.Word, Device;
    DeviceCovers(0x0800_0000, 0x1_0000, r, p);
    DeviceCovers(0x080a_0000, 0x2_0000, r, p);
    DeviceCovers(0x0900_0000, 0x1000, r, p);
    var plan := MemoryPlan(l);
    var a, b, c := Device(0x0800_0000, 0x1_0000), Device(0x080a_0000, 0x2_0000), Device(0x0900_0000, 0x1000);
    AfterSnoc(plan, a, r, p);
    AfterSnoc(plan + [a], b, r, p);
    AfterSnoc(plan + [a] + [b], c, r, p);
  }

  /** Mapping one more slot adds exactly its image and stack. */
  lemma SlotAfter(l: Layout, plan: seq<Mapping>, k: nat, r: nat, p: nat)
    requires k < APP_COUNT && After(plan, r, p) == Word(l, k, r, p)
    ensures After(SlotPlan(plan, k), r, p) == Word(l, k + 1, r, p)
  {
    hide After, KernelWord, Mapping.Covers, Mapping.Word, AppRange;
    var slot := APP_FIRST + k * APP_SLOT_SIZE;
    var stack := slot + APP_SLOT_SIZE - APP_STACK_SIZE;
    var a, b := AppRange(slot, APP_IMAGE_SIZE, PAGE_READONLY_EXEC), AppRange(stack, APP_STACK_SIZE, PAGE_SHARED);
    RangeCovers(slot, APP_IMAGE_SIZE, PAGE_READONLY_EXEC, r, p);
    RangeCovers(stack, APP_STACK_SIZE, PAGE_SHARED, r, p);
    AfterSnoc(plan, a, r, p);
    AfterSnoc(plan + [a], b, r, p);
    SlotOffset(k, p * PAGE_SIZE);
  }

  lemma RangeCovers(pa: nat, size: nat, prot: nat, r: nat, p: nat)
    requires pa % PAGE_SIZE == 0 && size % PAGE_SIZE == 0 && pa + size <= PA_LIMIT && ProtUsed(prot)
    ensures var m := AppRange(pa, size, prot);
            && (m.Covers(r, p) <==> r == APPS && pa <= p * PAGE_SIZE < pa + size)
            && (m.Covers(r, p) ==> m.Word(p) == p * PAGE_SIZE + prot)
  {
    ProtUsedOk(prot);
    var m := AppRange(pa, size, prot);
    hide ProtUsed, IsProt, Or;
    if m.Covers(r, p) {
      RangePage(pa, p - m.first, m.n);
      OrIsSum(pa + (p - m.first) * PAGE_SIZE, prot);
    }
  }

  lemma DeviceCovers(pa: nat, size: nat, r: nat, p: nat)
    requires pa % PAGE_SIZE == 0 && size % PAGE_SIZE == 0 && pa + size <= PA_LIMIT
    ensures var m := Device(pa, size);
            && (m.Covers(r, p) <==> r == SWAPPER && pa <= p * PAGE_SIZE < pa + size)
            && (m.Covers(r, p) ==> m.Word(p) == p * PAGE_SIZE + PROT_DEVICE)
  {
    ProtUsedOk(PROT_DEVICE);
    var m := Device(pa, size);
    hide ProtUsed, IsProt, Or;
    if m.Covers(r, p) {
      RangePage(pa, p - m.first, m.n);
      OrIsSum(pa + (p - m.first) * PAGE_SIZE, PROT_DEVICE);
    }
  }

  lemma SlotOffset(k: nat, pa: nat)
    ensures var slot := APP_FIRST + k * APP_SLOT_SIZE;
            slot <= pa < slot + APP_SLOT_SIZE ==> (pa - APP_FIRST) % APP_SLOT_SIZE == pa - slot
  {
    var slot := APP_FIRST + k * APP_SLOT_SIZE;
    if slot <= pa < slot + APP_SLOT_SIZE {
      DivModUnique(pa - APP_FIRST, APP_SLOT_SIZE, k, pa - slot);
    }
  }

  lemma {:induction false} PlanAfter(l: Layout, k: nat, r: nat, p: nat)
    requires l.Sane() && k <= APP_COUNT
    ensures After(Plan(l, k), r, p) == Word(l, k, r, p)
  {
    hide After, Word, KernelPlan, SlotPlan;
    if k == 0 {
      KernelAfter(l, r, p);
    } else {
      PlanAfter(l, k - 1, r, p);
      SlotAfter(l, Plan(l, k - 1), k - 1, r, p);
    }
  }

  /** The level 3 tables of the linear map, one for each 2 MiB. */
  ghost function LinearTables(n: nat): set<Slot> {
    if n == 0 then {} else LinearTables(n - 1) + {L3(SWAPPER, 0x100, n - 1)}
  }

  lemma {:induction false} LinearTablesSize(n: nat)
    ensures |LinearTables(n)| == n
    ensures forall s :: s in LinearTables(n) <==> s.L3? && s.root == SWAPPER && s.i == 0x100 && s.j < n
  {
    if n > 0 { LinearTablesSize(n - 1); }
  }

  ghost function OtherTables(): set<Slot> {
    {L2(SWAPPER, 0x100), L2(SWAPPER, 0), L3(SWAPPER, 0, 0x40), L3(SWAPPER, 0, 0x48), L2(APPS, 1), L3(APPS, 1, 8)}
  }

  /** Every table mmu_init needs. */
  ghost function Target(l: Layout): set<Slot> {
    OtherTables() + LinearTables(l.ramSize / PMD_SIZE)
  }

  lemma TargetSize(l: Layout)
    ensures |Target(l)| == l.PoolSize()
  {
    LinearTablesSize(l.ramSize / PMD_SIZE);
    assert |OtherTables()| == 6;
    assert OtherTables() !! LinearTables(l.ramSize / PMD_SIZE);
  }

  lemma {:induction false} NeededWithin(root: nat, p: nat, n: nat, target: set<Slot>)
    requires forall q: nat :: p <= q < p + n ==> SlotL2(root, q) in target && SlotL3(root, q) in target
    ensures Needed(root, p, n) <= target
  {
    if n > 0 { NeededWithin(root, p, n - 1, target); }
  }

  lemma {:induction false} NeededHas(root: nat, p: nat, n: nat, q: nat)
    requires p <= q < p + n
    ensures SlotL2(root, q) in Needed(root, p, n) && SlotL3(root, q) in Needed(root, p, n)
  {
    if q < p + n - 1 { NeededHas(root, p, n - 1, q); }
  }

  lemma LinearIndex(y: nat, n: nat)
    requires y < n * 0x200 && n <= 0x200
    ensures Index1(LINEAR + y) == 0x100 && Index2(LINEAR + y) < n
  {
    var j, k := y / 0x200, y % 0x200;
    DivModUnique(LINEAR + y, 0x4_0000, 0x100, y);
    DivModUnique(LINEAR + y, 0x200, 0x2_0000 + j, k);
    DivModUnique(0x2_0000 + j, 0x200, 0x100, j);
  }

  lemma SegmentTables(l: Layout, start: nat, end: nat, prot: nat)
    requires l.Sane() && PHYS_OFFSET <= start <= end <= PHYS_OFFSET + l.ramSize && start % PAGE_SIZE == 0 && end % PAGE_SIZE == 0
    ensures Segment(start, end, prot).Tables() <= Target(l)
  {
    var m, n := Segment(start, end, prot), l.ramSize / PMD_SIZE;
    assert l.ramSize == n * PMD_SIZE && LINEAR <= m.first && m.first + m.n <= LINEAR + n * 0x200 && n <= 0x200;
    LinearTablesSize(n);
    hide Segment, Layout.Sane, LinearTables;
    forall q: nat | m.first <= q < m.first + m.n
      ensures SlotL2(SWAPPER, q) in Target(l) && SlotL3(SWAPPER, q) in Target(l)
    {
      LinearIndex(q - LINEAR, n);
      hide Index1, Index2;
    }
    NeededWithin(SWAPPER, m.first, m.n, Target(l));
  }

  lemma DeviceTables(l: Layout, pa: nat, size: nat)
    requires (0x0800_0000 <= pa && pa + size <= 0x0820_0000) || (pa == 0x0900_0000 && size == 0x1000)
    ensures Device(pa, size).Tables() <= Target(l)
  {
    var m := Device(pa, size);
    forall q: nat | m.first <= q < m.first + m.n
      ensures SlotL2(SWAPPER, q) in Target(l) && SlotL3(SWAPPER, q) in Target(l)
    {
      assert Index1(q) == 0 && (Index2(q) == 0x40 || Index2(q) == 0x48);
    }
    NeededWithin(SWAPPER, m.first, m.n, Target(l));
  }

  lemma AppTables(l: Layout, pa: nat, size: nat, prot: nat)
    requires APP_FIRST <= pa && pa + size <= APP_END
    ensures AppRange(pa, size, prot).Tables() <= Target(l)
  {
    var m := AppRange(pa, size, prot);
    forall q: nat | m.first <= q < m.first + m.n
      ensures SlotL2(APPS, q) in Target(l) && SlotL3(APPS, q) in Target(l)
    {
      assert Index1(q) == 1 && Index2(q) == 8;
    }
    NeededWithin(APPS, m.first, m.n, Target(l));
  }

  /** Page numbers of the addresses that mmu_init maps. */
  lemma PageNumbers(x: nat)
    requires x <= 0x4000_0000
    ensures PageOf(PAGE_OFFSET + x) == LINEAR + x / PAGE_SIZE && (PAGE_OFFSET + x) % PAGE_SIZE == x % PAGE_SIZE
    ensures PageOf(IO_OFFSET + x) == x / PAGE_SIZE && (IO_OFFSET + x) % PAGE_SIZE == x % PAGE_SIZE
    ensures PageOf(PHYS_OFFSET + x) == (PHYS_OFFSET + x) / PAGE_SIZE
  {
  }

  lemma WholePages(size: nat)
    requires size % PAGE_SIZE == 0
    ensures PageCount(size) == size / PAGE_SIZE
  {
  }

  /** mmu_init up to the applications, with `plan` the mappings made so far. */
  ghost predicate InProgress(t: Tables, l: Layout, plan: seq<Mapping>)
    reads t, t.roots, t.pool
  {
    && l.Sane() && t.Valid() && Built(t.R(), plan) && TablesOf(plan) <= Target(l) && |Target(l)| <= t.count
  }

  /** map_kernel_segment */
  method MapKernelSegment(t: Tables, start: nat, end: nat, prot: nat, ghost l: Layout, ghost plan: seq<Mapping>)
    requires InProgress(t, l, plan) && PHYS_OFFSET <= start <= end <= PHYS_OFFSET + l.ramSize && start % PAGE_SIZE == 0 && end % PAGE_SIZE == 0
    modifies t`used, t`where', t.roots, t.pool
    ensures InProgress(t, l, plan + [Segment(start, end, prot)])
  {
    hide Built, TablesOf, Needed, Target, PageOf, PageCount, Radix.Tree;
    var virt := start - PHYS_OFFSET + PAGE_OFFSET;
    PageNumbers(start - PHYS_OFFSET);
    WholePages(end - start);
    SegmentTables(l, start, end, prot);
    ghost var more := Extend(t, SWAPPER, start, virt, end - start, prot, plan, Target(l));
  }

  method MapDevice(t: Tables, pa: nat, size: nat, ghost l: Layout, ghost plan: seq<Mapping>)
    requires InProgress(t, l, plan) && pa % PAGE_SIZE == 0 && size % PAGE_SIZE == 0
    requires (0x0800_0000 <= pa && pa + size <= 0x0820_0000) || (pa == 0x0900_0000 && size == 0x1000)
    modifies t`used, t`where', t.roots, t.pool
    ensures InProgress(t, l, plan + [Device(pa, size)])
  {
    hide Built, TablesOf, Needed, Target, PageOf, PageCount, Radix.Tree;
    PageNumbers(pa);
    WholePages(size);
    DeviceTables(l, pa, size);
    ghost var more := Extend(t, SWAPPER, pa, IO_OFFSET + pa, size, PROT_DEVICE, plan, Target(l));
  }

  method MapApp(t: Tables, pa: nat, size: nat, prot: nat, ghost l: Layout, ghost plan: seq<Mapping>)
    requires InProgress(t, l, plan) && pa % PAGE_SIZE == 0 && size % PAGE_SIZE == 0 && APP_FIRST <= pa && pa + size <= APP_END
    modifies t`used, t`where', t.roots, t.pool
    ensures InProgress(t, l, plan + [AppRange(pa, size, prot)])
  {
    hide Built, TablesOf, Needed, Target, PageOf, PageCount, Radix.Tree;
    PageNumbers(pa - PHYS_OFFSET);
    WholePages(size);
    AppTables(l, pa, size, prot);
    ghost var more := Extend(t, APPS, pa, pa, size, prot, plan, Target(l));
  }

  /** The mappings of mmu_init. */
  method MapEverything(t: Tables, l: Layout)
    requires l.Sane() && t.Valid() && t.where' == map[] && t.count == l.PoolSize()
    modifies t`used, t`where', t.roots, t.pool
    ensures InProgress(t, l, Plan(l, APP_COUNT))
  {
    hide InProgress, Segment, Device, AppRange, Radix.Tree;
    MappingStart(t, l);
    MapKernelSegment(t, PHYS_OFFSET, PHYS_OFFSET + l.ramSize, PAGE_KERNEL, l, []);
    MapKernelSegment(t, l.text, l.etext, PAGE_KERNEL_ROX, l, [] + [Segment(PHYS_OFFSET, PHYS_OFFSET + l.ramSize, PAGE_KERNEL)]);
    MapKernelSegment(t, l.rodata, l.erodata, PAGE_KERNEL_RO, l,
                     [] + [Segment(PHYS_OFFSET, PHYS_OFFSET + l.ramSize, PAGE_KERNEL)] + [Segment(l.text, l.etext, PAGE_KERNEL_ROX)]);
    ghost var memory := MemoryPlan(l);
    MapDevice(t, 0x0800_0000, 0x1_0000, l, memory);
    MapDevice(t, 0x080a_0000, 0x2_0000, l, memory + [Device(0x0800_0000, 0x1_0000)]);
    MapDevice(t, 0x0900_0000, 0x1000, l, memory + [Device(0x0800_0000, 0x1_0000)] + [Device(0x080a_0000, 0x2_0000)]);
    var slot := APP_FIRST;
    ghost var k := 0;
    while slot < APP_END
      invariant k <= APP_COUNT && slot == APP_FIRST + k * APP_SLOT_SIZE && InProgress(t, l, Plan(l, k))
      decreases APP_END - slot
    {
      var stack := slot + APP_SLOT_SIZE - APP_STACK_SIZE;
      MapApp(t, slot, APP_IMAGE_SIZE, PAGE_READONLY_EXEC, l, Plan(l, k));
      MapApp(t, stack, APP_STACK_SIZE, PAGE_SHARED, l, Plan(l, k) + [AppRange(slot, APP_IMAGE_SIZE, PAGE_READONLY_EXEC)]);
      slot, k := slot + APP_SLOT_SIZE, k + 1;
    }
  }

  lemma MappingStart(t: Tables, l: Layout)
    requires l.Sane() && t.Valid() && t.where' == map[] && t.count == l.PoolSize()
    ensures InProgress(t, l, [])
  {
    TargetSize(l);
    BuiltNothing(t.R());
  }

  lemma TablesSnoc(plan: seq<Mapping>, m: Mapping)
    ensures TablesOf(plan + [m]) == TablesOf(plan) + m.Tables()
  {
    var more := plan + [m];
    assert more[..|more| - 1] == plan && more[|more| - 1] == m;
  }

  /** Mapping a page takes its two tables. */
  lemma TablesHave(plan: seq<Mapping>, m: Mapping, q: nat)
    requires m.Covers(m.root, q)
    ensures SlotL2(m.root, q) in TablesOf(plan + [m]) && SlotL3(m.root, q) in TablesOf(plan + [m])
  {
    TablesSnoc(plan, m);
    NeededHas(m.root, m.first, m.n, q);
  }

  lemma LinearSlot(j: nat)
    requires j < 0x200
    ensures SlotL2(SWAPPER, LINEAR + j * 0x200) == L2(SWAPPER, 0x100) && SlotL3(SWAPPER, LINEAR + j * 0x200) == L3(SWAPPER, 0x100, j)
  {
  }

  lemma LinearMapTables(l: Layout)
    requires l.Sane()
    ensures {L2(SWAPPER, 0x100)} + LinearTables(l.ramSize / PMD_SIZE) <=
            TablesOf([] + [Segment(PHYS_OFFSET, PHYS_OFFSET + l.ramSize, PAGE_KERNEL)])
  {
    hide TablesOf, LinearTables, Mapping.Tables, SlotL2, SlotL3;
    var n, a := l.ramSize / PMD_SIZE, Segment(PHYS_OFFSET, PHYS_OFFSET + l.ramSize, PAGE_KERNEL);
    assert a.n == n * 0x200 && a.first == LINEAR && a.root == SWAPPER && 0 < n <= 0x200;
    LinearTablesSize(n);
    hide Segment, Layout.Sane;
    forall j: nat | j < n
      ensures L2(SWAPPER, 0x100) in TablesOf([] + [a]) && L3(SWAPPER, 0x100, j) in TablesOf([] + [a])
    {
      LinearSlot(j);
      TablesHave([], a, LINEAR + j * 0x200);
    }
  }

  lemma MemoryTables(l: Layout)
    requires l.Sane()
    ensures {L2(SWAPPER, 0x100)} + LinearTables(l.ramSize / PMD_SIZE) <= TablesOf(MemoryPlan(l))
  {
    var a, b, c := Segment(PHYS_OFFSET, PHYS_OFFSET + l.ramSize, PAGE_KERNEL), Segment(l.text, l.etext, PAGE_KERNEL_ROX),
                   Segment(l.rodata, l.erodata, PAGE_KERNEL_RO);
    hide TablesOf, LinearTables, Mapping.Tables, SlotL2, SlotL3;
    LinearMapTables(l);
    hide Segment;
    TablesSnoc([] + [a], b);
    TablesSnoc([] + [a] + [b], c);
  }

  lemma KernelTables(l: Layout)
    requires l.Sane()
    ensures Target(l) - {L2(APPS, 1), L3(APPS, 1, 8)} <= TablesOf(KernelPlan(l))
  {
    hide TablesOf, LinearTables, MemoryPlan, Mapping.Tables;
    MemoryTables(l);
    var plan := MemoryPlan(l);
    var a, b, c := Device(0x0800_0000, 0x1_0000), Device(0x080a_0000, 0x2_0000), Device(0x0900_0000, 0x1000);
    TablesHave(plan, a, 0x8000);
    TablesHave(plan + [a] + [b], c, 0x9000);
    TablesSnoc(plan, a);
    TablesSnoc(plan + [a], b);
    TablesSnoc(plan + [a] + [b], c);
  }

  lemma SlotTables(plan: seq<Mapping>, k: nat)
    ensures TablesOf(plan) <= TablesOf(SlotPlan(plan, k))
    ensures k == 0 ==> L2(APPS, 1) in TablesOf(SlotPlan(plan, k)) && L3(APPS, 1, 8) in TablesOf(SlotPlan(plan, k))
  {
    var slot := APP_FIRST + k * APP_SLOT_SIZE;
    var a := AppRange(slot, APP_IMAGE_SIZE, PAGE_READONLY_EXEC);
    var b := AppRange(slot + APP_SLOT_SIZE - APP_STACK_SIZE, APP_STACK_SIZE, PAGE_SHARED);
    if k == 0 { TablesHave(plan, a, 0x4_1000); }
    hide TablesOf, Mapping.Tables;
    TablesSnoc(plan, a);
    TablesSnoc(plan + [a], b);
  }

  /** All of the target is needed. */
  lemma {:induction false} PlanTables(l: Layout, k: nat)
    requires l.Sane() && k > 0
    ensures Target(l) <= TablesOf(Plan(l, k))
  {
    hide TablesOf, SlotPlan, LinearTables, KernelPlan;
    if k == 1 {
      KernelTables(l);
      assert Plan(l, 1) == SlotPlan(Plan(l, 0), 0);
    } else {
      PlanTables(l, k - 1);
    }
    SlotTables(Plan(l, k - 1), k - 1);
  }

  /** The tables with the identity map's one entry copied from the kernel's root. */
  ghost predicate Shared(h: Radix, g: Radix) {
    && |h.roots| == ROOTS * TABLE_SIZE
    && g == h.(roots := h.roots[At(IDMAP, 1) := h.roots[At(SWAPPER, 0x100)]])
  }

  /** Sharing makes the walk of GiB 1 of the identity map the walk of the linear map, and touches no other walk. */
  lemma SharedWalk(h: Radix, g: Radix, r: nat, p: nat)
    requires Shared(h, g) && r < ROOTS && p < SPACE
    ensures g.Walk(r, p) == if r == IDMAP && Index1(p) == 1 then h.Walk(SWAPPER, LINEAR + p % 0x4_0000) else h.Walk(r, p)
  {
    hide At, Index1, Index2, Index3, AddrOf;
    AtApart(IDMAP, 1, r, Index1(p));
    AtApart(IDMAP, 1, SWAPPER, 0x100);
    AtInside(IDMAP, 1, ROOTS);
    AtInside(SWAPPER, 0x100, ROOTS);
    MirrorPage(p);
  }

  /** The page of the linear map with the same level 2 and 3 indices. */
  lemma MirrorPage(p: nat)
    ensures var q := LINEAR + p % 0x4_0000; Index1(q) == 0x100 && Index2(q) == Index2(p) && Index3(q) == Index3(p)
  {
    var b, c := p / 0x200 % 0x200, p % 0x200;
    assert p % 0x4_0000 == b * 0x200 + c;
    var q := LINEAR + p % 0x4_0000;
    assert q / 0x200 == 0x2_0000 + b && q % 0x200 == c;
    assert (0x2_0000 + b) / 0x200 == 0x100;
  }

  /** A level 3 entry, decoded. */
  lemma DecodeWord(pa: nat, prot: nat, va: nat)
    requires IsPage(pa) && ProtUsed(prot)
    ensures Decode(pa + prot, va) == Page(pa + va % PAGE_SIZE, prot)
  {
    ProtUsedOk(prot);
    hide AddrOf, ProtOf, IsProt, IsPage, ProtUsed;
    SplitWord(pa, prot);
  }

  ghost predicate ProtUsed(prot: nat) {
    || prot == PAGE_KERNEL || prot == PAGE_KERNEL_RO || prot == PAGE_KERNEL_ROX
    || prot == PROT_DEVICE || prot == PAGE_SHARED || prot == PAGE_READONLY_EXEC
  }

  lemma ProtUsedOk(prot: nat)
    requires ProtUsed(prot)
    ensures IsProt(prot) && IsValid(prot)
  {
  }

  /** Entries of the linear map: by the page, or by the byte. */
  lemma LinearDecodes(l: Layout, pa: nat, x: nat, va: nat)
    requires l.Sane() && IsPage(pa) && x < PAGE_SIZE && x == va % PAGE_SIZE
    ensures Decode(pa + l.LinearProt(pa), va) == Page(pa + x, l.LinearProt(pa + x))
  {
    DecodeWord(pa, l.LinearProt(pa), va);
    hide Decode, AddrOf;
    SamePage(pa, x, l.text);
    SamePage(pa, x, l.etext);
    SamePage(pa, x, l.rodata);
    SamePage(pa, x, l.erodata);
  }

  lemma SamePage(pa: nat, x: nat, bound: nat)
    requires pa % PAGE_SIZE == 0 && x < PAGE_SIZE && bound % PAGE_SIZE == 0
    ensures pa < bound <==> pa + x < bound
  {
  }

  lemma NoPage(va: nat)
    ensures Decode(0, va) == Fault
  {
  }

  /** Entries of the kernel's root, decoded; page `p` of the half, byte `x` of the page. */
  lemma LinearPart(l: Layout, p: nat, x: nat, va: nat)
    requires l.Sane() && va == IO_OFFSET + p * PAGE_SIZE + x && x < PAGE_SIZE && x == va % PAGE_SIZE
    requires LINEAR <= p < LINEAR + l.ramSize / PAGE_SIZE
    ensures Decode(KernelWord(l, p), va) == l.KernelSpace(va)
  {
    hide Decode, Layout.LinearProt, IsDevice;
    LinearDecodes(l, PHYS_OFFSET + (p - LINEAR) * PAGE_SIZE, x, va);
  }

  /** The device ranges are whole pages. */
  lemma DevicePages(p: nat, x: nat)
    requires x < PAGE_SIZE
    ensures IsDevice(p * PAGE_SIZE + x) <==> 0x8000 <= p < 0x8010 || 0x80a0 <= p < 0x80c0 || p == 0x9000
  {
  }

  lemma WholePage(p: nat)
    ensures p < PA_PAGES ==> IsPage(p * PAGE_SIZE)
  {
    DivModUnique(p * PAGE_SIZE, PAGE_SIZE, p, 0);
  }

  lemma DevicePart(l: Layout, p: nat, x: nat, va: nat)
    requires l.Sane() && va == IO_OFFSET + p * PAGE_SIZE + x && x < PAGE_SIZE && x == va % PAGE_SIZE
    requires !(LINEAR <= p < LINEAR + l.ramSize / PAGE_SIZE)
    ensures Decode(KernelWord(l, p), va) == l.KernelSpace(va)
  {
    hide Decode, Layout.LinearProt;
    NoPage(va);
    LinearBounds(l, p);
    hide Layout.Sane;
    DevicePages(p, 0);
    DevicePages(p, x);
    WholePage(p);
    hide IsDevice, IsPage;
    if IsDevice(p * PAGE_SIZE) { DecodeWord(p * PAGE_SIZE, PROT_DEVICE, va); }
  }

  lemma KernelDecodes(l: Layout, va: nat)
    requires l.Sane() && InHalf(SWAPPER, va)
    ensures Decode(KernelWord(l, PageOf(va)), va) == l.KernelSpace(va)
  {
    hide PageOf, Decode, KernelWord, Layout.KernelSpace, Layout.Sane;
    var p := PageOf(va);
    HalfPages(SWAPPER, va);
    if LINEAR <= p < LINEAR + l.ramSize / PAGE_SIZE {
      LinearPart(l, p, va % PAGE_SIZE, va);
    } else {
      DevicePart(l, p, va % PAGE_SIZE, va);
    }
  }

  lemma IdentityPart(l: Layout, p: nat, x: nat, va: nat)
    requires l.Sane() && 0x4_0000 <= p < 0x8_0000 && va == p * PAGE_SIZE + x && x < PAGE_SIZE && x == va % PAGE_SIZE
    ensures Decode(KernelWord(l, LINEAR + p - 0x4_0000), va) == l.IdentitySpace(va)
  {
    hide Decode, Layout.LinearProt, IsDevice, IsPage;
    var q := LINEAR + p - 0x4_0000;
    NoPage(va);
    LinearBounds(l, q);
    WholePage(p);
    DevicePages(q, 0);
    if LINEAR <= q < LINEAR + l.ramSize / PAGE_SIZE {
      LinearDecodes(l, p * PAGE_SIZE, x, va);
      SamePageBelow(p * PAGE_SIZE, x, l);
    } else {
      hide Layout.Sane;
    }
  }

  lemma SamePageBelow(pa: nat, x: nat, l: Layout)
    requires l.Sane() && IsPage(pa) && x < PAGE_SIZE && PHYS_OFFSET <= pa < PHYS_OFFSET + l.ramSize
    ensures PHYS_OFFSET <= pa + x < PHYS_OFFSET + l.ramSize
  {
    SaneBounds(l);
    SamePage(pa, x, PHYS_OFFSET + l.ramSize);
  }

  lemma IdentityDecodes(l: Layout, va: nat)
    requires l.Sane() && InHalf(IDMAP, va)
    ensures Decode(if Index1(PageOf(va)) == 1 then KernelWord(l, LINEAR + PageOf(va) % 0x4_0000) else 0, va) == l.IdentitySpace(va)
  {
    hide PageOf, Decode, KernelWord, Layout.LinearProt;
    var p := PageOf(va);
    HalfPages(IDMAP, va);
    NoPage(va);
    if Index1(p) == 1 {
      DivModUnique(p, 0x4_0000, 1, p - 0x4_0000);
      IdentityPart(l, p, va % PAGE_SIZE, va);
    }
  }

  /** All bytes of a page have the same place in their slot, up to the page offset. */
  lemma SlotByte(a: nat, x: nat)
    requires a % PAGE_SIZE == 0 && x < PAGE_SIZE
    ensures (a + x) % APP_SLOT_SIZE == a % APP_SLOT_SIZE + x && a % APP_SLOT_SIZE % PAGE_SIZE == 0
  {
    var k := a / PAGE_SIZE;
    var q, r := k / 32, k % 32;
    assert a == q * APP_SLOT_SIZE + r * PAGE_SIZE;
    DivModUnique(a, APP_SLOT_SIZE, q, r * PAGE_SIZE);
    DivModUnique(a + x, APP_SLOT_SIZE, q, r * PAGE_SIZE + x);
    DivModUnique(r * PAGE_SIZE, PAGE_SIZE, r, 0);
  }

  lemma AppDecodes(va: nat)
    requires InHalf(APPS, va)
    ensures Decode(AppWord(APP_COUNT, PageOf(va)), va) == AppSpace(va)
  {
    hide PageOf, Decode;
    var p := PageOf(va);
    HalfPages(APPS, va);
    NoPage(va);
    if APP_FIRST <= p * PAGE_SIZE < APP_END {
      DecodeWord(p * PAGE_SIZE, PAGE_READONLY_EXEC, va);
      DecodeWord(p * PAGE_SIZE, PAGE_SHARED, va);
      SlotByte(p * PAGE_SIZE - APP_FIRST, va % PAGE_SIZE);
    }
  }

  /** What the finished tables translate, for every root and address. */
  lemma FinalSpace(h: Radix, g: Radix, l: Layout, root: nat, va: nat)
    requires l.Sane() && Built(h, Plan(l, APP_COUNT)) && Shared(h, g) && root < ROOTS
    ensures Translate(g, root, va) == Space(l, root, va)
  {
    hide PageOf, Radix.Tree, Radix.Walk, Radix.Leaf, Plan, AppWord, KernelWord, Decode, Index1, After;
    if InHalf(root, va) {
      var p := PageOf(va);
      SharedWalk(h, g, root, p);
      var r, q := if root == IDMAP && Index1(p) == 1 then SWAPPER else root,
                  if root == IDMAP && Index1(p) == 1 then LINEAR + p % 0x4_0000 else p;
      h.WalkIsLeaf(r, q);
      assert Holds(h, Plan(l, APP_COUNT), r, q);
      PlanAfter(l, APP_COUNT, r, q);
      if root == SWAPPER { KernelDecodes(l, va); }
      if root == IDMAP { IdentityDecodes(l, va); }
      if root == APPS { AppDecodes(va); }
    }
  }

  /** The part of mmu_init that builds the tables: exactly the whole pool is used, every address of every root translates as
      laid out, and has the rights it needs and no others. */
  method MmuInit(t: Tables, l: Layout)
    requires l.Sane() && t.Valid() && t.where' == map[] && t.count == l.PoolSize()
    modifies t`used, t`where', t.roots, t.pool
    ensures t.used == t.count
    ensures forall root: nat, va: nat :: root < ROOTS ==> Translate(t.R(), root, va) == Space(l, root, va)
    ensures forall root: nat, va: nat :: root < ROOTS ==> Permitted(l, root, Translate(t.R(), root, va))
    ensures forall va: nat :: KernelRights(l, va, Translate(t.R(), SWAPPER, va))
    ensures forall va: nat :: IdentityRights(l, va, Translate(t.R(), IDMAP, va))
    ensures forall va: nat :: AppRights(va, Translate(t.R(), APPS, va))
  {
    hide Permitted, Built, TablesOf, Target, Plan, Radix.Tree, Translate, Space, KernelRights, IdentityRights, AppRights;
    MapEverything(t, l);
    ghost var h := t.R();
    TargetSize(l);
    PlanTables(l, APP_COUNT);
    AllUsed(h, l);
    t.roots[At(IDMAP, 1)] := t.roots[At(SWAPPER, 0x100)];
    assert t.R().roots == h.roots[At(IDMAP, 1) := h.roots[At(SWAPPER, 0x100)]];
    forall root: nat, va: nat | root < ROOTS
      ensures Translate(t.R(), root, va) == Space(l, root, va) && Permitted(l, root, Space(l, root, va))
    {
      FinalSpace(h, t.R(), l, root, va);
      SpacePermitted(l, root, va);
    }
    forall va: nat
      ensures KernelRights(l, va, Space(l, SWAPPER, va)) && IdentityRights(l, va, Space(l, IDMAP, va))
      ensures AppRights(va, Space(l, APPS, va))
    {
      SpaceRights(l, va);
    }
  }

  lemma AllUsed(h: Radix, l: Layout)
    requires l.Sane() && Built(h, Plan(l, APP_COUNT)) && TablesOf(Plan(l, APP_COUNT)) == Target(l)
    ensures |h.roots| == ROOTS * TABLE_SIZE && h.used == l.PoolSize()
  {
    hide TablesOf, Target, Plan;
    TargetSize(l);
    assert |h.where'.Keys| == |h.where'|;
  }
}
