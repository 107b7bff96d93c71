/** Powers of two, and the arithmetic of naturally aligned blocks. */
module PowersOfTwo {
  function Pow2(k: nat): (r: nat)
    ensures r > 0
  {
    if k == 0 then 1 else 2 * Pow2(k - 1)
  }

  lemma {:induction false} Pow2Monotone(j: nat, k: nat)
    requires j <= k
    ensures Pow2(j) <= Pow2(k)
    decreases k
  {
    if j < k { Pow2Monotone(j, k - 1); }
  }

  /** The low `k` bits of `p` are clear. */
  predicate Aligned(p: int, k: nat)
    decreases k
  {
    k == 0 || (p % 2 == 0 && Aligned(p / 2, k - 1))
  }

  /** Bit `k` of `p`: `(p >> k) & 1`. */
  predicate Bit(p: int, k: nat)
    decreases k
  {
    if k == 0 then p % 2 == 1 else Bit(p / 2, k - 1)
  }

  /** `p ^ (1 << k)` */
  function FlipBit(p: int, k: nat): int {
    if Bit(p, k) then p - Pow2(k) else p + Pow2(k)
  }

  /** `p & ~(1 << k)` */
  function ClearBit(p: int, k: nat): int {
    if Bit(p, k) then p - Pow2(k) else p
  }

  /** `p & ((1 << k) - 1)` is zero exactly when `p` is a multiple of 2^k. */
  lemma {:induction false} AlignedIsMultiple(p: int, k: nat)
    ensures Aligned(p, k) <==> p % Pow2(k) == 0
    decreases k
  {
    if k > 0 {
      AlignedIsMultiple(p / 2, k - 1);
      ModDouble(p, Pow2(k - 1));
    }
  }

  lemma ModDouble(p: int, d: int)
    requires d > 0
    ensures p % (2 * d) == 2 * (p / 2 % d) + p % 2
  {
    var h := p / 2;
    var q, r := h / d, h % d;
    assert q * (2 * d) == 2 * (q * d);
    DivModUnique(p, 2 * d, q, 2 * r + p % 2);
  }

  lemma MulAtLeast(a: int, d: int)
    requires d > 0
    ensures a >= 1 ==> a * d >= d
    ensures a <= -1 ==> a * d <= -d
  {
    if a >= 1 {
      assert (a - 1) * d >= 0;
    } else if a <= -1 {
      assert (-1 - a) * d >= 0;
    }
  }

  lemma DivModUnique(x: int, d: int, q: int, r: int)
    requires d > 0 && x == q * d + r && 0 <= r < d
    ensures x / d == q && x % d == r
  {
    var a := q - x / d;
    assert a * d == q * d - (x / d) * d;
    MulAtLeast(a, d);
  }

  lemma ModAtMost(x: nat, d: nat)
    requires d > 0
    ensures 0 <= x % d <= x && x - x % d == x / d * d
  {
    var q := x / d;
    assert x == q * d + x % d;
    if q < 0 { MulAtLeast(q, d); }
    if q > 0 { MulAtLeast(q, d); }
  }

  lemma WordPower()
    ensures Pow2(64) == 0x1_0000_0000_0000_0000
  {
    assert Pow2(8) == 0x100;
    assert Pow2(16) == 0x1_0000;
    assert Pow2(24) == 0x100_0000;
    assert Pow2(32) == 0x1_0000_0000;
    assert Pow2(40) == 0x100_0000_0000;
    assert Pow2(48) == 0x1_0000_0000_0000;
    assert Pow2(56) == 0x100_0000_0000_0000;
  }

  lemma {:induction false} Pow2Divides(k: nat, n: nat)
    requires k <= n
    ensures Pow2(n) % Pow2(k) == 0
  {
    if k == n {
      DivModUnique(Pow2(n), Pow2(k), 1, 0);
    } else {
      Pow2Divides(k, n - 1);
      var q := Pow2(n - 1) / Pow2(k);
      assert Pow2(n) == (2 * q) * Pow2(k);
      DivModUnique(Pow2(n), Pow2(k), 2 * q, 0);
    }
  }

  /** Two multiples of `d` differ by at least `d`. */
  lemma MultiplesApart(p: int, q: int, d: int)
    requires d > 0 && p % d == 0 && q % d == 0 && p < q
    ensures p + d <= q
  {
    var a := q / d - p / d;
    assert a * d == (q / d) * d - (p / d) * d;
    MulAtLeast(a, d);
  }

  lemma {:induction false} AlignedDown(p: int, j: nat, k: nat)
    requires j <= k && Aligned(p, k)
    ensures Aligned(p, j)
    decreases k
  {
    if j > 0 { AlignedDown(p / 2, j - 1, k - 1); }
  }

  /** An aligned start and its buddy differ in one bit; clearing the bit aligns both to the parent. */
  lemma {:induction false} AlignedBits(p: int, k: nat)
    requires Aligned(p, k)
    ensures Aligned(FlipBit(p, k), k) && Aligned(ClearBit(p, k), k + 1)
    ensures Bit(FlipBit(p, k), k) != Bit(p, k)
    ensures p >= 0 ==> ClearBit(p, k) >= 0 && FlipBit(p, k) >= 0
    ensures Aligned(p, k + 1) <==> !Bit(p, k)
    decreases k
  {
    if k > 0 { AlignedBits(p / 2, k - 1); }
  }

  /** Aligned blocks are nested or disjoint: a block of no higher order lies inside or beside. */
  lemma {:induction false} Nested(p: int, j: nat, q: int, k: nat)
    requires j <= k && Aligned(p, j) && Aligned(q, k)
    ensures (q <= p && p + Pow2(j) <= q + Pow2(k)) || p + Pow2(j) <= q || q + Pow2(k) <= p
    decreases k
  {
    if j > 0 { Nested(p / 2, j - 1, q / 2, k - 1); }
  }

  /** A block strictly above another contains the parent of it. */
  lemma ParentInside(p: int, j: nat, q: int, k: nat)
    requires j < k && Aligned(p, j) && Aligned(q, k) && q <= p < q + Pow2(k)
    ensures q <= ClearBit(p, j) && ClearBit(p, j) + Pow2(j + 1) <= q + Pow2(k)
  {
    AlignedBits(p, j);
    Nested(ClearBit(p, j), j + 1, q, k);
  }
}

/** The canonical decomposition of a set of free pages into aligned power-of-two blocks. */
module BuddyBlocks {
  import opened PowersOfTwo

  const MAX_ORDER: nat := 11

  predicate InRun(x: nat, p: nat, n: nat) {
    p <= x < p + n
  }

  /** The `n` consecutive numbers from `p`. */
  function Run(p: nat, n: nat): set<nat> {
    set x: nat | p <= x < p + n && InRun(x, p, n)
  }

  lemma {:induction false} RunSize(p: nat, n: nat)
    ensures |Run(p, n)| == n
  {
    if n == 0 {
      assert Run(p, n) == {};
    } else {
      RunSize(p, n - 1);
      assert Run(p, n) == Run(p, n - 1) + {p + n - 1};
    }
  }

  /** The pages of the block of order `k` at `p`. */
  function Block(p: nat, k: nat): set<nat> {
    Run(p, Pow2(k))
  }

  /** Every page of the aligned block of order `k` at `p` is in `free`. */
  ghost predicate FreeBlock(free: set<nat>, p: nat, k: nat) {
    Aligned(p, k) && Block(p, k) <= free
  }

  /** A free block that is not part of a larger free block. */
  ghost predicate Canonical(free: set<nat>, p: nat, k: nat) {
    && k < MAX_ORDER
    && FreeBlock(free, p, k)
    && (k == MAX_ORDER - 1 || !ParentFree(free, p, k))
  }

  ghost predicate ParentFree(free: set<nat>, p: nat, k: nat) {
    var q := ClearBit(p, k);
    q >= 0 && FreeBlock(free, q, k + 1)
  }

  /** Block (q, j) lies within block (p, k). */
  predicate Inside(q: nat, j: nat, p: nat, k: nat) {
    p <= q && q + Pow2(j) <= p + Pow2(k)
  }

  /** A free block meeting the block (p, k) that is not below it contains it, and conversely. */
  lemma Meet(p: nat, j: nat, q: nat, k: nat)
    requires Aligned(p, j) && Aligned(q, k)
    ensures Block(p, j) !! Block(q, k) || Inside(p, j, q, k) || Inside(q, k, p, j)
    ensures Inside(p, j, q, k) ==> j <= k && Block(p, j) <= Block(q, k)
    ensures Inside(p, j, q, k) && j == k ==> p == q
    ensures Inside(p, j, q, k) && j < k ==>
              ClearBit(p, j) >= 0 && Block(ClearBit(p, j), j + 1) <= Block(q, k)
    ensures Block(p, j) !! Block(q, k) <==> p + Pow2(j) <= q || q + Pow2(k) <= p
  {
    assert p in Block(p, j) && q in Block(q, k);
    if j <= k { Nested(p, j, q, k); } else { Nested(q, k, p, j); }
    if Inside(p, j, q, k) {
      if k < j { Pow2Monotone(k + 1, j); }
      if j < k { ParentInside(p, j, q, k); }
    }
  }

  /** A block and its buddy are the two halves of their common parent. */
  lemma Halves(p: nat, k: nat)
    requires Aligned(p, k)
    ensures var b, m := FlipBit(p, k), ClearBit(p, k);
            && b >= 0 && m >= 0 && Aligned(b, k) && Aligned(m, k + 1)
            && FlipBit(b, k) == p && ClearBit(b, k) == m
            && Block(p, k) !! Block(b, k)
            && Block(m, k + 1) == Block(p, k) + Block(b, k)
            && Inside(p, k, m, k + 1)
  {
    AlignedBits(p, k);
  }

  /** Distinct canonical blocks do not overlap. */
  lemma CanonicalDisjoint(free: set<nat>, p: nat, j: nat, q: nat, k: nat)
    requires Canonical(free, p, j) && Canonical(free, q, k) && (p, j) != (q, k)
    ensures Block(p, j) !! Block(q, k)
  {
    Meet(p, j, q, k);
    Meet(q, k, p, j);
    if Inside(p, j, q, k) {
      Halves(p, j);
    } else if Inside(q, k, p, j) {
      Halves(q, k);
    }
  }

  lemma CanonicalHead(free: set<nat>, p: nat, k: nat)
    requires Canonical(free, p, k)
    ensures p in free && k < MAX_ORDER
  {
    assert p in Block(p, k);
  }

  /** Every free block lies in a canonical block. */
  lemma {:induction false} CanonicalCover(free: set<nat>, p: nat, k: nat) returns (q: nat, j: nat)
    requires k < MAX_ORDER && FreeBlock(free, p, k)
    ensures Canonical(free, q, j) && j >= k && Inside(p, k, q, j)
    decreases MAX_ORDER - k
  {
    if k == MAX_ORDER - 1 || !ParentFree(free, p, k) {
      q, j := p, k;
    } else {
      q, j := CanonicalCover(free, ClearBit(p, k), k + 1);
    }
  }

  /** The pages of the listed blocks are exactly the free pages. */
  lemma CanonicalUnion(free: set<nat>, x: nat)
    ensures x in free <==> exists p: nat, k: nat :: Canonical(free, p, k) && x in Block(p, k)
  {
    if x in free {
      assert FreeBlock(free, x, 0);
      var p, k := CanonicalCover(free, x, 0);
      assert Canonical(free, p, k) && x in Block(p, k);
    }
  }

  /** Taking out one canonical block leaves the other canonical blocks as they were. */
  lemma RemoveCanonical(free: set<nat>, p: nat, j: nat)
    requires Canonical(free, p, j)
    ensures forall q: nat, k: nat ::
              Canonical(free - Block(p, j), q, k) <==> Canonical(free, q, k) && (q, k) != (p, j)
  {
    var rest := free - Block(p, j);
    forall q: nat, k: nat
      ensures Canonical(rest, q, k) <==> Canonical(free, q, k) && (q, k) != (p, j)
    {
      if Canonical(free, q, k) && (q, k) != (p, j) {
        CanonicalDisjoint(free, p, j, q, k);
      }
      if Canonical(rest, q, k) {
        StillCanonical(free, p, j, q, k);
      }
    }
  }

  lemma StillCanonical(free: set<nat>, p: nat, j: nat, q: nat, k: nat)
    requires Canonical(free, p, j) && Canonical(free - Block(p, j), q, k)
    ensures Canonical(free, q, k) && (q, k) != (p, j)
  {
    assert q in Block(q, k);
    if k < MAX_ORDER - 1 && ParentFree(free, q, k) {
      Halves(q, k);
      Halves(p, j);
      hide Bit, Aligned;
      Meet(ClearBit(q, k), k + 1, p, j);
      Meet(p, j, ClearBit(q, k), k + 1);
    }
  }

  /** The state of a merge in progress: block (cp, ck) holds the freed block (op, ok), disjoint from
      `free`, and is otherwise free. */
  ghost predicate Merging(free: set<nat>, op: nat, ok: nat, cp: nat, ck: nat) {
    && Aligned(op, ok) && Block(op, ok) !! free
    && ck < MAX_ORDER && Aligned(cp, ck) && Inside(op, ok, cp, ck)
    && Block(cp, ck) <= free + Block(op, ok)
  }

  /** The buddy of the block being merged is a canonical block of the old free set. */
  ghost predicate BuddyFree(free: set<nat>, cp: nat, ck: nat) {
    var b := FlipBit(cp, ck);
    b >= 0 && Canonical(free, b, ck)
  }

  /** The buddy of a merging block is outside it, and is not negative. */
  lemma BuddyOutside(free: set<nat>, op: nat, ok: nat, cp: nat, ck: nat)
    requires Merging(free, op, ok, cp, ck)
    ensures FlipBit(cp, ck) >= 0 && !Inside(FlipBit(cp, ck), ck, cp, ck) && cp in free + Block(op, ok)
  {
    Halves(cp, ck);
    assert cp in Block(cp, ck);
  }

  /** Absorbing a free buddy: exactly that block moves from the free blocks into the merge. */
  lemma MergeStep(free: set<nat>, op: nat, ok: nat, cp: nat, ck: nat)
    requires Merging(free, op, ok, cp, ck) && ck < MAX_ORDER - 1 && BuddyFree(free, cp, ck)
    ensures ClearBit(cp, ck) >= 0 && (ClearBit(cp, ck) == cp || ClearBit(cp, ck) == FlipBit(cp, ck))
    ensures Merging(free, op, ok, ClearBit(cp, ck), ck + 1)
    ensures !Inside(FlipBit(cp, ck), ck, cp, ck)
    ensures forall q: nat, k: nat :: Canonical(free, q, k) ==>
              (Inside(q, k, ClearBit(cp, ck), ck + 1) <==>
               Inside(q, k, cp, ck) || (q, k) == (FlipBit(cp, ck), ck))
  {
    Halves(cp, ck);
    var b, m := FlipBit(cp, ck), ClearBit(cp, ck);
    assert Block(m, ck + 1) == Block(cp, ck) + Block(b, ck);
    forall q: nat, k: nat | Canonical(free, q, k) && Inside(q, k, m, ck + 1)
      ensures Inside(q, k, cp, ck) || (q, k) == (b, ck)
    {
      Meet(q, k, m, ck + 1);
      Meet(q, k, cp, ck);
      Meet(cp, ck, q, k);
      assert op in Block(op, ok) && op in Block(cp, ck);
      if (q, k) != (b, ck) {
        CanonicalDisjoint(free, q, k, b, ck);
        assert q in Block(q, k);
      }
    }
  }

  /** When no buddy can be absorbed, listing the merged block restores the canonical decomposition. */
  lemma MergeDone(free: set<nat>, op: nat, ok: nat, cp: nat, ck: nat)
    requires Merging(free, op, ok, cp, ck)
    requires ck == MAX_ORDER - 1 || !BuddyFree(free, cp, ck)
    ensures forall q: nat, k: nat :: Canonical(free + Block(op, ok), q, k) <==>
              (q, k) == (cp, ck) || (Canonical(free, q, k) && !Inside(q, k, cp, ck))
  {
    var all := free + Block(op, ok);
    assert op in Block(op, ok) && op in Block(cp, ck);
    assert FreeBlock(all, cp, ck);
    ParentNotFree(free, op, ok, cp, ck);
    forall q: nat, k: nat
      ensures Canonical(all, q, k) <==>
              (q, k) == (cp, ck) || (Canonical(free, q, k) && !Inside(q, k, cp, ck))
    {
      if Canonical(all, q, k) && (q, k) != (cp, ck) {
        MergedKept(free, op, ok, cp, ck, q, k);
      }
      if Canonical(free, q, k) && !Inside(q, k, cp, ck) {
        UnmergedKept(free, op, ok, cp, ck, q, k);
      }
    }
  }

  lemma ParentNotFree(free: set<nat>, op: nat, ok: nat, cp: nat, ck: nat)
    requires Merging(free, op, ok, cp, ck)
    requires ck < MAX_ORDER - 1 ==> !BuddyFree(free, cp, ck)
    ensures ck < MAX_ORDER - 1 ==> !ParentFree(free + Block(op, ok), cp, ck)
  {
    assert op in Block(op, ok) && op in Block(cp, ck);
    if ck < MAX_ORDER - 1 && ParentFree(free + Block(op, ok), cp, ck) {
      Halves(cp, ck);
      var b := FlipBit(cp, ck);
      assert Block(ClearBit(cp, ck), ck + 1) == Block(cp, ck) + Block(b, ck);
      assert Block(b, ck) !! Block(cp, ck);
      assert FreeBlock(free, b, ck);
    }
  }

  /** A block canonical after the merge, other than the merged one, was canonical before and lies outside. */
  lemma MergedKept(free: set<nat>, op: nat, ok: nat, cp: nat, ck: nat, q: nat, k: nat)
    requires Merging(free, op, ok, cp, ck)
    requires ck < MAX_ORDER - 1 ==> !ParentFree(free + Block(op, ok), cp, ck)
    requires Canonical(free + Block(op, ok), q, k) && (q, k) != (cp, ck)
    ensures Canonical(free, q, k) && !Inside(q, k, cp, ck)
  {
    var all := free + Block(op, ok);
    assert FreeBlock(all, cp, ck) && Canonical(all, cp, ck);
    CanonicalDisjoint(all, q, k, cp, ck);
    assert Block(op, ok) <= Block(cp, ck);
    assert q in Block(q, k);
    Halves(q, k);
  }

  /** A block canonical before and outside the merged block stays canonical. */
  lemma UnmergedKept(free: set<nat>, op: nat, ok: nat, cp: nat, ck: nat, q: nat, k: nat)
    requires Merging(free, op, ok, cp, ck)
    requires ck < MAX_ORDER - 1 ==> !ParentFree(free + Block(op, ok), cp, ck)
    requires Canonical(free, q, k) && !Inside(q, k, cp, ck)
    ensures Canonical(free + Block(op, ok), q, k)
  {
    hide Bit, Aligned;
    var all := free + Block(op, ok);
    if k < MAX_ORDER - 1 && ParentFree(all, q, k) {
      Halves(q, k);
      Halves(cp, ck);
      var m := ClearBit(q, k);
      assert Block(op, ok) <= Block(cp, ck);
      assert !(Block(m, k + 1) !! Block(cp, ck));
      Meet(m, k + 1, cp, ck);
      Meet(cp, ck, m, k + 1);
    }
  }

  /** The upper half of a block that is not free can be freed on its own: its buddy is the lower half. */
  lemma UpperHalf(free: set<nat>, p: nat, k: nat)
    requires k + 1 < MAX_ORDER && Aligned(p, k + 1) && Block(p, k + 1) !! free
    ensures var h := p + Pow2(k);
            && Aligned(p, k) && Aligned(h, k) && Merging(free, h, k, h, k) && !BuddyFree(free, h, k)
            && Block(p, k + 1) == Block(p, k) + Block(h, k) && Block(p, k) !! Block(h, k)
            && forall q: nat, j: nat :: Canonical(free, q, j) ==> !Inside(q, j, h, k)
  {
    AlignedDown(p, k, k + 1);
    AlignedBits(p, k);
    var h := p + Pow2(k);
    assert FlipBit(p, k) == h && FlipBit(h, k) == p;
    assert p in Block(p, k) && h in Block(h, k);
    forall q: nat, j: nat | Canonical(free, q, j)
      ensures !Inside(q, j, h, k)
    {
      assert q in Block(q, j);
    }
  }

  /** No aligned block within [lo, hi) reaches across `p`. */
  ghost predicate NoStraddle(lo: nat, hi: nat, p: nat) {
    forall q: nat, k: nat :: Aligned(q, k) && k < MAX_ORDER && lo <= q && q + Pow2(k) <= hi ==>
      p <= q || q + Pow2(k) <= p
  }

  /** `k` is the largest order of an aligned block starting at `p` and ending by `hi`. */
  ghost predicate LargestFit(p: nat, hi: nat, k: nat) {
    && Fits(p, hi, k) && k < MAX_ORDER
    && forall j: nat :: k < j < MAX_ORDER ==> !Fits(p, hi, j)
  }

  predicate Fits(p: nat, hi: nat, k: nat) {
    Aligned(p, k) && p + Pow2(k) <= hi
  }

  /** The largest order up to `k` that fits at `p`; order 0 if none does. */
  function FitOrder(p: nat, hi: nat, k: nat): nat {
    if k == 0 || Fits(p, hi, k) then k else FitOrder(p, hi, k - 1)
  }

  lemma {:induction false} FitOrderLargest(p: nat, hi: nat, k: nat, j: nat)
    requires LargestFit(p, hi, j) && j <= k < MAX_ORDER
    ensures FitOrder(p, hi, k) == j
  {
    if k > j { FitOrderLargest(p, hi, k - 1, j); }
  }

  /** [lo, hi) cut from the front into the largest aligned blocks that fit. */
  ghost function GreedyPieces(lo: nat, hi: nat): seq<(nat, nat)>
    decreases hi - lo
  {
    if lo >= hi then [] else
      var k := FitOrder(lo, hi, MAX_ORDER - 1);
      [(lo, k)] + GreedyPieces(lo + Pow2(k), hi)
  }

  lemma GreedyNext(lo: nat, hi: nat, k: nat)
    requires lo < hi && LargestFit(lo, hi, k)
    ensures GreedyPieces(lo, hi) == [(lo, k)] + GreedyPieces(lo + Pow2(k), hi)
  {
    FitOrderLargest(lo, hi, MAX_ORDER - 1, k);
  }

  lemma GreedyStart(lo: nat, hi: nat)
    ensures NoStraddle(lo, hi, lo)
  {
  }

  lemma GreedyStep(lo: nat, hi: nat, p: nat, k: nat)
    requires NoStraddle(lo, hi, p) && LargestFit(p, hi, k)
    ensures NoStraddle(lo, hi, p + Pow2(k))
  {
    forall q: nat, j: nat | Aligned(q, j) && j < MAX_ORDER && lo <= q && q + Pow2(j) <= hi
      ensures p + Pow2(k) <= q || q + Pow2(j) <= p + Pow2(k)
    {
      if j <= k {
        Nested(q, j, p, k);
      } else {
        Nested(p, k, q, j);
        assert !Fits(p, hi, j);
      }
    }
  }

  /** Greedy pieces of an isolated run never find a free buddy. */
  lemma GreedyNoMerge(free: set<nat>, lo: nat, hi: nat, p: nat, k: nat)
    requires lo <= p < hi && NoStraddle(lo, hi, p) && Fits(p, hi, k) && k < MAX_ORDER - 1
    requires Run(lo, hi - lo) !! free && hi !in free && (lo > 0 ==> lo - 1 !in free)
    ensures !BuddyFree(free + Run(lo, p - lo), p, k)
  {
    var now := free + Run(lo, p - lo);
    Halves(p, k);
    var b := FlipBit(p, k);
    assert b in Block(b, k);
    assert b < p ==> Aligned(b, k + 1) && b < lo;
    assert b < lo ==> lo - 1 in Block(b, k) && lo - 1 !in now;
  }
}
