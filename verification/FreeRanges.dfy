/** The walk over memory that is not reserved, and allocation from it (mm/memblock.c). */
module FreeRanges {
  import opened Regions
  import opened PowersOfTwo
  import opened Memblock

  /** Address `x` is memory and not reserved. */
  ghost predicate Free(mem: seq<Region>, res: seq<Region>, x: int) {
    Covers(mem, x) && !Covers(res, x)
  }

  ghost predicate NoneFree(mem: seq<Region>, res: seq<Region>, lo: int, hi: int) {
    forall x :: lo <= x < hi ==> !Free(mem, res, x)
  }

  /** [start, end) is free and cannot be extended on either side. */
  ghost predicate MaximalFree(mem: seq<Region>, res: seq<Region>, start: int, end: int) {
    && 0 <= start < end <= UINTPTR_MAX
    && (forall x :: start <= x < end ==> Free(mem, res, x))
    && !Free(mem, res, start - 1) && !Free(mem, res, end)
  }

  ghost predicate Lists(mem: seq<Region>, res: seq<Region>) {
    Canonical(mem) && Bounded(mem) && Canonical(res) && Bounded(res)
  }

  /** The gap before reserved region `r`: from the end of the previous one to its base. */
  function GapLow(res: seq<Region>, r: nat): nat
    requires r <= |res|
  {
    if r == 0 then 0 else res[r - 1].End()
  }

  function GapHigh(res: seq<Region>, r: nat): nat
    requires r <= |res|
  {
    if r < |res| then res[r].base else UINTPTR_MAX
  }

  function Higher(a: nat, b: nat): nat { if a > b then a else b }

  /** Everything free below the frontier of a cursor has been reported. */
  ghost function Frontier(mem: seq<Region>, res: seq<Region>, m: nat, r: nat): nat
    requires m <= |mem| && r <= |res|
  {
    if m == |mem| then UINTPTR_MAX else Higher(mem[m].base, GapLow(res, r))
  }

  /** Regions before `j` end by the end of region `j - 1`. */
  lemma PassedRegions(s: seq<Region>, j: nat)
    requires Canonical(s) && j <= |s|
    ensures Ahead(s, j, GapLow(s, j))
  {
    if j > 0 { AheadNext(s, j - 1, s[j - 1].End()); }
  }

  /** Nothing is covered between one region and the next. */
  lemma BetweenRegions(s: seq<Region>, j: nat, x: int)
    requires Canonical(s) && j <= |s| && GapLow(s, j) <= x && (j < |s| ==> x < s[j].base)
    ensures !Covers(s, x)
  {
    PassedRegions(s, j);
    Uncovered(s, j, GapLow(s, j), x);
  }

  lemma NothingNegative(s: seq<Region>, x: int)
    requires x < 0
    ensures !Covers(s, x)
  {
  }

  /** Region `m` and the gap before region `r` overlap in a maximal free range. */
  lemma Overlap(mem: seq<Region>, res: seq<Region>, m: nat, r: nat)
    requires Lists(mem, res) && m < |mem| && r <= |res|
    requires GapLow(res, r) < mem[m].End() && mem[m].base < GapHigh(res, r)
    ensures MaximalFree(mem, res, Higher(mem[m].base, GapLow(res, r)), Lower(mem[m].End(), GapHigh(res, r)))
  {
    var start, end := Higher(mem[m].base, GapLow(res, r)), Lower(mem[m].End(), GapHigh(res, r));
    assert mem[m].size > 0 && mem[m].End() <= UINTPTR_MAX;
    assert 0 < r < |res| ==> Apart(res, r - 1);
    hide Canonical, Bounded, Covers;
    forall x | start <= x < end
      ensures Free(mem, res, x)
    {
      CoveredBy(mem, m, x);
      BetweenRegions(res, r, x);
    }
    NotBefore(mem, res, m, r);
    NotAfter(mem, res, m, r);
  }

  /** The range reported for a region and a gap that overlap is non-empty exactly when the gap is: two touching reserved
      regions would make the walk report an empty range. */
  lemma ReportedNonEmpty(mem: seq<Region>, res: seq<Region>, m: nat, r: nat)
    requires m < |mem| && r <= |res| && mem[m].size > 0
    requires GapLow(res, r) < mem[m].End() && mem[m].base < GapHigh(res, r)
    ensures Higher(mem[m].base, GapLow(res, r)) < Lower(mem[m].End(), GapHigh(res, r)) <==> GapLow(res, r) < GapHigh(res, r)
    ensures Canonical(res) && Bounded(res) && Bounded(mem) && 0 < r < |res| ==> GapLow(res, r) < GapHigh(res, r)
  {
    assert 0 < r < |res| && Canonical(res) ==> Apart(res, r - 1);
  }

  lemma NotBefore(mem: seq<Region>, res: seq<Region>, m: nat, r: nat)
    requires Lists(mem, res) && m < |mem| && r <= |res|
    ensures !Free(mem, res, Higher(mem[m].base, GapLow(res, r)) - 1)
  {
    assert m > 0 ==> Apart(mem, m - 1);
    assert r > 0 ==> res[r - 1].size > 0;
    hide Canonical, Bounded, Covers;
    if mem[m].base > GapLow(res, r) || (mem[m].base == GapLow(res, r) && r == 0) {
      if m > 0 || mem[m].base > 0 {
        BetweenRegions(mem, m, mem[m].base - 1);
      } else {
        NothingNegative(mem, -1);
      }
    } else {
      CoveredBy(res, r - 1, GapLow(res, r) - 1);
    }
  }

  lemma NotAfter(mem: seq<Region>, res: seq<Region>, m: nat, r: nat)
    requires Lists(mem, res) && m < |mem| && r <= |res|
    ensures !Free(mem, res, Lower(mem[m].End(), GapHigh(res, r)))
  {
    assert m + 1 < |mem| ==> Apart(mem, m);
    assert mem[m].End() <= UINTPTR_MAX;
    assert r < |res| ==> res[r].size > 0;
    hide Canonical, Bounded, Covers;
    if mem[m].End() <= GapHigh(res, r) {
      BetweenRegions(mem, m + 1, mem[m].End());
    } else {
      CoveredBy(res, r, GapHigh(res, r));
    }
  }

  /** A gap that ends before region `m` begins holds nothing free any more. */
  lemma SkipGap(mem: seq<Region>, res: seq<Region>, m: nat, r: nat)
    requires Lists(mem, res) && m < |mem| && r < |res| && mem[m].base >= res[r].base
    ensures NoneFree(mem, res, Frontier(mem, res, m, r), Frontier(mem, res, m, r + 1))
    ensures Frontier(mem, res, m, r) <= Frontier(mem, res, m, r + 1)
  {
    assert r > 0 ==> Apart(res, r - 1);
    hide Canonical, Bounded, Covers;
    forall x | Frontier(mem, res, m, r) <= x < Frontier(mem, res, m, r + 1)
      ensures !Free(mem, res, x)
    {
      CoveredBy(res, r, x);
    }
  }

  /** Past a gap that ends inside region `m`, nothing is free up to the next gap. */
  lemma LeaveGap(mem: seq<Region>, res: seq<Region>, m: nat, r: nat)
    requires Lists(mem, res) && m < |mem| && r < |res| && mem[m].base < res[r].base
    ensures NoneFree(mem, res, res[r].base, Frontier(mem, res, m, r + 1))
    ensures res[r].base <= Frontier(mem, res, m, r + 1)
  {
    hide Canonical, Bounded, Covers;
    forall x | res[r].base <= x < Frontier(mem, res, m, r + 1)
      ensures !Free(mem, res, x)
    {
      CoveredBy(res, r, x);
    }
  }

  /** From the end of region `m` on, up to the next region after `m`, there is no memory. */
  lemma SkipRegion(mem: seq<Region>, res: seq<Region>, m: nat, r: nat)
    requires Lists(mem, res) && m < |mem| && r <= |res|
    ensures NoneFree(mem, res, Higher(mem[m].End(), GapLow(res, r)), Frontier(mem, res, m + 1, r))
    ensures GapLow(res, r) <= UINTPTR_MAX && mem[m].End() <= Frontier(mem, res, m + 1, r)
    ensures GapLow(res, r) <= Frontier(mem, res, m + 1, r)
  {
    assert m + 1 < |mem| ==> Apart(mem, m);
    assert mem[m].End() <= UINTPTR_MAX && (r > 0 ==> res[r - 1].End() <= UINTPTR_MAX);
    hide Canonical, Bounded, Covers;
    forall x | Higher(mem[m].End(), GapLow(res, r)) <= x < Frontier(mem, res, m + 1, r)
      ensures !Free(mem, res, x)
    {
      BetweenRegions(mem, m + 1, x);
    }
  }

  /** A scan that started at frontier `from` has met nothing free yet. */
  ghost predicate Scanning(mem: seq<Region>, res: seq<Region>, m: nat, r: nat, from: nat) {
    && m <= |mem| && r <= |res| && from <= Frontier(mem, res, m, r)
    && NoneFree(mem, res, from, Frontier(mem, res, m, r))
  }

  lemma ScanStart(mem: seq<Region>, res: seq<Region>, m: nat, r: nat)
    requires m <= |mem| && r <= |res|
    ensures Scanning(mem, res, m, r, Frontier(mem, res, m, r))
  {
  }

  lemma ScanEnd(mem: seq<Region>, res: seq<Region>, m: nat, r: nat, from: nat)
    requires Scanning(mem, res, m, r, from) && m == |mem|
    ensures from <= Frontier(mem, res, m, r) && NoneFree(mem, res, from, UINTPTR_MAX)
  {
  }

  lemma ScanGap(mem: seq<Region>, res: seq<Region>, m: nat, r: nat, from: nat)
    requires Lists(mem, res) && Scanning(mem, res, m, r, from) && m < |mem| && mem[m].base >= GapHigh(res, r)
    ensures r < |res| && Scanning(mem, res, m, r + 1, from)
  {
    assert mem[m].size > 0 && mem[m].End() <= UINTPTR_MAX;
    hide Canonical, Bounded, Free;
    SkipGap(mem, res, m, r);
  }

  lemma ScanRegion(mem: seq<Region>, res: seq<Region>, m: nat, r: nat, from: nat)
    requires Lists(mem, res) && Scanning(mem, res, m, r, from) && m < |mem| && GapLow(res, r) >= mem[m].End()
    ensures Scanning(mem, res, m + 1, r, from)
  {
    assert mem[m].size > 0;
    hide Canonical, Bounded, Free;
    SkipRegion(mem, res, m, r);
  }

  /** What is known when a free range is reported and the cursor moves past whichever ends first. */
  lemma ScanFound(mem: seq<Region>, res: seq<Region>, m: nat, r: nat, from: nat)
    requires Lists(mem, res) && Scanning(mem, res, m, r, from) && m < |mem|
    requires GapLow(res, r) < mem[m].End() && mem[m].base < GapHigh(res, r)
    ensures var start, end := Higher(mem[m].base, GapLow(res, r)), Lower(mem[m].End(), GapHigh(res, r));
            var m', r' := if mem[m].End() <= GapHigh(res, r) then m + 1 else m, if mem[m].End() <= GapHigh(res, r) then r else r + 1;
            && MaximalFree(mem, res, start, end) && from <= start < end && NoneFree(mem, res, from, start)
            && r' <= |res| && end <= Frontier(mem, res, m', r') && NoneFree(mem, res, end, Frontier(mem, res, m', r'))
  {
    Overlap(mem, res, m, r);
    assert mem[m].End() <= UINTPTR_MAX;
    hide Canonical, Bounded, Free, MaximalFree;
    if mem[m].End() <= GapHigh(res, r) {
      SkipRegion(mem, res, m, r);
    } else {
      LeaveGap(mem, res, m, r);
    }
  }

  /** Nothing is free at or past the end of the address space. */
  lemma NoneFreePastEnd(mem: seq<Region>, res: seq<Region>, x: int)
    requires Bounded(mem) && x >= UINTPTR_MAX
    ensures !Free(mem, res, x)
  {
  }

  /** Ranges in ascending order, each maximal, together everything that is free below `limit`. */
  ghost predicate Walked(mem: seq<Region>, res: seq<Region>, ranges: seq<(nat, nat)>, limit: nat) {
    && (forall i :: 0 <= i < |ranges| ==> MaximalFree(mem, res, ranges[i].0, ranges[i].1) && ranges[i].1 <= limit)
    && (forall i, j :: 0 <= i < j < |ranges| ==> ranges[i].1 < ranges[j].0)
    && (forall x :: x < limit && Free(mem, res, x) ==> InRanges(ranges, x))
  }

  ghost predicate InRanges(ranges: seq<(nat, nat)>, x: int) {
    exists i :: 0 <= i < |ranges| && ranges[i].0 <= x < ranges[i].1
  }

  lemma WalkedStart(mem: seq<Region>, res: seq<Region>)
    requires Canonical(mem)
    ensures Walked(mem, res, [], Frontier(mem, res, 0, 0))
  {
    forall x | x < Frontier(mem, res, 0, 0)
      ensures !Covers(mem, x)
    {
      if x < 0 { NothingNegative(mem, x); } else { BetweenRegions(mem, 0, x); }
    }
  }

  lemma WalkedDone(mem: seq<Region>, res: seq<Region>, ranges: seq<(nat, nat)>, f: nat)
    requires Walked(mem, res, ranges, f) && NoneFree(mem, res, f, UINTPTR_MAX) && f <= UINTPTR_MAX
    ensures Walked(mem, res, ranges, UINTPTR_MAX)
  {
    hide Free, MaximalFree;
  }

  lemma FrontierBound(mem: seq<Region>, res: seq<Region>, m: nat, r: nat)
    requires Lists(mem, res) && m <= |mem| && r <= |res|
    ensures Frontier(mem, res, m, r) <= UINTPTR_MAX
  {
  }

  lemma WalkedNext(mem: seq<Region>, res: seq<Region>, ranges: seq<(nat, nat)>, f: nat, start: nat, end: nat, f': nat)
    requires Walked(mem, res, ranges, f) && f <= start && end <= f'
    requires MaximalFree(mem, res, start, end) && NoneFree(mem, res, f, start) && NoneFree(mem, res, end, f')
    ensures Walked(mem, res, ranges + [(start, end)], f')
  {
    hide Free;
    var more := ranges + [(start, end)];
    assert Free(mem, res, start);
    forall i | 0 <= i < |ranges|
      ensures ranges[i].1 < start
    {
      assert MaximalFree(mem, res, ranges[i].0, ranges[i].1) && ranges[i].1 <= f;
    }
    forall x | x < f' && Free(mem, res, x)
      ensures InRanges(more, x)
    {
      if x < f {
        var i :| 0 <= i < |ranges| && ranges[i].0 <= x < ranges[i].1;
        assert more[i].0 <= x < more[i].1;
      } else {
        assert more[|ranges|].0 <= x < more[|ranges|].1;
      }
    }
  }

  /** A complete walk lists every maximal free range. */
  lemma WalkedAll(mem: seq<Region>, res: seq<Region>, ranges: seq<(nat, nat)>, start: nat, end: nat)
    requires Walked(mem, res, ranges, UINTPTR_MAX) && MaximalFree(mem, res, start, end)
    ensures (start, end) in ranges
  {
    hide Free;
    assert Free(mem, res, start) && InRanges(ranges, start);
    var i :| 0 <= i < |ranges| && ranges[i].0 <= start < ranges[i].1;
    var s, e := ranges[i].0, ranges[i].1;
    assert MaximalFree(mem, res, s, e);
    assert s < start ==> Free(mem, res, start - 1);
    assert e < end ==> Free(mem, res, e);
    assert end < e ==> Free(mem, res, end);
    assert ranges[i] == (start, end);
  }

  /** [a, a + size) is free and `a` is a multiple of `align`. */
  ghost predicate Fit(mem: seq<Region>, res: seq<Region>, size: nat, align: nat, a: int)
    requires align > 0
  {
    0 <= a && a % align == 0 && forall x :: a <= x < a + size ==> Free(mem, res, x)
  }

  ghost predicate NoFitBelow(mem: seq<Region>, res: seq<Region>, size: nat, align: nat, limit: int)
    requires align > 0
  {
    forall a :: a < limit ==> !Fit(mem, res, size, align, a)
  }

  ghost predicate LeastFit(mem: seq<Region>, res: seq<Region>, size: nat, align: nat, a: int)
    requires align > 0
  {
    Fit(mem, res, size, align, a) && NoFitBelow(mem, res, size, align, a)
  }

  /** Rounding an address of memory up to the alignment stays within the address space. */
  ghost predicate NoWrap(mem: seq<Region>, align: nat) {
    forall i :: 0 <= i < |mem| ==> mem[i].End() + align <= UINTPTR_MAX + 1
  }

  ghost predicate RoomFor(res: seq<Region>, a: nat, size: nat) {
    a <= UINTPTR_MAX && (res == [] || !NoRoom(res, a, size))
  }

  /** `(start + align - 1) & ~(align - 1)` in 64-bit arithmetic, for a power of two. */
  function RoundUp(start: nat, align: nat): (r: nat)
    requires align > 0
    ensures r <= UINTPTR_MAX
  {
    var t := (start + align - 1) % (UINTPTR_MAX + 1);
    ModAtMost(t, align);
    t - t % align
  }

  /** Without wrap-around, rounding up gives the least multiple not below `start`. */
  lemma RoundUpLeast(start: nat, align: nat)
    requires align > 0 && start + align - 1 <= UINTPTR_MAX
    ensures var c := RoundUp(start, align);
            start <= c && c % align == 0 && forall a: nat :: start <= a && a % align == 0 ==> c <= a
  {
    var t := start + align - 1;
    var c := t - t % align;
    assert c == (t / align) * align;
    DivModUnique(c, align, t / align, 0);
    forall a: nat | start <= a && a % align == 0
      ensures c <= a
    {
      if a < c { MultiplesApart(a, c, align); }
    }
  }

  /** When adding to `start` wraps around, the candidate is address zero. */
  lemma RoundUpWraps(start: nat, align: nat)
    requires 0 < align <= UINTPTR_MAX + 1 && start <= UINTPTR_MAX && start + align - 1 > UINTPTR_MAX
    ensures RoundUp(start, align) == 0
  {
    var t := start + align - 1 - (UINTPTR_MAX + 1);
    DivModUnique(start + align - 1, UINTPTR_MAX + 1, 1, t);
    DivModUnique(t, align, 0, t);
  }

  ghost predicate IsPowerOfTwo(align: nat) { exists k: nat :: k < 64 && align == Pow2(k) }

  lemma PowerDivides(align: nat)
    requires IsPowerOfTwo(align)
    ensures 0 < align <= UINTPTR_MAX + 1 && (UINTPTR_MAX + 1) % align == 0
  {
    var k: nat :| k < 64 && align == Pow2(k);
    WordPower();
    Pow2Divides(k, 64);
    Pow2Monotone(k, 64);
  }

  /** At a maximal free range from `start` on, rounding up wraps and the wrapped candidate, zero, passes the size test. */
  ghost predicate WrapsAt(mem: seq<Region>, res: seq<Region>, size: nat, align: nat, start: int, end: int) {
    MaximalFree(mem, res, start, end) && start + align - 1 > UINTPTR_MAX && size <= end
  }

  ghost predicate NoWrapBelow(mem: seq<Region>, res: seq<Region>, size: nat, align: nat, f: int) {
    forall start, end :: start < f ==> !WrapsAt(mem, res, size, align, start, end)
  }

  /** Nothing fits, and the search comes to a range where rounding wraps: it then takes address zero for a fit. */
  ghost predicate TakesZero(mem: seq<Region>, res: seq<Region>, size: nat, align: nat)
    requires align > 0
  {
    (forall a :: !Fit(mem, res, size, align, a)) && exists start, end :: WrapsAt(mem, res, size, align, start, end)
  }

  /** Where rounding never wraps, zero is never taken by mistake. */
  lemma NoWrapNoZero(mem: seq<Region>, res: seq<Region>, size: nat, align: nat)
    requires align > 0 && NoWrap(mem, align)
    ensures !TakesZero(mem, res, size, align)
  {
    forall start, end
      ensures !WrapsAt(mem, res, size, align, start, end)
    {
      assert MaximalFree(mem, res, start, end) ==> Free(mem, res, start);
    }
  }

  /** No aligned address lies between a start whose rounding wraps and the end of the address space. */
  lemma NoFitPastWrap(mem: seq<Region>, res: seq<Region>, size: nat, align: nat, start: nat, a: int)
    requires IsPowerOfTwo(align) && Bounded(mem) && size > 0 && start + align - 1 > UINTPTR_MAX && a >= start
    ensures !Fit(mem, res, size, align, a)
  {
    PowerDivides(align);
    if Fit(mem, res, size, align, a) {
      assert Free(mem, res, a);
      if a >= UINTPTR_MAX {
        NoneFreePastEnd(mem, res, a);
      } else {
        MultiplesApart(a, UINTPTR_MAX + 1, align);
      }
    }
  }

  lemma NoFitWhereWraps(mem: seq<Region>, res: seq<Region>, size: nat, align: nat, f: nat, start: nat)
    requires IsPowerOfTwo(align) && align > 0 && Bounded(mem) && size > 0 && start + align - 1 > UINTPTR_MAX
    requires NoFitBelow(mem, res, size, align, f) && NoneFree(mem, res, f, start)
    ensures forall a :: !Fit(mem, res, size, align, a)
  {
    forall a
      ensures !Fit(mem, res, size, align, a)
    {
      if a >= start {
        NoFitPastWrap(mem, res, size, align, start, a);
      } else {
        hide Free;
        assert Fit(mem, res, size, align, a) ==> Free(mem, res, a);
      }
    }
  }

  /** One more range passed at which the search does not take a wrapped candidate. */
  lemma WrapMissed(mem: seq<Region>, res: seq<Region>, size: nat, align: nat, f: nat, start: nat, end: nat, f': nat)
    requires NoWrapBelow(mem, res, size, align, f) && !WrapsAt(mem, res, size, align, start, end)
    requires MaximalFree(mem, res, start, end) && NoneFree(mem, res, f, start) && NoneFree(mem, res, end, f')
    ensures NoWrapBelow(mem, res, size, align, f')
  {
    hide Free;
    forall s, e | s < f'
      ensures !WrapsAt(mem, res, size, align, s, e)
    {
      assert MaximalFree(mem, res, s, e) ==> Free(mem, res, s);
      assert start < s <= end ==> Free(mem, res, s - 1);
      assert start <= e < end ==> Free(mem, res, e);
      assert MaximalFree(mem, res, s, e) && s <= end < e ==> Free(mem, res, end);
    }
  }

  lemma NoWrapAtAll(mem: seq<Region>, res: seq<Region>, size: nat, align: nat, f: nat)
    requires align > 0 && NoWrapBelow(mem, res, size, align, f) && NoneFree(mem, res, f, UINTPTR_MAX)
    ensures !TakesZero(mem, res, size, align)
  {
    hide Free;
    forall start, end
      ensures !WrapsAt(mem, res, size, align, start, end)
    {
      assert MaximalFree(mem, res, start, end) ==> Free(mem, res, start);
    }
  }

  lemma NoWrapStart(mem: seq<Region>, res: seq<Region>, size: nat, align: nat)
    requires Canonical(mem)
    ensures NoWrapBelow(mem, res, size, align, Frontier(mem, res, 0, 0))
  {
    WalkedStart(mem, res);
    hide Free, Frontier;
    forall start, end | start < Frontier(mem, res, 0, 0)
      ensures !WrapsAt(mem, res, size, align, start, end)
    {
      assert MaximalFree(mem, res, start, end) ==> Free(mem, res, start);
    }
  }

  /** A free range too small for its first aligned address holds no fit at all. */
  lemma FitMissed(mem: seq<Region>, res: seq<Region>, size: nat, align: nat, f: nat, start: nat, end: nat, f': nat)
    requires align > 0 && size > 0 && NoFitBelow(mem, res, size, align, f) && start + align - 1 <= UINTPTR_MAX
    requires MaximalFree(mem, res, start, end) && NoneFree(mem, res, f, start) && NoneFree(mem, res, end, f')
    requires !(RoundUp(start, align) < end && end - RoundUp(start, align) >= size)
    ensures NoFitBelow(mem, res, size, align, f')
  {
    RoundUpLeast(start, align);
    hide Free, RoundUp;
    forall a | a < f'
      ensures !Fit(mem, res, size, align, a)
    {
      assert Fit(mem, res, size, align, a) ==> Free(mem, res, a);
      assert Fit(mem, res, size, align, a) && a < end < a + size ==> Free(mem, res, end);
    }
  }

  /** The first aligned address of the first range that is large enough is the least fit. */
  lemma FitFound(mem: seq<Region>, res: seq<Region>, size: nat, align: nat, f: nat, start: nat, end: nat)
    requires align > 0 && size > 0 && NoFitBelow(mem, res, size, align, f) && start + align - 1 <= UINTPTR_MAX
    requires MaximalFree(mem, res, start, end) && NoneFree(mem, res, f, start)
    requires RoundUp(start, align) < end && end - RoundUp(start, align) >= size
    ensures LeastFit(mem, res, size, align, RoundUp(start, align))
  {
    RoundUpLeast(start, align);
    hide Free, RoundUp;
    var c := RoundUp(start, align);
    assert Fit(mem, res, size, align, c);
    forall a | a < c
      ensures !Fit(mem, res, size, align, a)
    {
      assert Fit(mem, res, size, align, a) ==> Free(mem, res, a);
    }
  }

  lemma NoFitAtAll(mem: seq<Region>, res: seq<Region>, size: nat, align: nat, f: nat)
    requires align > 0 && size > 0 && NoFitBelow(mem, res, size, align, f)
    requires Bounded(mem) && NoneFree(mem, res, f, UINTPTR_MAX)
    ensures forall a :: !Fit(mem, res, size, align, a)
  {
    forall a
      ensures !Fit(mem, res, size, align, a)
    {
      if a >= UINTPTR_MAX { NoneFreePastEnd(mem, res, a); }
      hide Free;
      assert Fit(mem, res, size, align, a) ==> Free(mem, res, a);
    }
  }

  lemma NoFitStart(mem: seq<Region>, res: seq<Region>, size: nat, align: nat)
    requires Canonical(mem) && align > 0 && size > 0
    ensures NoFitBelow(mem, res, size, align, Frontier(mem, res, 0, 0))
  {
    WalkedStart(mem, res);
    forall a | a < Frontier(mem, res, 0, 0)
      ensures !Fit(mem, res, size, align, a)
    {
      hide Free;
      assert Fit(mem, res, size, align, a) ==> Free(mem, res, a);
    }
  }

  lemma RangeBound(mem: seq<Region>, res: seq<Region>, start: nat, end: nat)
    requires MaximalFree(mem, res, start, end)
    ensures start < end <= UINTPTR_MAX
  {
  }

  lemma AllocatesNone(mem: seq<Region>, res: seq<Region>, size: nat, align: nat)
    requires align > 0 && forall a :: !Fit(mem, res, size, align, a)
    ensures Allocates(mem, res, res, size, align, 0)
  {
  }

  lemma AllocatesAt(mem: seq<Region>, res: seq<Region>, res': seq<Region>, size: nat, align: nat, a: nat, r: int)
    requires align > 0 && LeastFit(mem, res, size, align, a) && a <= UINTPTR_MAX
    requires r == 0 || r == -1
    requires r == -1 <==> !RoomFor(res, a, size)
    requires r == -1 ==> res' == res
    requires r == 0 ==> forall x :: Covers(res', x) <==> Covers(res, x) || a <= x < a + size
    ensures Allocates(mem, res, res', size, align, if r != 0 then 0 else a)
  {
    hide Fit, Covers;
    assert forall b: nat :: LeastFit(mem, res, size, align, b) ==> a == b;
  }

  /** What memblock_phys_alloc does: if the least fit can be recorded, it is reserved and returned;
      otherwise nothing changes and the result is zero. */
  ghost predicate Allocates(mem: seq<Region>, res: seq<Region>, res': seq<Region>, size: nat, align: nat, addr: nat)
    requires align > 0
  {
    if exists a: nat :: LeastFit(mem, res, size, align, a) && RoomFor(res, a, size)
    then
      && LeastFit(mem, res, size, align, addr) && RoomFor(res, addr, size)
      && forall x :: Covers(res', x) <==> Covers(res, x) || addr <= x < addr + size
    else addr == 0 && res' == res
  }

  /** What memblock_phys_alloc does for every input: as above, except that where nothing fits and rounding wraps, the
      range from address zero on is reserved, if there is room, and zero is returned. */
  ghost predicate PhysAllocated(mem: seq<Region>, res: seq<Region>, res': seq<Region>, size: nat, align: nat, addr: nat)
    requires align > 0
  {
    if TakesZero(mem, res, size, align) then
      && addr == 0
      && if RoomFor(res, 0, size) then forall x :: Covers(res', x) <==> Covers(res, x) || 0 <= x < size else res' == res
    else Allocates(mem, res, res', size, align, addr)
  }

  ghost predicate CoversAll(res: seq<Region>, size: nat) { forall x :: 0 <= x < size ==> Covers(res, x) }

  /** The allocator does what it promises exactly unless nothing fits, rounding wraps, the list has room and the range from
      address zero on is not reserved already. */
  lemma AllocatesExactly(mem: seq<Region>, res: seq<Region>, res': seq<Region>, size: nat, align: nat, addr: nat)
    requires align > 0 && size > 0 && Canonical(res) && Canonical(res')
    requires PhysAllocated(mem, res, res', size, align, addr)
    ensures Allocates(mem, res, res', size, align, addr) <==>
            !(TakesZero(mem, res, size, align) && RoomFor(res, 0, size) && !CoversAll(res, size))
  {
    hide Fit, Covers, Canonical;
    if TakesZero(mem, res, size, align) {
      assert forall a: nat :: !LeastFit(mem, res, size, align, a);
      if RoomFor(res, 0, size) && CoversAll(res, size) {
        CanonicalUnique(res, res');
      }
    }
  }

  /** An input on which it does not: a hundred bytes at the end of the address space, aligned to a page. */
  lemma WrapExample()
    ensures var mem := [Region(UINTPTR_MAX - 100, 100)];
            && TakesZero(mem, [], 1, 4096) && RoomFor([], 0, 1) && !CoversAll([], 1)
            && Canonical(mem) && Bounded(mem)
  {
    var mem := [Region(UINTPTR_MAX - 100, 100)];
    forall x
      ensures Free(mem, [], x) <==> UINTPTR_MAX - 100 <= x < UINTPTR_MAX
    {
      CoversOne(mem[0], x);
    }
    forall a
      ensures !Fit(mem, [], 1, 4096, a)
    {
      assert Fit(mem, [], 1, 4096, a) ==> Free(mem, [], a);
    }
    assert WrapsAt(mem, [], 1, 4096, UINTPTR_MAX - 100, UINTPTR_MAX);
    assert !Covers([], 0);
  }

  /** Reserving a range disjoint from the list and then freeing it gives back the identical list. */
  lemma ReserveThenFree(s: seq<Region>, t: seq<Region>, u: seq<Region>, lo: nat, hi: nat)
    requires Canonical(s) && Canonical(u) && forall x :: lo <= x < hi ==> !Covers(s, x)
    requires forall x :: Covers(t, x) <==> Covers(s, x) || lo <= x < hi
    requires forall x :: Covers(u, x) <==> Covers(t, x) && !(lo <= x < hi)
    ensures u == s
  {
    CanonicalUnique(s, u);
  }

  /** A zero result means failure, and a non-zero one success, exactly unless the extent fits at address zero and the list
      has room for it: then zero means success. */
  lemma ZeroMeansFailure(mem: seq<Region>, res: seq<Region>, res': seq<Region>, size: nat, align: nat, addr: nat)
    requires align > 0 && size > 0 && Allocates(mem, res, res', size, align, addr)
    ensures (addr == 0 <==> res' == res) <==> !(Fit(mem, res, size, align, 0) && RoomFor(res, 0, size))
    ensures addr != 0 ==> LeastFit(mem, res, size, align, addr)
  {
    hide Covers, RoomFor;
    NothingBelowZero(mem, res, size, align);
    if exists a: nat :: LeastFit(mem, res, size, align, a) && RoomFor(res, a, size) {
      assert Free(mem, res, addr) && Covers(res', addr) && !Covers(res, addr);
    }
  }

  lemma NothingBelowZero(mem: seq<Region>, res: seq<Region>, size: nat, align: nat)
    requires align > 0
    ensures Fit(mem, res, size, align, 0) <==> LeastFit(mem, res, size, align, 0)
  {
    hide Free;
  }

  /** Inputs on which zero means success: memory from address zero on, nothing reserved. */
  lemma ZeroExample(n: nat, size: nat, align: nat)
    requires 0 < size <= n && align > 0
    ensures Fit([Region(0, n)], [], size, align, 0) && RoomFor([], 0, size)
  {
    forall x | 0 <= x < size
      ensures Free([Region(0, n)], [], x)
    {
      CoversOne(Region(0, n), x);
    }
    DivModUnique(0, align, 0, 0);
  }
}

module EarlyAllocator {
  import opened Regions
  import opened PowersOfTwo
  import opened FreeRanges
  import opened Memblock

  /** Position of a walk over the free ranges. */
  class Cursor {
    var memory: nat
    var reserved: nat

    constructor ()
      ensures memory == 0 && reserved == 0
    {
      memory, reserved := 0, 0;
    }
  }

  class EarlyMemory {
    const memory: RegionList
    const reserved: RegionList

    constructor ()
      ensures Valid() && Mem() == [] && Res() == [] && fresh(memory) && fresh(reserved)
      ensures fresh(memory.regions) && fresh(reserved.regions)
    {
      memory := new RegionList();
      reserved := new RegionList();
    }

    ghost predicate Valid()
      reads this, memory, reserved, memory.regions, reserved.regions
    {
      && memory != reserved && memory.regions != reserved.regions
      && memory.WellFormed() && reserved.WellFormed()
    }

    ghost function Mem(): seq<Region>
      reads this, memory, memory.regions
      requires memory.Shape()
    {
      memory.View()
    }

    ghost function Res(): seq<Region>
      reads this, reserved, reserved.regions
      requires reserved.Shape()
    {
      reserved.View()
    }

    ghost predicate At(cursor: Cursor)
      reads this, memory, reserved, memory.regions, reserved.regions, cursor
    {
      Valid() && cursor.memory <= |Mem()| && cursor.reserved <= |Res()|
    }

    ghost function FrontierOf(cursor: Cursor): nat
      reads this, memory, reserved, memory.regions, reserved.regions, cursor
      requires At(cursor)
    {
      Frontier(Mem(), Res(), cursor.memory, cursor.reserved)
    }

    /** The gap before reserved region `r`, or after the last one. */
    method GapBounds(r: nat) returns (start: nat, end: nat)
      requires Valid() && r <= |Res()|
      ensures start == GapLow(Res(), r) && end == GapHigh(Res(), r)
    {
      start := if r > 0 then reserved.regions[r - 1].End() else 0;
      end := if r < reserved.cnt then reserved.regions[r].base else UINTPTR_MAX;
    }

    /** memblock_next_free: the next maximal free range, none missed between calls. */
    method NextFree(cursor: Cursor) returns (found: bool, start: nat, end: nat)
      requires At(cursor)
      modifies cursor
      ensures At(cursor) && FrontierOf(cursor) >= old(FrontierOf(cursor))
      ensures found ==> MaximalFree(Mem(), Res(), start, end) && old(FrontierOf(cursor)) <= start && end <= FrontierOf(cursor)
      ensures found ==> NoneFree(Mem(), Res(), old(FrontierOf(cursor)), start) && NoneFree(Mem(), Res(), end, FrontierOf(cursor))
      ensures found ==> cursor.memory + cursor.reserved > old(cursor.memory + cursor.reserved)
      ensures !found ==> NoneFree(Mem(), Res(), old(FrontierOf(cursor)), UINTPTR_MAX)
    {
      hide Lists, Scanning, Frontier, MaximalFree, NoneFree, Canonical, Bounded, TotalSize, GapLow, GapHigh;
      ghost var mem, res, from := Mem(), Res(), FrontierOf(cursor);
      ListsOk();
      ScanStart(mem, res, cursor.memory, cursor.reserved);
      start, end := 0, 0;
      while cursor.memory < memory.cnt
        invariant At(cursor) && Scanning(mem, res, cursor.memory, cursor.reserved, from)
        invariant cursor.memory + cursor.reserved >= old(cursor.memory + cursor.reserved)
        decreases memory.cnt - cursor.memory
      {
        ghost var m := cursor.memory;
        var area := memory.regions[cursor.memory];
        while cursor.reserved < reserved.cnt + 1
          invariant At(cursor) && Scanning(mem, res, cursor.memory, cursor.reserved, from)
          invariant cursor.memory + cursor.reserved >= old(cursor.memory + cursor.reserved)
          invariant cursor.memory == m < memory.cnt && area == mem[m]
          decreases reserved.cnt + 1 - cursor.reserved
        {
          var gapStart, gapEnd := GapBounds(cursor.reserved);
          if gapStart >= area.End() {
            break;
          }
          if area.base < gapEnd {
            start := if area.base > gapStart then area.base else gapStart;
            end := if area.End() < gapEnd then area.End() else gapEnd;
            ScanFound(mem, res, cursor.memory, cursor.reserved, from);
            if area.End() <= gapEnd {
              cursor.memory := cursor.memory + 1;
            } else {
              cursor.reserved := cursor.reserved + 1;
            }
            return true, start, end;
          }
          ScanGap(mem, res, cursor.memory, cursor.reserved, from);
          cursor.reserved := cursor.reserved + 1;
        }
        ScanRegion(mem, res, cursor.memory, cursor.reserved, from);
        cursor.memory := cursor.memory + 1;
      }
      ScanEnd(mem, res, cursor.memory, cursor.reserved, from);
      found := false;
    }

    lemma ListsOk()
      requires Valid()
      ensures Lists(Mem(), Res())
    {
    }

    /** A whole walk from a zero cursor: all maximal free ranges, ascending. */
    method Walk() returns (ranges: seq<(nat, nat)>)
      requires Valid()
      ensures Walked(Mem(), Res(), ranges, UINTPTR_MAX) && |ranges| <= |Mem()| + |Res()|
    {
      hide Lists, Walked, Frontier, MaximalFree, NoneFree, Canonical, Bounded, TotalSize;
      var cursor := new Cursor();
      ranges := [];
      WalkedStart(Mem(), Res());
      while true
        invariant At(cursor) && |ranges| <= cursor.memory + cursor.reserved
        invariant Walked(Mem(), Res(), ranges, FrontierOf(cursor))
        decreases |Mem()| + |Res()| - cursor.memory - cursor.reserved
      {
        ghost var f := FrontierOf(cursor);
        var found, start, end := NextFree(cursor);
        if !found {
          FrontierBound(Mem(), Res(), cursor.memory, cursor.reserved);
          WalkedDone(Mem(), Res(), ranges, f);
          return;
        }
        WalkedNext(Mem(), Res(), ranges, f, start, end, FrontierOf(cursor));
        ranges := ranges + [(start, end)];
      }
    }

    /** memblock_add */
    method Add(base: nat, size: nat) returns (r: int)
      requires Valid() && base <= UINTPTR_MAX && size <= UINTPTR_MAX
      modifies memory, memory.regions
      ensures memory.Shape() && reserved.Shape() && Res() == old(Res())
      ensures Valid() <==> old(Mem()) != [] || base + size <= UINTPTR_MAX
      ensures r == 0 || r == -1
      ensures r == -1 <==> size > 0 && old(Mem()) != [] && NoRoom(old(Mem()), base, size)
      ensures r == -1 ==> Mem() == old(Mem())
      ensures old(Mem()) == [] && size > 0 ==> Mem() == [Region(base, size)]
      ensures r == 0 && Valid() ==>
                forall x :: Covers(Mem(), x) <==> Covers(old(Mem()), x) || base <= x < base + CapSize(base, size)
    {
      r := memory.AddRange(base, size);
    }

    /** memblock_reserve */
    method Reserve(base: nat, size: nat) returns (r: int)
      requires Valid() && base <= UINTPTR_MAX && size <= UINTPTR_MAX
      modifies reserved, reserved.regions
      ensures memory.Shape() && reserved.Shape() && Mem() == old(Mem())
      ensures Valid() <==> old(Res()) != [] || base + size <= UINTPTR_MAX
      ensures r == 0 || r == -1
      ensures r == -1 <==> size > 0 && old(Res()) != [] && NoRoom(old(Res()), base, size)
      ensures r == -1 ==> Res() == old(Res())
      ensures r == 0 && Valid() ==>
                forall x :: Covers(Res(), x) <==> Covers(old(Res()), x) || base <= x < base + CapSize(base, size)
    {
      r := reserved.AddRange(base, size);
    }

    /** memblock_phys_free */
    method PhysFree(base: nat, size: nat) returns (r: int)
      requires Valid() && base <= UINTPTR_MAX && size <= UINTPTR_MAX
      modifies reserved, reserved.regions
      ensures Valid() && Mem() == old(Mem())
      ensures r == 0 || r == -1
      ensures r == -1 <==> size > 0 && |old(Res())| + 2 > MAX_REGIONS
      ensures r == -1 ==> Res() == old(Res())
      ensures r == 0 ==>
                forall x :: Covers(Res(), x) <==> Covers(old(Res()), x) && !(base <= x < base + CapSize(base, size))
    {
      r := reserved.RemoveRange(base, size);
    }

    /** Reserve a range and free it again. */
    method ReserveAndFree(base: nat, size: nat) returns (reserving: int, freeing: int)
      requires Valid() && base <= UINTPTR_MAX && size <= UINTPTR_MAX && (Res() != [] || base + size <= UINTPTR_MAX)
      modifies reserved, reserved.regions
      ensures Valid() && Mem() == old(Mem())
      ensures reserving != 0 ==> Res() == old(Res())
      ensures reserving == 0 && freeing == 0 && (forall x :: base <= x < base + CapSize(base, size) ==> !Covers(old(Res()), x)) ==>
                Res() == old(Res())
    {
      hide Canonical, Bounded, TotalSize, Covers, NoRoom;
      ghost var s := Res();
      freeing := 0;
      reserving := Reserve(base, size);
      if reserving == 0 {
        ghost var t := Res();
        freeing := PhysFree(base, size);
        ghost var hi := base + CapSize(base, size);
        if freeing == 0 && forall x :: base <= x < hi ==> !Covers(s, x) {
          ReserveThenFree(s, t, Res(), base, hi);
        }
      }
    }

    /** memblock_phys_alloc: the least aligned extent that is free, if the reserved list has room for it; or address zero
        where nothing fits and rounding wraps. */
    method PhysAlloc(size: nat, align': nat) returns (addr: nat)
      requires Valid() && size <= UINTPTR_MAX && (align' == 0 || IsPowerOfTwo(align'))
      modifies reserved, reserved.regions
      ensures Valid() && Mem() == old(Mem())
      ensures size == 0 ==> addr == 0 && Res() == old(Res())
      ensures size > 0 ==> PhysAllocated(Mem(), old(Res()), Res(), size, Higher(align', 1), addr)
    {
      hide Lists, Frontier, MaximalFree, NoneFree, Canonical, Bounded, TotalSize, NoFitBelow, NoWrapBelow, Covers, RoundUp,
           PhysAllocated, NoRoom, IsPowerOfTwo;
      if size == 0 {
        return 0;
      }
      var align := align';
      OneIsPower();
      if align == 0 {
        align := 1;
      }
      ghost var mem, res := Mem(), Res();
      var cursor := new Cursor();
      NoFitStart(mem, res, size, align);
      NoWrapStart(mem, res, size, align);
      while true
        invariant At(cursor) && Mem() == mem && Res() == res
        invariant NoFitBelow(mem, res, size, align, FrontierOf(cursor)) && NoWrapBelow(mem, res, size, align, FrontierOf(cursor))
        decreases |mem| + |res| - cursor.memory - cursor.reserved
      {
        ghost var f := FrontierOf(cursor);
        var found, start, end := NextFree(cursor);
        if !found {
          SearchFailed(mem, res, size, align, f);
          return 0;
        }
        var candidate := RoundUp(start, align);
        RangeBound(mem, res, start, end);
        if candidate < end && end - candidate >= size {
          ghost var before := Res();
          var r := Reserve(candidate, size);
          SearchFound(mem, res, Res(), size, align, f, start, end, r);
          return if r != 0 then 0 else candidate;
        }
        SearchMissed(mem, res, size, align, f, start, end, FrontierOf(cursor));
      }
    }
  }

  lemma OneIsPower()
    ensures IsPowerOfTwo(1)
  {
    assert Pow2(0) == 1;
  }

  /** The walk ended without a candidate. */
  lemma SearchFailed(mem: seq<Region>, res: seq<Region>, size: nat, align: nat, f: nat)
    requires align > 0 && size > 0 && Bounded(mem) && NoneFree(mem, res, f, UINTPTR_MAX)
    requires NoFitBelow(mem, res, size, align, f) && NoWrapBelow(mem, res, size, align, f)
    ensures PhysAllocated(mem, res, res, size, align, 0)
  {
    hide NoneFree, NoFitBelow, NoWrapBelow, Fit, Covers, Allocates, TakesZero;
    NoWrapAtAll(mem, res, size, align, f);
    NoFitAtAll(mem, res, size, align, f);
    AllocatesNone(mem, res, size, align);
  }

  /** A range without a suitable candidate. */
  lemma SearchMissed(mem: seq<Region>, res: seq<Region>, size: nat, align: nat, f: nat, start: nat, end: nat, f': nat)
    requires IsPowerOfTwo(align) && align > 0 && size > 0 && Bounded(mem)
    requires NoFitBelow(mem, res, size, align, f) && NoWrapBelow(mem, res, size, align, f)
    requires MaximalFree(mem, res, start, end) && NoneFree(mem, res, f, start) && NoneFree(mem, res, end, f')
    requires !(RoundUp(start, align) < end && end - RoundUp(start, align) >= size)
    ensures NoFitBelow(mem, res, size, align, f') && NoWrapBelow(mem, res, size, align, f')
  {
    RangeBound(mem, res, start, end);
    PowerDivides(align);
    hide NoneFree, NoWrapBelow, Fit, RoundUp, MaximalFree, Bounded, IsPowerOfTwo;
    if start + align - 1 > UINTPTR_MAX {
      RoundUpWraps(start, align);
      NoFitWhereWraps(mem, res, size, align, f, start);
    } else {
      FitMissed(mem, res, size, align, f, start, end, f');
    }
    WrapMissed(mem, res, size, align, f, start, end, f');
  }

  /** A range with a candidate, and the outcome `r` of reserving it. */
  lemma SearchFound(mem: seq<Region>, res: seq<Region>, res': seq<Region>, size: nat, align: nat, f: nat, start: nat, end: nat, r: int)
    requires IsPowerOfTwo(align) && align > 0 && size > 0 && Bounded(mem)
    requires NoFitBelow(mem, res, size, align, f) && MaximalFree(mem, res, start, end) && NoneFree(mem, res, f, start)
    requires var c := RoundUp(start, align);
             && c < end && end - c >= size && (r == 0 || r == -1) && (r == -1 <==> !RoomFor(res, c, size))
             && (r == -1 ==> res' == res)
             && (r == 0 ==> forall x :: Covers(res', x) <==> Covers(res, x) || c <= x < c + size)
    ensures PhysAllocated(mem, res, res', size, align, if r != 0 then 0 else RoundUp(start, align))
  {
    RangeBound(mem, res, start, end);
    PowerDivides(align);
    hide NoneFree, Fit, RoundUp, MaximalFree, Bounded, IsPowerOfTwo, Covers, RoomFor, Allocates, NoFitBelow;
    if start + align - 1 > UINTPTR_MAX {
      RoundUpWraps(start, align);
      NoFitWhereWraps(mem, res, size, align, f, start);
      assert WrapsAt(mem, res, size, align, start, end);
    } else {
      FitFound(mem, res, size, align, f, start, end);
      AllocatesAt(mem, res, res', size, align, RoundUp(start, align), r);
    }
  }
}
