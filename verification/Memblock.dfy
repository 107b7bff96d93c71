/** The early allocator (mm/memblock.c): two region lists in fixed arrays. */
module Memblock {
  import opened Regions
  import opened RegionBytes

  class RegionList {
    const regions: array<Region>
    var cnt: nat
    var totalSize: nat

    constructor ()
      ensures WellFormed() && View() == [] && fresh(regions)
    {
      regions := new Region[MAX_REGIONS](_ => Region(0, 0));
      cnt, totalSize := 0, 0;
    }

    ghost predicate Shape()
      reads this, regions
    {
      regions.Length == MAX_REGIONS && cnt <= MAX_REGIONS && totalSize == TotalSize(regions[..cnt])
    }

    ghost function View(): seq<Region>
      reads this, regions
      requires Shape()
    {
      regions[..cnt]
    }

    /** Sorted, disjoint, non-touching regions inside the address space, with their total size. */
    ghost predicate WellFormed()
      reads this, regions
    {
      Shape() && Canonical(View()) && Bounded(View())
    }

    /** memmove of whole regions; on their bytes it is what the byte-wise memmove leaves. */
    method MoveRegions(to: nat, from: nat, n: nat)
      requires to + n <= regions.Length && from + n <= regions.Length
      modifies regions
      ensures regions[..] == Moved(old(regions[..]), to, from, n)
      ensures LeftByMemmove(old(regions[..]), regions[..], to, from, n)
    {
      hide LeftByMemmove;
      MovedLeft(regions[..], to, from, n);
      forall i | to <= i < to + n {
        regions[i] := regions[from + (i - to)];
      }
    }

    /** memblock_insert_region: the later regions are moved up. */
    method InsertRegion(index: nat, base: nat, size: nat)
      requires Shape() && index <= cnt < MAX_REGIONS
      modifies this, regions
      ensures Shape()
      ensures View() == old(View())[..index] + [Region(base, size)] + old(View())[index..]
    {
      hide TotalSize, LeftByMemmove;
      MoveRegions(index + 1, index, cnt - index);
      regions[index] := Region(base, size);
      cnt := cnt + 1;
      totalSize := totalSize + size;
      assert regions[..cnt] == old(View())[..index] + [Region(base, size)] + old(View())[index..];
      InsertTotal(old(View()), index, Region(base, size));
    }

    /** One merge of memblock_merge_regions: the next region is absorbed, the later ones move down. */
    method JoinRegion(index: nat)
      requires Shape() && index + 1 < cnt
      modifies this, regions
      ensures Shape() && View() == Joined(old(View()), index)
    {
      hide TotalSize, LeftByMemmove;
      ghost var v := View();
      JoinedTotal(v, index);
      regions[index] := Region(regions[index].base, regions[index].size + regions[index + 1].size);
      MoveRegions(index + 1, index + 2, cnt - index - 2);
      cnt := cnt - 1;
      assert regions[..cnt] == Joined(v, index);
    }

    /** memblock_merge_regions: join touching neighbours in and around [start, end'). */
    method MergeRegions(start: nat, end': nat)
      requires Shape() && cnt > 0
      requires Ordered(View()) && Bounded(View())
      requires forall i :: 0 <= i < cnt - 1 && (i + 1 < start || i >= end') ==> Apart(View(), i)
      modifies this, regions
      ensures WellFormed() && SameCover(old(View()), View())
    {
      hide TotalSize, Ordered, Bounded, Apart, Canonical, Covers;
      var index: nat := if start > 0 then start - 1 else 0;
      var end: nat := end';
      if end > cnt - 1 {
        end := cnt - 1;
      }
      while index < end
        invariant Shape() && Merging(View(), index, end)
        invariant SameCover(old(View()), View())
        decreases end - index
      {
        hide SameCover;
        ghost var v := View();
        if regions[index].End() != regions[index + 1].base {
          MergingSkip(v, index, end);
          index := index + 1;
          continue;
        }
        MergingJoin(v, index, end);
        JoinedCovers(v, index);
        JoinRegion(index);
        SameCoverTransitive(old(View()), v, View());
        end := end - 1;
      }
      MergingDone(View(), index, end);
    }

    /** The counting pass of memblock_add_range. */
    method CountPass(lo: nat, end: nat) returns (added: nat)
      requires Shape()
      ensures added == Gaps(View(), 0, lo, end)
    {
      added := 0;
      var base: nat := lo;
      var index: nat := 0;
      while index < cnt
        invariant index <= cnt
        invariant added + Gaps(View(), index, base, end) == Gaps(View(), 0, lo, end)
      {
        var region := regions[index];
        if region.base >= end {
          break;
        }
        if region.End() <= base {
          index := index + 1;
          continue;
        }
        if region.base > base {
          added := added + 1;
        }
        base := if region.End() < end then region.End() else end;
        index := index + 1;
      }
      if base < end {
        added := added + 1;
      }
    }

    /** The inserting pass stands before region `j` of `s`, with room for what it still has to insert. */
    ghost predicate Inserting(s: seq<Region>, j: nat, index: nat, lo: nat, base: nat, end: nat, start: nat, stop: nat)
      reads this, regions
    {
      && Shape() && j <= index <= cnt && j <= |s| && lo <= base <= end
      && Adding(s, View(), j, index, lo, base, end, index - j, start, stop)
      && (index - j) + Gaps(s, j, base, end) == Gaps(s, 0, lo, end)
      && |s| + Gaps(s, 0, lo, end) <= MAX_REGIONS
    }

    /** Insert the stretch [base, to) at `index`, widening the window of inserted regions. */
    method InsertStretch(index: nat, base: nat, to: nat, start': nat, stop': nat,
                         ghost s: seq<Region>, ghost j: nat, ghost lo: nat, ghost end: nat)
      returns (start: nat, stop: nat)
      requires Shape() && j <= index <= cnt < MAX_REGIONS && base < to <= end && j <= |s| && (j < |s| ==> to <= s[j].base)
      requires Adding(s, View(), j, index, lo, base, end, index - j, start', stop')
      modifies this, regions
      ensures Shape() && cnt == old(cnt) + 1
      ensures Adding(s, View(), j, index + 1, lo, to, end, index + 1 - j, start, stop)
    {
      hide Adding, TotalSize;
      AddingInsert(s, View(), j, index, lo, base, end, index - j, start', stop', to);
      start, stop := start', stop';
      if stop == 0 {
        start := index;
      }
      stop := index + 1;
      InsertRegion(index, base, to - base);
    }

    /** One round of the inserting loop, for a region that starts below `end`. */
    method InsertRound(index': nat, base': nat, end: nat, start': nat, stop': nat,
                       ghost s: seq<Region>, ghost j: nat, ghost lo: nat)
      returns (index: nat, base: nat, start: nat, stop: nat)
      requires Inserting(s, j, index', lo, base', end, start', stop') && index' < cnt && regions[index'].base < end
      modifies this, regions
      ensures j + 1 <= |s| && Inserting(s, j + 1, index, lo, base, end, start, stop)
    {
      hide Adding, TotalSize;
      index, base, start, stop := index', base', start', stop';
      AddingFacts(s, View(), j, index, lo, base, end, index - j, start, stop);
      var region := regions[index];
      if region.End() <= base {
        AddingSkip(s, View(), j, index, lo, base, end, index - j, start, stop);
        index := index + 1;
        return;
      }
      if region.base > base {
        start, stop := InsertStretch(index, base, region.base, start, stop, s, j, lo, end);
        base := region.base;
        index := index + 1;
      }
      AddingPass(s, View(), j, index, lo, base, end, index - j, start, stop);
      base := if region.End() < end then region.End() else end;
      index := index + 1;
    }

    /** The inserting pass of memblock_add_range: the regions it adds lie at indices [start, stop). */
    method InsertPass(lo: nat, end: nat) returns (start: nat, stop: nat)
      requires WellFormed() && lo <= end <= UINTPTR_MAX && cnt + Gaps(View(), 0, lo, end) <= MAX_REGIONS
      modifies this, regions
      ensures Shape() && cnt == old(cnt) + Gaps(old(View()), 0, lo, end)
      ensures Added(old(View()), View(), lo, end, start, stop)
    {
      hide Adding, TotalSize, Canonical, Bounded, Added;
      ghost var s: seq<Region>, j: nat := View(), 0;
      start, stop := 0, 0;
      var base: nat := lo;
      var index: nat := 0;
      AddingStart(s, lo, end);
      while index < cnt
        invariant Inserting(s, j, index, lo, base, end, start, stop)
        decreases |s| - j
      {
        if regions[index].base >= end {
          break;
        }
        index, base, start, stop := InsertRound(index, base, end, start, stop, s, j, lo);
        j := j + 1;
      }
      AddingFacts(s, View(), j, index, lo, base, end, index - j, start, stop);
      if base < end {
        start, stop := InsertStretch(index, base, end, start, stop, s, j, lo, end);
        index := index + 1;
      }
      AddingDone(s, View(), j, index, lo, end, index - j, start, stop);
    }

    /** memblock_add_range. An empty list takes the size as it is, so the result is well formed exactly
        when the list was not empty or the range does not run past the address space. */
    method AddRange(base: nat, size: nat) returns (r: int)
      requires WellFormed() && base <= UINTPTR_MAX && size <= UINTPTR_MAX
      modifies this, regions
      ensures Shape() && (WellFormed() <==> old(cnt) > 0 || base + size <= UINTPTR_MAX)
      ensures r == 0 || r == -1
      ensures r == -1 <==> size > 0 && old(cnt) > 0 && NoRoom(old(View()), base, size)
      ensures r == -1 || size == 0 ==> View() == old(View())
      ensures old(cnt) == 0 && size > 0 ==> View() == [Region(base, size)]
      ensures r == 0 && (old(cnt) > 0 || base + size <= UINTPTR_MAX) ==>
                forall x :: Covers(View(), x) <==> Covers(old(View()), x) || base <= x < base + CapSize(base, size)
    {
      hide Gaps, GapStarts, Canonical, Bounded, TotalSize, Covers, Added;
      var end := base + CapSize(base, size);
      if size == 0 {
        return 0;
      }
      if cnt == 0 {
        regions[0] := Region(base, size);
        totalSize := size;
        cnt := 1;
        SingleRegion(regions[..cnt], base, size);
        NoRegions(old(View()));
        return 0;
      }
      AheadNone(View(), base);
      GapsCountStretches(View(), 0, base, end);
      var added := CountPass(base, end);
      if added == 0 {
        NoGap(View(), base, end);
        return 0;
      }
      if cnt + added > MAX_REGIONS {
        return -1;
      }
      ghost var s := View();
      var start, stop := InsertPass(base, end);
      ghost var t := View();
      AddedFacts(s, t, base, end, start, stop);
      MergeRegions(start, stop);
      MergedCover(s, t, View(), base, end, start, stop);
      r := 0;
    }

    /** Cut region `index` at `at`: it keeps the upper part, the lower part is inserted before it. */
    method CutRegion(index: nat, at: nat)
      requires Shape() && index < cnt < MAX_REGIONS && regions[index].base < at < regions[index].End()
      modifies this, regions
      ensures Shape() && View() == Cut(old(View()), index, at)
    {
      hide TotalSize;
      ghost var v := View();
      var base := regions[index].base;
      TrimTotal(v, index, at);
      regions[index] := Region(at, regions[index].size - (at - base));
      totalSize := totalSize - (at - base);
      assert regions[..cnt] == v[index := Region(at, v[index].End() - at)];
      InsertRegion(index, base, at - base);
      assert View() == Cut(v, index, at);
    }

    /** memblock_isolate_range: afterwards whole regions [start, stop) make up the range. */
    method IsolateRange(base: nat, size: nat) returns (r: int, start: nat, stop: nat)
      requires WellFormed() && base <= UINTPTR_MAX && size <= UINTPTR_MAX
      modifies this, regions
      ensures Shape() && (r == 0 || r == -1)
      ensures r == -1 <==> size > 0 && old(cnt) + 2 > MAX_REGIONS
      ensures r == -1 || size == 0 ==> View() == old(View()) && start == stop == 0
      ensures r == 0 && size > 0 ==> start <= stop <= cnt <= old(cnt) + 2 &&
                                     Isolated(old(View()), View(), base, base + CapSize(base, size), start, stop)
    {
      hide TotalSize, Isolating, Canonical, Bounded, Isolated;
      var end := base + CapSize(base, size);
      start, stop := 0, 0;
      if size == 0 {
        return 0, 0, 0;
      }
      if cnt + 2 > MAX_REGIONS {
        return -1, 0, 0;
      }
      ghost var s, cutBase, cutEnd := View(), false, false;
      IsolateStart(s, base, end);
      var index: nat := 0;
      while index < cnt
        invariant Shape() && Isolating(s, View(), index, base, end, start, stop, cutBase, cutEnd)
        decreases !cutBase, !cutEnd, cnt - index
      {
        ghost var v := View();
        IsolateFacts(s, v, index, base, end, start, stop, cutBase, cutEnd);
        var region := regions[index];
        if region.base >= end {
          break;
        }
        if region.End() <= base {
          IsolateSkip(s, v, index, base, end, start, stop, cutBase, cutEnd);
          index := index + 1;
        } else if region.base < base {
          IsolateCutBase(s, v, index, base, end, start, stop, cutBase, cutEnd);
          CutRegion(index, base);
          index, cutBase := index + 1, true;
        } else if region.End() > end {
          IsolateCutEnd(s, v, index, base, end, start, stop, cutBase, cutEnd);
          CutRegion(index, end);
          cutEnd := true;
        } else {
          IsolateTake(s, v, index, base, end, start, stop, cutBase, cutEnd);
          if stop == 0 {
            start := index;
          }
          stop := index + 1;
          index := index + 1;
        }
      }
      IsolateFacts(s, View(), index, base, end, start, stop, cutBase, cutEnd);
      IsolateDone(s, View(), index, base, end, start, stop, cutBase, cutEnd);
      r := 0;
    }

    /** memblock_remove_range */
    method RemoveRange(base: nat, size: nat) returns (r: int)
      requires WellFormed() && base <= UINTPTR_MAX && size <= UINTPTR_MAX
      modifies this, regions
      ensures WellFormed() && (r == 0 || r == -1)
      ensures r == -1 <==> size > 0 && old(cnt) + 2 > 16
      ensures r == -1 ==> View() == old(View())
      ensures r == 0 ==>
                forall x :: Covers(View(), x) <==> Covers(old(View()), x) && !(base <= x < base + CapSize(base, size))
    {
      hide TotalSize, Canonical, Bounded, Isolated, Covers;
      ghost var s := View();
      var start, stop;
      r, start, stop := IsolateRange(base, size);
      if r != 0 {
        return -1;
      }
      ghost var cur := View();
      var index := stop;
      while index > start
        invariant start <= index <= stop <= |cur| && Shape()
        invariant View() == cur[..index] + cur[stop..]
      {
        index := index - 1;
        RemoveRegion(index);
      }
      if size > 0 {
        RemoveDone(s, cur, base, base + CapSize(base, size), start, stop);
      }
    }

    /** memblock_remove_region: the later regions are moved down by memmove. */
    method RemoveRegion(index: nat)
      requires Shape() && index < cnt
      modifies this, regions
      ensures Shape()
      ensures View() == old(View())[..index] + old(View())[index + 1..]
    {
      hide TotalSize, LeftByMemmove;
      ghost var v := View();
      RemoveTotal(v, index);
      totalSize := totalSize - regions[index].size;
      MoveRegions(index, index + 1, cnt - index - 1);
      cnt := cnt - 1;
      assert regions[..cnt] == v[..index] + v[index + 1..];
    }
  }

  /** The input on which a list does not stay well formed: the first range of a list is stored as it is given, even where
      it passes the end of the address space and capping it would leave nothing. */
  method UncappedInput() returns (list: RegionList)
    ensures CapSize(UINTPTR_MAX, 2) == 0
    ensures list.Shape() && list.View() == [Region(UINTPTR_MAX, 2)] && !list.WellFormed()
  {
    list := new RegionList();
    var r := list.AddRange(UINTPTR_MAX, 2);
  }

  /** cap_size: `base + size` stays within the address space. */
  function CapSize(base: nat, size: nat): (r: nat)
    requires base <= UINTPTR_MAX
    ensures r <= size && base + r <= 0xffff_ffff_ffff_ffff && (r == size || base + r == 0xffff_ffff_ffff_ffff)
  {
    if size < UINTPTR_MAX - base then size else UINTPTR_MAX - base
  }

  /** The list with one more region per uncovered stretch of the range would not fit the array. */
  ghost predicate NoRoom(s: seq<Region>, base: nat, size: nat)
    requires base <= UINTPTR_MAX
  {
    |s| + |GapStarts(s, base, base + CapSize(base, size))| > 16
  }

  lemma NoRegions(s: seq<Region>)
    requires s == []
    ensures forall x :: !Covers(s, x)
  {
  }

  lemma SingleRegion(s: seq<Region>, base: nat, size: nat)
    requires s == [Region(base, size)] && size > 0
    ensures TotalSize(s) == size && Canonical(s) && (Bounded(s) <==> base + size <= UINTPTR_MAX)
    ensures forall x :: Covers(s, x) <==> base <= x < base + size
  {
    TotalOne(s[0]);
    assert s[0] == Region(base, size);
    forall x
      ensures Covers(s, x) <==> base <= x < base + size
    {
      CoversOne(s[0], x);
    }
  }

  lemma AheadNone(s: seq<Region>, base: nat)
    ensures Ahead(s, 0, base)
  {
  }

  /** With no gap to fill, the range is covered already. */
  lemma NoGap(s: seq<Region>, base: nat, end: nat)
    requires GapStarts(s, base, end) == {}
    ensures forall x :: base <= x < end ==> Covers(s, x)
  {
    var x: int := base;
    while x < end
      invariant base <= x && forall y :: base <= y < x ==> Covers(s, y)
    {
      assert !GapStart(s, base, end, x) by {
        assert x !in GapStarts(s, base, end);
      }
      x := x + 1;
    }
  }

  lemma AddedFacts(s: seq<Region>, t: seq<Region>, lo: nat, end: nat, start: nat, stop: nat)
    requires Added(s, t, lo, end, start, stop)
    ensures Ordered(t) && Bounded(t)
    ensures forall i :: 0 <= i < |t| - 1 && (i + 1 < start || i >= stop) ==> Apart(t, i)
  {
  }

  lemma MergedCover(s: seq<Region>, t: seq<Region>, u: seq<Region>, lo: nat, end: nat, start: nat, stop: nat)
    requires Added(s, t, lo, end, start, stop) && SameCover(t, u)
    ensures forall x :: Covers(u, x) <==> Covers(s, x) || lo <= x < end
  {
  }

  /** The list after merging region `k` with the touching region after it. */
  ghost function Joined(s: seq<Region>, k: nat): seq<Region>
    requires k + 1 < |s|
  {
    s[..k] + [Region(s[k].base, s[k].size + s[k + 1].size)] + s[k + 2..]
  }

  ghost predicate SameCover(s: seq<Region>, t: seq<Region>) {
    forall x :: Covers(s, x) <==> Covers(t, x)
  }

  lemma JoinedTotal(s: seq<Region>, k: nat)
    requires k + 1 < |s|
    ensures TotalSize(Joined(s, k)) == TotalSize(s)
  {
    hide TotalSize;
    var r := Region(s[k].base, s[k].size + s[k + 1].size);
    var a, d := s[..k], s[k + 2..];
    assert s == a + [s[k]] + [s[k + 1]] + d;
    TotalSplit(a + [s[k]] + [s[k + 1]], d);
    TotalSplit(a + [s[k]], [s[k + 1]]);
    TotalSplit(a, [s[k]]);
    TotalSplit(a + [r], d);
    TotalSplit(a, [r]);
    TotalOne(s[k]);
    TotalOne(s[k + 1]);
    TotalOne(r);
  }

  lemma JoinedCovers(s: seq<Region>, k: nat)
    requires k + 1 < |s| && s[k].End() == s[k + 1].base
    ensures SameCover(s, Joined(s, k))
  {
    var r := Region(s[k].base, s[k].size + s[k + 1].size);
    forall x
      ensures Covers(s, x) <==> Covers(Joined(s, k), x)
    {
      assert s == s[..k] + [s[k]] + [s[k + 1]] + s[k + 2..];
      CoversSplit(s[..k] + [s[k]] + [s[k + 1]], s[k + 2..], x);
      CoversSplit(s[..k] + [s[k]], [s[k + 1]], x);
      CoversSplit(s[..k], [s[k]], x);
      CoversSplit(s[..k] + [r], s[k + 2..], x);
      CoversSplit(s[..k], [r], x);
      CoversOne(s[k], x);
      CoversOne(s[k + 1], x);
      CoversOne(r, x);
    }
  }

  /** Merging up to pair `index` is done; pairs from `end` on needed none. */
  ghost predicate Merging(s: seq<Region>, index: nat, end: nat) {
    && Ordered(s) && Bounded(s) && (end < |s| || (s == [] && end == 0))
    && forall i :: 0 <= i < |s| - 1 && (i < index || i >= end) ==> Apart(s, i)
  }

  lemma MergingJoin(s: seq<Region>, index: nat, end: nat)
    requires Merging(s, index, end) && index < end && s[index].End() == s[index + 1].base
    ensures Merging(Joined(s, index), index, end - 1)
  {
    var t := Joined(s, index);
    forall i | 0 <= i < |t| - 1
      ensures Before(t, i) && (i < index || i >= end - 1 ==> Apart(t, i))
    {
      var j := if i < index then i else i + 1;
      assert Before(s, j);
      assert j < index || j >= end ==> Apart(s, j);
    }
  }

  lemma MergingSkip(s: seq<Region>, index: nat, end: nat)
    requires Merging(s, index, end) && index < end && s[index].End() != s[index + 1].base
    ensures Merging(s, index + 1, end)
  {
    assert Before(s, index);
  }

  lemma MergingDone(s: seq<Region>, index: nat, end: nat)
    requires Merging(s, index, end) && end <= index
    ensures Canonical(s) && Bounded(s)
  {
  }

  lemma SameCoverTransitive(a: seq<Region>, b: seq<Region>, c: seq<Region>)
    requires SameCover(a, b) && SameCover(b, c)
    ensures SameCover(a, c)
  {
  }

  ghost function Inserted(s: seq<Region>, k: nat, r: Region): seq<Region>
    requires k <= |s|
  {
    s[..k] + [r] + s[k..]
  }

  lemma InsertedCovers(s: seq<Region>, k: nat, r: Region, x: int)
    requires k <= |s|
    ensures Covers(Inserted(s, k, r), x) <==> Covers(s, x) || In(r, x)
  {
    hide Covers;
    assert s == s[..k] + s[k..];
    CoversSplit(s[..k] + [r], s[k..], x);
    CoversSplit(s[..k], [r], x);
    CoversSplit(s[..k], s[k..], x);
    CoversOne(r, x);
  }

  lemma InsertedOrdered(s: seq<Region>, k: nat, r: Region)
    requires k <= |s| && Ordered(s) && r.size > 0
    requires k > 0 ==> s[k - 1].End() <= r.base
    requires k < |s| ==> r.End() <= s[k].base
    ensures Ordered(Inserted(s, k, r))
    ensures forall i :: 0 <= i < |s| && i + 1 < k ==> (Apart(Inserted(s, k, r), i) <==> Apart(s, i))
    ensures forall i :: k < i < |s| ==> (Apart(Inserted(s, k, r), i) <==> Apart(s, i - 1))
  {
    var t := Inserted(s, k, r);
    forall i | 0 <= i < |t| - 1
      ensures Before(t, i)
    {
      if i + 1 < k { assert Before(s, i); }
      if i > k { assert Before(s, i - 1); }
    }
  }

  /** Where a pass of add_range stands. Region `j` of the original list `s` is next; `cur` is the list now.
      Everything of [lo, base) is covered, with `added` regions inserted at indices [start, stop). */
  ghost predicate Adding(s: seq<Region>, cur: seq<Region>, j: nat, index: nat, lo: nat, base: nat, end: nat,
                         added: nat, start: nat, stop: nat) {
    && Canonical(s) && j <= |s| && lo <= base <= end <= UINTPTR_MAX
    && |cur| == |s| + added && index == j + added && cur[index..] == s[j..]
    && Ordered(cur) && Bounded(cur)
    && (index > 0 && base < end ==> cur[index - 1].End() <= base)
    && (forall x :: Covers(cur, x) <==> Covers(s, x) || lo <= x < base)
    && (forall i :: 0 <= i < |cur| - 1 && (i + 1 < start || i >= stop) ==> Apart(cur, i))
    && (stop == 0 ==> added == 0 && start == 0) && (stop > 0 ==> start < stop <= index)
  }

  lemma AddingStart(s: seq<Region>, lo: nat, end: nat)
    requires Canonical(s) && Bounded(s) && lo <= end <= UINTPTR_MAX
    ensures Adding(s, s, 0, 0, lo, lo, end, 0, 0, 0)
  {
    CanonicalOrdered(s);
  }

  /** A region entirely below the remaining range is passed over. */
  lemma AddingSkip(s: seq<Region>, cur: seq<Region>, j: nat, index: nat, lo: nat, base: nat, end: nat,
                   added: nat, start: nat, stop: nat)
    requires Adding(s, cur, j, index, lo, base, end, added, start, stop) && j < |s| && s[j].End() <= base
    ensures Adding(s, cur, j + 1, index + 1, lo, base, end, added, start, stop)
  {
    hide Covers, Canonical, Ordered, Apart;
    assert cur[index] == cur[index..][0] == s[j];
    assert cur[index + 1..] == cur[index..][1..] == s[j..][1..] == s[j + 1..];
  }

  /** A region reaching into the remaining range is passed over, and the range continues after it. */
  lemma AddingPass(s: seq<Region>, cur: seq<Region>, j: nat, index: nat, lo: nat, base: nat, end: nat,
                   added: nat, start: nat, stop: nat)
    requires Adding(s, cur, j, index, lo, base, end, added, start, stop) && j < |s|
    requires s[j].base <= base < s[j].End()
    ensures Adding(s, cur, j + 1, index + 1, lo, Lower(s[j].End(), end), end, added, start, stop)
  {
    assert forall x :: base <= x < Lower(s[j].End(), end) ==> In(s[j], x) && Covers(s, x);
    hide Covers, Canonical, Ordered, Apart;
    assert cur[index] == cur[index..][0] == s[j];
    assert cur[index + 1..] == cur[index..][1..] == s[j..][1..] == s[j + 1..];
  }

  /** The uncovered stretch up to `to` is inserted before region `j`. */
  lemma AddingInsert(s: seq<Region>, cur: seq<Region>, j: nat, index: nat, lo: nat, base: nat, end: nat,
                     added: nat, start: nat, stop: nat, to: nat)
    requires Adding(s, cur, j, index, lo, base, end, added, start, stop)
    requires base < to <= end && (j < |s| ==> to <= s[j].base)
    ensures Adding(s, Inserted(cur, index, Region(base, to - base)), j, index + 1, lo, to, end, added + 1,
                   if stop == 0 then index else start, index + 1)
  {
    var r := Region(base, to - base);
    var cur' := Inserted(cur, index, r);
    assert index < |cur| ==> cur[index] == cur[index..][0] == s[j];
    InsertedOrdered(cur, index, r);
    forall x
      ensures Covers(cur', x) <==> Covers(s, x) || lo <= x < to
    {
      InsertedCovers(cur, index, r, x);
    }
    assert cur'[index + 1..] == cur[index..];
    hide Covers, Canonical, Ordered;
  }

  lemma AddingFacts(s: seq<Region>, cur: seq<Region>, j: nat, index: nat, lo: nat, base: nat, end: nat,
                    added: nat, start: nat, stop: nat)
    requires Adding(s, cur, j, index, lo, base, end, added, start, stop)
    ensures |cur| == |s| + added && index == j + added && (index < |cur| ==> j < |s| && cur[index] == s[j])
    ensures index == |cur| ==> j == |s|
    ensures j < |s| ==> s[j].size > 0
  {
    assert index < |cur| ==> cur[index] == cur[index..][0];
  }

  /** All of [lo, end) is covered now; touching neighbours lie only around [start, stop). */
  ghost predicate Added(s: seq<Region>, cur: seq<Region>, lo: nat, end: nat, start: nat, stop: nat) {
    && Ordered(cur) && Bounded(cur)
    && (forall x :: Covers(cur, x) <==> Covers(s, x) || lo <= x < end)
    && (forall i :: 0 <= i < |cur| - 1 && (i + 1 < start || i >= stop) ==> Apart(cur, i))
  }

  lemma AddingDone(s: seq<Region>, cur: seq<Region>, j: nat, index: nat, lo: nat, end: nat,
                   added: nat, start: nat, stop: nat)
    requires Adding(s, cur, j, index, lo, end, end, added, start, stop)
    ensures Added(s, cur, lo, end, start, stop) && |cur| == |s| + added
  {
  }

  /** The list with region `k` cut in two at address `at`. */
  ghost function Cut(s: seq<Region>, k: nat, at: nat): seq<Region>
    requires k < |s| && s[k].base < at < s[k].End()
  {
    s[..k] + [Region(s[k].base, at - s[k].base)] + [Region(at, s[k].End() - at)] + s[k + 1..]
  }

  lemma JoinedCut(s: seq<Region>, k: nat, at: nat)
    requires k < |s| && s[k].base < at < s[k].End()
    ensures Joined(Cut(s, k, at), k) == s
  {
  }

  lemma LaterRegions(s: seq<Region>, k: nat)
    requires Ordered(s) && k < |s|
    ensures forall i :: k < i < |s| ==> s[k].End() <= s[i].base
  {
    forall i | k < i < |s|
      ensures s[k].End() <= s[i].base
    {
      OrderedPair(s, k, i);
    }
  }

  lemma CutFacts(s: seq<Region>, k: nat, at: nat)
    requires k < |s| && s[k].base < at < s[k].End() && Ordered(s) && Bounded(s)
    ensures var t := Cut(s, k, at);
            Ordered(t) && Bounded(t) && SameCover(s, t) && TotalSize(t) == TotalSize(s)
  {
    hide TotalSize, Covers;
    var t := Cut(s, k, at);
    JoinedCut(s, k, at);
    JoinedCovers(t, k);
    JoinedTotal(t, k);
    forall i | 0 <= i < |t| - 1
      ensures Before(t, i)
    {
      if i < k { assert Before(s, i); }
      if i > k { assert Before(s, i - 1); }
    }
  }

  /** Neighbours touch only at `base` or `end`. */
  ghost predicate TouchOnlyAt(s: seq<Region>, base: nat, end: nat) {
    forall i :: 0 <= i < |s| - 1 ==> MayTouch(s, i, base, end)
  }

  ghost predicate MayTouch(s: seq<Region>, i: int, base: nat, end: nat) {
    0 <= i < |s| && (Apart(s, i) || s[i].End() == base || s[i].End() == end)
  }

  lemma CutTouch(s: seq<Region>, k: nat, at: nat, base: nat, end: nat)
    requires k < |s| && s[k].base < at < s[k].End() && TouchOnlyAt(s, base, end) && (at == base || at == end)
    ensures TouchOnlyAt(Cut(s, k, at), base, end)
  {
    var t := Cut(s, k, at);
    forall i | 0 <= i < |t| - 1
      ensures MayTouch(t, i, base, end)
    {
      if i < k { assert MayTouch(s, i, base, end); }
      if i > k { assert MayTouch(s, i - 1, base, end); }
    }
  }

  ghost predicate Below(s: seq<Region>, lo: nat, hi: nat, base: nat) {
    forall i :: lo <= i < hi && i < |s| ==> s[i].End() <= base
  }

  ghost predicate Within(s: seq<Region>, lo: nat, hi: nat, base: nat, end: nat) {
    forall i :: lo <= i < hi && i < |s| ==> base <= s[i].base && s[i].End() <= end
  }

  ghost predicate From(s: seq<Region>, lo: nat, base: nat) {
    forall i :: lo <= i < |s| ==> base <= s[i].base
  }

  /** Where isolation of [base, end) stands: regions before `index` are sorted into those below the range
      and those at [start, stop) within it; `cutBase` and `cutEnd` say which cuts have been made. */
  ghost predicate Isolating(s: seq<Region>, cur: seq<Region>, index: nat, base: nat, end: nat, start: nat, stop: nat,
                            cutBase: bool, cutEnd: bool) {
    && Ordered(cur) && Bounded(cur) && SameCover(s, cur) && TouchOnlyAt(cur, base, end) && index <= |cur| && base <= end
    && |cur| == |s| + (if cutBase then 1 else 0) + (if cutEnd then 1 else 0)
    && (stop == 0 ==> start == 0 && Below(cur, 0, index, base))
    && (stop > 0 ==> start < stop == index && Below(cur, 0, start, base) && Within(cur, start, stop, base, end))
    && (cutBase ==> From(cur, index, base))
    && (cutEnd ==> forall i :: index <= i < |cur| ==> end <= cur[i].base || cur[i].End() <= end)
  }

  lemma IsolateStart(s: seq<Region>, base: nat, end: nat)
    requires Canonical(s) && Bounded(s) && base <= end
    ensures Isolating(s, s, 0, base, end, 0, 0, false, false)
  {
    CanonicalOrdered(s);
    hide Covers;
  }

  /** Once a region within the range has been met, no later region lies below it. */
  lemma NoneInside(s: seq<Region>, cur: seq<Region>, index: nat, base: nat, end: nat, start: nat, stop: nat,
                   cutBase: bool, cutEnd: bool)
    requires Isolating(s, cur, index, base, end, start, stop, cutBase, cutEnd)
    requires index < |cur| && cur[index].base < base
    ensures stop == 0 && !cutBase
  {
    assert index > 0 ==> Before(cur, index - 1);
  }

  lemma IsolateSkip(s: seq<Region>, cur: seq<Region>, index: nat, base: nat, end: nat, start: nat, stop: nat,
                    cutBase: bool, cutEnd: bool)
    requires Isolating(s, cur, index, base, end, start, stop, cutBase, cutEnd)
    requires index < |cur| && cur[index].End() <= base
    ensures Isolating(s, cur, index + 1, base, end, start, stop, cutBase, cutEnd)
  {
    assert cur[index].size > 0;
    NoneInside(s, cur, index, base, end, start, stop, cutBase, cutEnd);
    hide Covers, Ordered, Bounded, TouchOnlyAt, SameCover;
  }

  lemma IsolateCutBase(s: seq<Region>, cur: seq<Region>, index: nat, base: nat, end: nat, start: nat, stop: nat,
                       cutBase: bool, cutEnd: bool)
    requires Isolating(s, cur, index, base, end, start, stop, cutBase, cutEnd)
    requires index < |cur| && cur[index].base < base < cur[index].End() && base < end
    ensures !cutBase && Isolating(s, Cut(cur, index, base), index + 1, base, end, start, stop, true, cutEnd)
  {
    hide Covers, Ordered, Bounded, TouchOnlyAt, SameCover, TotalSize;
    var t := Cut(cur, index, base);
    NoneInside(s, cur, index, base, end, start, stop, cutBase, cutEnd);
    CutFacts(cur, index, base);
    CutTouch(cur, index, base, base, end);
    SameCoverTransitive(s, cur, t);
    LaterRegions(cur, index);
  }

  lemma IsolateCutEnd(s: seq<Region>, cur: seq<Region>, index: nat, base: nat, end: nat, start: nat, stop: nat,
                      cutBase: bool, cutEnd: bool)
    requires Isolating(s, cur, index, base, end, start, stop, cutBase, cutEnd)
    requires index < |cur| && base <= cur[index].base < end < cur[index].End()
    ensures !cutEnd && Isolating(s, Cut(cur, index, end), index, base, end, start, stop, cutBase, true)
  {
    hide Covers, Ordered, Bounded, TouchOnlyAt, SameCover, TotalSize;
    var t := Cut(cur, index, end);
    CutFacts(cur, index, end);
    CutTouch(cur, index, end, base, end);
    SameCoverTransitive(s, cur, t);
    LaterRegions(cur, index);
  }

  lemma IsolateTake(s: seq<Region>, cur: seq<Region>, index: nat, base: nat, end: nat, start: nat, stop: nat,
                    cutBase: bool, cutEnd: bool)
    requires Isolating(s, cur, index, base, end, start, stop, cutBase, cutEnd)
    requires index < |cur| && base <= cur[index].base && cur[index].End() <= end
    ensures Isolating(s, cur, index + 1, base, end, if stop == 0 then index else start, index + 1, cutBase, cutEnd)
  {
    hide Covers, Ordered, Bounded, TouchOnlyAt, SameCover;
  }

  /** Taking out the regions within [base, end) leaves a canonical list of the rest. */
  lemma RemoveMiddle(s: seq<Region>, cur: seq<Region>, a: nat, b: nat, base: nat, end: nat)
    requires Ordered(cur) && Bounded(cur) && SameCover(s, cur) && TouchOnlyAt(cur, base, end) && a <= b <= |cur|
    requires base < end || base == end == UINTPTR_MAX
    requires Below(cur, 0, a, base) && Within(cur, a, b, base, end) && From(cur, b, end)
    ensures Canonical(cur[..a] + cur[b..]) && Bounded(cur[..a] + cur[b..])
    ensures forall x :: Covers(cur[..a] + cur[b..], x) <==> Covers(s, x) && !(base <= x < end)
  {
    MiddleApart(cur, a, b, base, end);
    forall x
      ensures Covers(cur[..a] + cur[b..], x) <==> Covers(s, x) && !(base <= x < end)
    {
      MiddleCovers(cur, a, b, base, end, x);
    }
  }

  lemma MiddleApart(cur: seq<Region>, a: nat, b: nat, base: nat, end: nat)
    requires Ordered(cur) && Bounded(cur) && TouchOnlyAt(cur, base, end) && a <= b <= |cur|
    requires base < end || base == end == UINTPTR_MAX
    requires Below(cur, 0, a, base) && From(cur, b, end)
    ensures Canonical(cur[..a] + cur[b..]) && Bounded(cur[..a] + cur[b..])
  {
    var t := cur[..a] + cur[b..];
    assert NonEmpty(t) by { assert forall i :: 0 <= i < |t| ==> t[i] == cur[if i < a then i else i - a + b]; }
    forall i | 0 <= i < |t| - 1
      ensures Apart(t, i)
    {
      var j := if i < a then i else i - a + b;
      assert t[i] == cur[j];
      if i + 1 == a {
        assert t[i + 1] == cur[b] && cur[b].size > 0 && cur[b].End() <= UINTPTR_MAX;
      } else {
        assert t[i + 1] == cur[j + 1] && Before(cur, j) && cur[j + 1].size > 0 && cur[j].size > 0;
        assert MayTouch(cur, j, base, end);
      }
    }
  }

  lemma MiddleCovers(cur: seq<Region>, a: nat, b: nat, base: nat, end: nat, x: int)
    requires NonEmpty(cur) && a <= b <= |cur| && base <= end
    requires Below(cur, 0, a, base) && Within(cur, a, b, base, end) && From(cur, b, end)
    ensures Covers(cur[..a] + cur[b..], x) <==> Covers(cur, x) && !(base <= x < end)
  {
    assert cur == cur[..a] + cur[a..b] + cur[b..];
    CoversSplit(cur[..a] + cur[a..b], cur[b..], x);
    CoversSplit(cur[..a], cur[a..b], x);
    CoversSplit(cur[..a], cur[b..], x);
    assert Covers(cur[..a], x) ==> x < base;
    assert Covers(cur[a..b], x) ==> base <= x < end;
    assert Covers(cur[b..], x) ==> end <= x;
  }

  /** Isolation is complete: [start, stop) holds the regions of the range, everything else lies outside. */
  ghost predicate Isolated(s: seq<Region>, cur: seq<Region>, base: nat, end: nat, start: nat, stop: nat) {
    exists a: nat, b: nat :: Splits(s, cur, base, end, a, b) && (a == b ==> start == stop) && (a < b ==> start == a && stop == b)
  }

  ghost predicate Splits(s: seq<Region>, cur: seq<Region>, base: nat, end: nat, a: nat, b: nat) {
    && Ordered(cur) && Bounded(cur) && SameCover(s, cur) && TouchOnlyAt(cur, base, end) && a <= b <= |cur|
    && Below(cur, 0, a, base) && Within(cur, a, b, base, end) && From(cur, b, end)
  }

  lemma IsolateDone(s: seq<Region>, cur: seq<Region>, index: nat, base: nat, end: nat, start: nat, stop: nat,
                    cutBase: bool, cutEnd: bool)
    requires Isolating(s, cur, index, base, end, start, stop, cutBase, cutEnd)
    requires index < |cur| ==> cur[index].base >= end
    ensures stop <= |cur| && start <= stop && Isolated(s, cur, base, end, start, stop)
  {
    if index < |cur| { LaterRegions(cur, index); }
    hide Ordered, Bounded, SameCover, TouchOnlyAt;
    var a, b := if stop == 0 then index else start, index;
    assert Splits(s, cur, base, end, a, b);
  }

  lemma IsolateFacts(s: seq<Region>, cur: seq<Region>, index: nat, base: nat, end: nat, start: nat, stop: nat,
                     cutBase: bool, cutEnd: bool)
    requires Isolating(s, cur, index, base, end, start, stop, cutBase, cutEnd)
    ensures |cur| == |s| + (if cutBase then 1 else 0) + (if cutEnd then 1 else 0)
    ensures index < |cur| ==> cur[index].size > 0 && cur[index].End() <= UINTPTR_MAX
    ensures index < |cur| && cur[index].base < base ==> !cutBase
    ensures index < |cur| && cur[index].base < end < cur[index].End() ==> !cutEnd
  {
    if index < |cur| && cur[index].base < base {
      NoneInside(s, cur, index, base, end, start, stop, cutBase, cutEnd);
    }
  }

  lemma RemoveDone(s: seq<Region>, cur: seq<Region>, base: nat, end: nat, start: nat, stop: nat)
    requires Isolated(s, cur, base, end, start, stop) && start <= stop <= |cur|
    requires base < end || base == end == UINTPTR_MAX
    ensures var t := cur[..start] + cur[stop..];
            && Canonical(t) && Bounded(t)
            && forall x :: Covers(t, x) <==> Covers(s, x) && !(base <= x < end)
  {
    var a: nat, b: nat :| Splits(s, cur, base, end, a, b) && (a == b ==> start == stop) && (a < b ==> start == a && stop == b);
    RemoveMiddle(s, cur, a, b, base, end);
    assert a == b ==> cur[..start] + cur[stop..] == cur == cur[..a] + cur[b..];
  }

  lemma TrimTotal(s: seq<Region>, k: nat, at: nat)
    requires k < |s| && s[k].base < at < s[k].End()
    ensures TotalSize(s[k := Region(at, s[k].End() - at)]) == TotalSize(s) - (at - s[k].base)
    ensures TotalSize(s) >= at - s[k].base
  {
    hide TotalSize;
    var r := Region(at, s[k].End() - at);
    RemoveTotal(s, k);
    InsertTotal(s[..k] + s[k + 1..], k, r);
    var t := s[..k] + s[k + 1..];
    assert s[k := r] == t[..k] + [r] + t[k..];
  }

  lemma RemoveTotal(s: seq<Region>, k: nat)
    requires k < |s|
    ensures TotalSize(s[..k] + s[k + 1..]) + s[k].size == TotalSize(s)
  {
    hide TotalSize;
    var t := s[..k] + s[k + 1..];
    InsertTotal(t, k, s[k]);
    assert s == t[..k] + [s[k]] + t[k..];
  }

  lemma InsertTotal(s: seq<Region>, k: nat, r: Region)
    requires k <= |s|
    ensures TotalSize(s[..k] + [r] + s[k..]) == TotalSize(s) + r.size
  {
    hide TotalSize;
    TotalSplit(s[..k] + [r], s[k..]);
    TotalSplit(s[..k], [r]);
    TotalSplit(s[..k], s[k..]);
    TotalOne(r);
    assert s == s[..k] + s[k..];
  }
}
