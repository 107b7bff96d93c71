/** Interval lists as sets of addresses: the theory behind mm/memblock.c. */
module Regions {
  import opened Sets
  import opened BuddyBlocks

  const UINTPTR_MAX: nat := 0xffff_ffff_ffff_ffff
  const MAX_REGIONS: nat := 16

  datatype Region = Region(base: nat, size: nat) {
    function End(): nat { base + size }
  }

  ghost predicate In(r: Region, x: int) {
    r.base <= x < r.End()
  }

  /** Address `x` lies in one of the regions. */
  ghost predicate Covers(s: seq<Region>, x: int) {
    exists i :: 0 <= i < |s| && In(s[i], x)
  }

  /** Region `i` ends by the start of the next one, or strictly before it. */
  ghost predicate Before(s: seq<Region>, i: int) {
    0 <= i && i + 1 < |s| && s[i].End() <= s[i + 1].base
  }

  ghost predicate Apart(s: seq<Region>, i: int) {
    0 <= i && i + 1 < |s| && s[i].End() < s[i + 1].base
  }

  ghost predicate NonEmpty(s: seq<Region>) {
    forall i :: 0 <= i < |s| ==> s[i].size > 0
  }

  /** Non-empty regions in ascending order, not overlapping. */
  ghost predicate Ordered(s: seq<Region>) {
    NonEmpty(s) && forall i :: 0 <= i < |s| - 1 ==> Before(s, i)
  }

  /** As Ordered, and neighbours do not even touch. */
  ghost predicate Canonical(s: seq<Region>) {
    NonEmpty(s) && forall i :: 0 <= i < |s| - 1 ==> Apart(s, i)
  }

  /** No region reaches past the end of the address space. */
  ghost predicate Bounded(s: seq<Region>) {
    forall i :: 0 <= i < |s| ==> s[i].End() <= UINTPTR_MAX
  }

  ghost function TotalSize(s: seq<Region>): nat {
    if s == [] then 0 else TotalSize(s[..|s| - 1]) + s[|s| - 1].size
  }

  lemma CanonicalOrdered(s: seq<Region>)
    requires Canonical(s)
    ensures Ordered(s)
  {
    assert forall i :: 0 <= i < |s| - 1 ==> Apart(s, i) && Before(s, i);
  }

  lemma {:induction false} OrderedPair(s: seq<Region>, i: nat, j: nat)
    requires Ordered(s) && i < j < |s|
    ensures s[i].End() <= s[j].base
  {
    assert Before(s, j - 1);
    if i < j - 1 { OrderedPair(s, i, j - 1); }
  }

  lemma {:induction false} CanonicalPair(s: seq<Region>, i: nat, j: nat)
    requires Canonical(s) && i < j < |s|
    ensures s[i].End() < s[j].base
  {
    assert Apart(s, j - 1);
    if i < j - 1 { CanonicalPair(s, i, j - 1); }
  }

  lemma OrderedSlice(s: seq<Region>, lo: nat, hi: nat)
    requires Ordered(s) && lo <= hi <= |s|
    ensures Ordered(s[lo..hi])
  {
    forall i | 0 <= i < hi - lo - 1
      ensures Before(s[lo..hi], i)
    {
      assert Before(s, lo + i);
    }
  }

  lemma CoversSplit(s: seq<Region>, t: seq<Region>, x: int)
    ensures Covers(s + t, x) <==> Covers(s, x) || Covers(t, x)
  {
    if Covers(s, x) {
      var i :| 0 <= i < |s| && In(s[i], x);
      assert In((s + t)[i], x);
    }
    if Covers(t, x) {
      var i :| 0 <= i < |t| && In(t[i], x);
      assert In((s + t)[|s| + i], x);
    }
  }

  lemma CoversOne(r: Region, x: int)
    ensures Covers([r], x) <==> In(r, x)
  {
    if In(r, x) { assert In([r][0], x); }
  }

  lemma {:induction false} TotalSplit(s: seq<Region>, t: seq<Region>)
    ensures TotalSize(s + t) == TotalSize(s) + TotalSize(t)
  {
    if t == [] {
      assert s + t == s;
    } else {
      TotalSplit(s, t[..|t| - 1]);
      assert (s + t)[..|s + t| - 1] == s + t[..|t| - 1];
    }
  }

  lemma TotalOne(r: Region)
    ensures TotalSize([r]) == r.size
  {
    assert [r][..0] == [];
  }

  /** The addresses covered, as a set. */
  ghost function Addresses(s: seq<Region>): set<nat> {
    if s == [] then {} else Addresses(s[..|s| - 1]) + Run(s[|s| - 1].base, s[|s| - 1].size)
  }

  lemma {:induction false} AddressesCovered(s: seq<Region>, x: nat)
    ensures x in Addresses(s) <==> Covers(s, x)
  {
    if s != [] {
      var n := |s| - 1;
      AddressesCovered(s[..n], x);
      CoversSplit(s[..n], [s[n]], x);
      CoversOne(s[n], x);
      assert s == s[..n] + [s[n]];
    }
  }

  /** For ordered regions the total size is the number of addresses covered. */
  lemma {:induction false} TotalIsCardinality(s: seq<Region>)
    requires Ordered(s)
    ensures TotalSize(s) == |Addresses(s)|
  {
    if s != [] {
      var n := |s| - 1;
      OrderedSlice(s, 0, n);
      TotalIsCardinality(s[..n]);
      RunSize(s[n].base, s[n].size);
      forall x | x in Addresses(s[..n])
        ensures x !in Run(s[n].base, s[n].size)
      {
        AddressesCovered(s[..n], x);
        var i :| 0 <= i < n && In(s[..n][i], x);
        OrderedPair(s, i, n);
      }
    }
  }

  /** A canonical list is determined by the addresses it covers. */
  lemma {:induction false} CanonicalUnique(s: seq<Region>, t: seq<Region>)
    requires Canonical(s) && Canonical(t) && forall x :: Covers(s, x) <==> Covers(t, x)
    ensures s == t
    decreases |s|
  {
    if s == [] {
      assert forall x :: !Covers(s, x);
      if t != [] { FirstRegion(t, t[0].base); }
    } else {
      assert Covers(s, s[0].base) by { assert In(s[0], s[0].base); }
      assert t != [];
      SameFirst(s, t);
      forall x
        ensures Covers(s[1..], x) <==> Covers(t[1..], x)
      {
        TailCovers(s, x);
        TailCovers(t, x);
      }
      CanonicalTail(s);
      CanonicalTail(t);
      CanonicalUnique(s[1..], t[1..]);
    }
  }

  lemma CanonicalTail(s: seq<Region>)
    requires Canonical(s) && s != []
    ensures Canonical(s[1..])
  {
    forall i | 0 <= i < |s| - 2
      ensures Apart(s[1..], i)
    {
      assert Apart(s, i + 1);
    }
  }

  /** Nothing is covered before the first region, nor just after it. */
  lemma FirstRegion(s: seq<Region>, x: int)
    requires Canonical(s) && s != []
    ensures x < s[0].base || x == s[0].End() ==> !Covers(s, x)
    ensures In(s[0], x) ==> Covers(s, x)
  {
    forall i | 0 < i < |s|
      ensures s[0].End() < s[i].base
    {
      CanonicalPair(s, 0, i);
    }
  }

  lemma SameFirst(s: seq<Region>, t: seq<Region>)
    requires Canonical(s) && Canonical(t) && s != [] && t != []
    requires forall x :: Covers(s, x) <==> Covers(t, x)
    ensures s[0] == t[0]
  {
    FirstRegion(s, s[0].base);
    FirstRegion(t, s[0].base);
    FirstRegion(s, t[0].base);
    FirstRegion(t, t[0].base);
    FirstRegion(s, s[0].End());
    FirstRegion(t, s[0].End());
    FirstRegion(s, t[0].End());
    FirstRegion(t, t[0].End());
  }

  lemma TailCovers(s: seq<Region>, x: int)
    requires Canonical(s) && s != []
    ensures Covers(s[1..], x) <==> Covers(s, x) && x >= s[0].End()
  {
    CoversSplit([s[0]], s[1..], x);
    CoversOne(s[0], x);
    assert s == [s[0]] + s[1..];
    if Covers(s[1..], x) {
      var i :| 0 <= i < |s[1..]| && In(s[1..][i], x);
      CanonicalPair(s, 0, i + 1);
    }
  }

  /** How many regions add_range will insert for [base, end), looking from region `j` on. */
  ghost function Gaps(s: seq<Region>, j: nat, base: nat, end: nat): nat
    requires j <= |s|
    decreases |s| - j
  {
    if j == |s| || s[j].base >= end then (if base < end then 1 else 0)
    else if s[j].End() <= base then Gaps(s, j + 1, base, end)
    else (if s[j].base > base then 1 else 0) + Gaps(s, j + 1, Lower(s[j].End(), end), end)
  }

  function Lower(a: nat, b: nat): nat { if a < b then a else b }

  /** Address `x` starts an uncovered stretch of [base, end). */
  ghost predicate GapStart(s: seq<Region>, base: nat, end: nat, x: nat) {
    base <= x < end && !Covers(s, x) && (x == base || Covers(s, x - 1))
  }

  ghost function GapStarts(s: seq<Region>, base: nat, end: nat): set<nat> {
    set x: nat | base <= x < end && GapStart(s, base, end, x)
  }

  /** Among regions from `j` on, all at or above `base`: nothing below `base` is at stake. */
  ghost predicate Ahead(s: seq<Region>, j: nat, base: nat) {
    j <= |s| && forall i :: 0 <= i < j ==> s[i].End() <= base
  }

  /** Between the regions behind and region `j` nothing is covered. */
  lemma Uncovered(s: seq<Region>, j: nat, base: nat, x: int)
    requires Canonical(s) && Ahead(s, j, base) && base <= x && (j < |s| ==> x < s[j].base)
    ensures !Covers(s, x)
  {
    forall i | 0 <= i < |s|
      ensures !In(s[i], x)
    {
      if j < i { CanonicalPair(s, j, i); }
    }
  }

  lemma CoveredBy(s: seq<Region>, j: nat, x: int)
    requires j < |s| && In(s[j], x)
    ensures Covers(s, x)
  {
  }

  lemma AheadNext(s: seq<Region>, j: nat, base: nat)
    requires Canonical(s) && j < |s| && s[j].End() <= base
    ensures Ahead(s, j + 1, base)
    ensures j + 1 < |s| ==> s[j].End() < s[j + 1].base
  {
    forall i | 0 <= i < j
      ensures s[i].End() <= base
    {
      CanonicalPair(s, i, j);
    }
    if j + 1 < |s| { assert Apart(s, j); }
  }

  lemma NoRegionLeft(s: seq<Region>, j: nat, base: nat, end: nat)
    requires Canonical(s) && Ahead(s, j, base) && (j == |s| || s[j].base >= end)
    ensures GapStarts(s, base, end) == if base < end then {base} else {}
  {
    hide Covers, Canonical, Ahead;
    forall x: nat | base <= x < end
      ensures !Covers(s, x)
    {
      Uncovered(s, j, base, x);
    }
    assert forall x: nat :: base < x < end ==> !GapStart(s, base, end, x);
  }

  /** Past a region that reaches into [base, end), the stretches are those of the rest. */
  lemma OneRegion(s: seq<Region>, j: nat, base: nat, end: nat)
    requires Canonical(s) && Ahead(s, j, base) && j < |s| && s[j].base < end && base < s[j].End()
    ensures var next := Lower(s[j].End(), end);
            && GapStarts(s, base, end) == (if s[j].base > base then {base} else {}) + GapStarts(s, next, end)
            && base !in GapStarts(s, next, end)
  {
    var next := Lower(s[j].End(), end);
    forall x: nat
      ensures GapStart(s, base, end, x) <==> (x == base && s[j].base > base) || GapStart(s, next, end, x)
    {
      OneAddress(s, j, base, end, x);
    }
    hide Covers, Canonical, Ahead;
  }

  lemma OneAddress(s: seq<Region>, j: nat, base: nat, end: nat, x: nat)
    requires Canonical(s) && Ahead(s, j, base) && j < |s| && s[j].base < end && base < s[j].End()
    ensures var next := Lower(s[j].End(), end);
            GapStart(s, base, end, x) <==> (x == base && s[j].base > base) || GapStart(s, next, end, x)
  {
    assert s[j].size > 0;
    hide Covers, Canonical, Ahead;
    var next := Lower(s[j].End(), end);
    if base <= x < s[j].base {
      Uncovered(s, j, base, x);
      if x > base { Uncovered(s, j, base, x - 1); }
    } else if base <= x < s[j].End() {
      CoveredBy(s, j, x);
    } else if x == s[j].End() {
      CoveredBy(s, j, x - 1);
    }
  }

  lemma NothingPastEnd(s: seq<Region>, j: nat, end: nat)
    requires Canonical(s) && j < |s| && end <= s[j].End()
    ensures Gaps(s, j + 1, end, end) == 0 && GapStarts(s, end, end) == {}
  {
    if j + 1 < |s| { assert Apart(s, j); }
  }

  /** Gaps counts the uncovered stretches of [base, end). */
  lemma {:induction false} GapsCountStretches(s: seq<Region>, j: nat, base: nat, end: nat)
    requires Canonical(s) && Ahead(s, j, base)
    ensures Gaps(s, j, base, end) == |GapStarts(s, base, end)|
    decreases |s| - j
  {
    hide Covers, Canonical, Ahead, GapStarts;
    AheadBound(s, j, base);
    if j == |s| || s[j].base >= end {
      NoRegionLeft(s, j, base, end);
    } else if s[j].End() <= base {
      AheadNext(s, j, base);
      GapsCountStretches(s, j + 1, base, end);
    } else {
      if s[j].End() < end {
        AheadNext(s, j, s[j].End());
        GapsCountStretches(s, j + 1, s[j].End(), end);
      } else {
        NothingPastEnd(s, j, end);
      }
      OneRegion(s, j, base, end);
    }
  }

  lemma AheadBound(s: seq<Region>, j: nat, base: nat)
    requires Ahead(s, j, base)
    ensures j <= |s|
  {
  }

  /** Region bases of a canonical list: where coverage starts. */
  ghost function Bases(s: seq<Region>): set<nat> {
    set i | 0 <= i < |s| :: s[i].base
  }

  lemma {:induction false} BasesCount(s: seq<Region>)
    requires Canonical(s)
    ensures |Bases(s)| == |s|
  {
    if s != [] {
      var n := |s| - 1;
      assert Canonical(s[..n]) by {
        forall i | 0 <= i < n - 1
          ensures Apart(s[..n], i)
        {
          assert Apart(s, i);
        }
      }
      BasesCount(s[..n]);
      assert Bases(s) == Bases(s[..n]) + {s[n].base};
      forall i | 0 <= i < n
        ensures s[i].base != s[n].base
      {
        CanonicalPair(s, i, n);
      }
    } else {
      assert Bases(s) == {};
    }
  }

  /** In a canonical list, coverage starts exactly at the region bases. */
  lemma BaseStarts(s: seq<Region>, x: nat)
    requires Canonical(s)
    ensures x in Bases(s) <==> Covers(s, x) && !Covers(s, x - 1)
  {
    if x in Bases(s) {
      var i :| 0 <= i < |s| && s[i].base == x;
      assert In(s[i], x);
      forall j | 0 <= j < |s|
        ensures !In(s[j], x - 1)
      {
        if j < i { CanonicalPair(s, j, i); }
        if i < j { CanonicalPair(s, i, j); }
      }
    }
  }

  /** Adding one range to a canonical list adds at most one region. */
  lemma AddedOne(s: seq<Region>, t: seq<Region>, lo: nat, hi: nat)
    requires Canonical(s) && Canonical(t) && forall x :: Covers(t, x) <==> Covers(s, x) || lo <= x < hi
    ensures |t| <= |s| + 1
  {
    BasesCount(s);
    BasesCount(t);
    forall x | x in Bases(t)
      ensures x in Bases(s) + {lo}
    {
      hide Covers, Bases;
      BaseStarts(t, x);
      BaseStarts(s, x);
    }
    SubsetSize(Bases(t), Bases(s) + {lo});
  }

  /** A list has at most one more uncovered stretch than it has regions. */
  lemma {:induction false} GapsBound(s: seq<Region>, j: nat, base: nat, end: nat)
    requires j <= |s|
    ensures Gaps(s, j, base, end) <= |s| - j + 1
    decreases |s| - j
  {
    if j < |s| && s[j].base < end {
      GapsBound(s, j + 1, base, end);
      GapsBound(s, j + 1, Lower(s[j].End(), end), end);
    }
  }

  /** `n` regions copied from position `from` to position `to`. */
  function Moved(s: seq<Region>, to: nat, from: nat, n: nat): (t: seq<Region>)
    requires to + n <= |s| && from + n <= |s|
    ensures |t| == |s|
  {
    s[..to] + s[from..from + n] + s[to + n..]
  }
}
