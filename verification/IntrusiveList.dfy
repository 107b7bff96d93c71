/** Circular doubly linked lists (include/miaow/list.h).

Many lists share one pool of nodes. A list is named by its head node; every other
node is a member of at most one list. The pool stores only the two link fields of
each node, as the C structs do; an absent key is a null link. The ghost field `lists`
is the abstract value: the member sequence of every initialised head.
*/
module IntrusiveList {
  /** Node `i` of the ring through head `h`: the head at both ends, members between. */
  ghost function At<N>(h: N, s: seq<N>, i: int): N {
    if 0 < i <= |s| then s[i - 1] else h
  }

  /** Ring nodes `i` and `i + 1` point at each other. */
  ghost predicate Linked<N>(next: map<N, N>, prev: map<N, N>, h: N, s: seq<N>, i: int) {
    && At(h, s, i) in next && next[At(h, s, i)] == At(h, s, i + 1)
    && At(h, s, i + 1) in prev && prev[At(h, s, i + 1)] == At(h, s, i)
  }

  /** The links realise the ring `h, s[0], ..., s[|s| - 1], h` in both directions. */
  ghost predicate Ring<N>(next: map<N, N>, prev: map<N, N>, h: N, s: seq<N>) {
    forall i :: 0 <= i <= |s| ==> Linked(next, prev, h, s, i)
  }

  ghost predicate Distinct<N>(s: seq<N>) {
    forall i, j :: 0 <= i < j < |s| ==> s[i] != s[j]
  }

  /** No node is shared between lists, and no head is a member. */
  ghost predicate Separate<N(!new)>(lists: map<N, seq<N>>) {
    && (forall h :: h in lists ==> Distinct(lists[h]))
    && (forall h, n :: h in lists && n in lists[h] ==> n !in lists)
    && (forall g, h, n :: g in lists && h in lists && n in lists[g] && n in lists[h] ==> g == h)
  }

  /** The node is in no list. */
  ghost predicate Unlinked<N(!new)>(lists: map<N, seq<N>>, n: N) {
    n !in lists && forall h :: h in lists ==> n !in lists[h]
  }

  /** The sequence with the first occurrence of `n` taken out. */
  ghost function Without<N>(s: seq<N>, n: N): seq<N> {
    if s == [] then [] else if s[0] == n then s[1..] else [s[0]] + Without(s[1..], n)
  }

  lemma {:induction false} WithoutAt<N>(s: seq<N>, k: int)
    requires 0 <= k < |s| && Distinct(s)
    ensures Without(s, s[k]) == s[..k] + s[k + 1..]
  {
    if k != 0 {
      WithoutAt(s[1..], k - 1);
      assert s[1..][..k - 1] == s[1..k];
    }
  }

  /** Removal takes out exactly one member and keeps the others. */
  lemma WithoutMembers<N>(s: seq<N>, n: N)
    requires n in s && Distinct(s)
    ensures |Without(s, n)| == |s| - 1 && Distinct(Without(s, n))
    ensures forall m :: m in Without(s, n) <==> m in s && m != n
  {
    var k :| 0 <= k < |s| && s[k] == n;
    WithoutAt(s, k);
    forall m | m in s && m != n
      ensures m in Without(s, n)
    {
      var j :| 0 <= j < |s| && s[j] == m;
      assert Without(s, n)[if j < k then j else j - 1] == m;
    }
  }

  /** Nodes met by following `links` for `n` steps from `from`. */
  ghost function Walk<N>(links: map<N, N>, from: N, n: nat): seq<N> {
    if n == 0 || from !in links then [] else [links[from]] + Walk(links, links[from], n - 1)
  }

  ghost function Reverse<N>(s: seq<N>): seq<N> {
    if s == [] then [] else Reverse(s[1..]) + [s[0]]
  }

  lemma {:induction false} WalkForward<N(!new)>(next: map<N, N>, prev: map<N, N>, h: N, s: seq<N>, i: nat)
    requires Ring(next, prev, h, s) && i <= |s|
    ensures Walk(next, At(h, s, i), |s| - i) == s[i..]
    decreases |s| - i
  {
    if i < |s| {
      WalkForward(next, prev, h, s, i + 1);
      assert Linked(next, prev, h, s, i);
    }
  }

  lemma {:induction false} WalkBackward<N(!new)>(next: map<N, N>, prev: map<N, N>, h: N, s: seq<N>, i: nat)
    requires Ring(next, prev, h, s) && i <= |s|
    ensures Walk(prev, At(h, s, i + 1), i) == Reverse(s[..i])
  {
    if i > 0 {
      WalkBackward(next, prev, h, s, i - 1);
      assert Linked(next, prev, h, s, i);
      ReverseSnoc(s[..i - 1], s[i - 1]);
      assert s[..i] == s[..i - 1] + [s[i - 1]];
    }
  }

  lemma {:induction false} ReverseSnoc<N>(s: seq<N>, n: N)
    ensures Reverse(s + [n]) == [n] + Reverse(s)
  {
    if s != [] {
      ReverseSnoc(s[1..], n);
      assert (s + [n])[1..] == s[1..] + [n];
    }
  }

  /** Following `next` and following `prev` around a ring give mutually reversed sequences. */
  lemma TraversalsAreReverses<N(!new)>(next: map<N, N>, prev: map<N, N>, h: N, s: seq<N>)
    requires Ring(next, prev, h, s)
    ensures Walk(next, h, |s|) == s
    ensures Walk(prev, h, |s|) == Reverse(s)
  {
    WalkForward(next, prev, h, s, 0);
    WalkBackward(next, prev, h, s, |s|);
    assert s[..|s|] == s;
  }

  /** Links of node `n` present before are unchanged after. */
  ghost predicate SameLink<N>(links: map<N, N>, links': map<N, N>, n: N) {
    n in links ==> n in links' && links'[n] == links[n]
  }

  /** A ring none of whose nodes changed links is still a ring. */
  lemma RingFrame<N(!new)>(next: map<N, N>, prev: map<N, N>, next': map<N, N>, prev': map<N, N>, h: N, s: seq<N>)
    requires Ring(next, prev, h, s)
    requires forall n :: n == h || n in s ==> SameLink(next, next', n) && SameLink(prev, prev', n)
    ensures Ring(next', prev', h, s)
  {
    forall i | 0 <= i <= |s|
      ensures Linked(next', prev', h, s, i)
    {
      assert Linked(next, prev, h, s, i);
      assert SameLink(next, next', At(h, s, i)) && SameLink(prev, prev', At(h, s, i + 1));
    }
  }

  /** Relinking `before <-> entry <-> after` inserts `entry` at position `k`. */
  lemma RingInsert<N(!new)>(next: map<N, N>, prev: map<N, N>, h: N, s: seq<N>, k: nat, entry: N)
    requires Ring(next, prev, h, s) && Distinct(s) && h !in s && entry !in s && entry != h && k <= |s|
    ensures var before, after := At(h, s, k), At(h, s, k + 1);
            Ring(next[entry := after][before := entry], prev[after := entry][entry := before],
                 h, s[..k] + [entry] + s[k..])
  {
    var t := s[..k] + [entry] + s[k..];
    var before, after := At(h, s, k), At(h, s, k + 1);
    var next', prev' := next[entry := after][before := entry], prev[after := entry][entry := before];
    forall i | 0 <= i <= |t|
      ensures Linked(next', prev', h, t, i)
    {
      if i < k {
        assert Linked(next, prev, h, s, i);
      } else if i == k {
        assert Linked(next, prev, h, s, k);
      } else if i == k + 1 {
        assert Linked(next, prev, h, s, k);
      } else {
        assert Linked(next, prev, h, s, i - 1);
      }
    }
  }

  /** Bypassing member `k` in both directions removes it. */
  lemma RingRemove<N(!new)>(next: map<N, N>, prev: map<N, N>, h: N, s: seq<N>, k: nat)
    requires Ring(next, prev, h, s) && Distinct(s) && h !in s && k < |s|
    ensures var before, after := At(h, s, k), At(h, s, k + 2);
            Ring(next[before := after] - {s[k]}, prev[after := before] - {s[k]}, h, s[..k] + s[k + 1..])
  {
    var t := s[..k] + s[k + 1..];
    var before, after := At(h, s, k), At(h, s, k + 2);
    var next', prev' := next[before := after] - {s[k]}, prev[after := before] - {s[k]};
    assert At(h, s, k + 1) == s[k];
    forall i | 0 <= i <= |t|
      ensures Linked(next', prev', h, t, i)
    {
      if i < k {
        assert Linked(next, prev, h, s, i);
      } else if i == k {
        assert Linked(next, prev, h, s, k) && Linked(next, prev, h, s, k + 1);
      } else {
        assert Linked(next, prev, h, s, i + 1);
      }
    }
  }

  lemma SeparateAfterInsert<N(!new)>(lists: map<N, seq<N>>, h: N, k: nat, entry: N)
    requires Separate(lists) && h in lists && k <= |lists[h]| && Unlinked(lists, entry)
    ensures Separate(lists[h := lists[h][..k] + [entry] + lists[h][k..]])
  {
    var s := lists[h];
    var t := s[..k] + [entry] + s[k..];
    assert Distinct(s);
    assert forall n :: n in t ==> n == entry || n in s;
  }

  lemma SeparateAfterRemove<N(!new)>(lists: map<N, seq<N>>, h: N, entry: N)
    requires Separate(lists) && h in lists && entry in lists[h]
    ensures Separate(lists[h := Without(lists[h], entry)])
    ensures Unlinked(lists[h := Without(lists[h], entry)], entry)
  {
    WithoutMembers(lists[h], entry);
  }

  /** Rings of lists none of whose nodes were relinked survive. */
  lemma OtherRings<N(!new)>(next: map<N, N>, prev: map<N, N>, next': map<N, N>, prev': map<N, N>,
                            lists: map<N, seq<N>>, h: N, touched: set<N>)
    requires Separate(lists) && forall g :: g in lists ==> Ring(next, prev, g, lists[g])
    requires forall n :: n !in touched ==> SameLink(next, next', n) && SameLink(prev, prev', n)
    requires forall n :: n in touched ==> (h in lists && (n == h || n in lists[h])) || Unlinked(lists, n)
    ensures forall g :: g in lists && g != h ==> Ring(next', prev', g, lists[g])
  {
    hide Ring;
    forall g | g in lists && g != h
      ensures Ring(next', prev', g, lists[g])
    {
      assert forall n :: n == g || n in lists[g] ==> n !in touched;
      RingFrame(next, prev, next', prev', g, lists[g]);
    }
  }

  class ListPool<N(==, !new)> {
    var next: map<N, N>
    var prev: map<N, N>
    ghost var lists: map<N, seq<N>>

    ghost predicate Valid()
      reads this
    {
      && Separate(lists)
      && forall h :: h in lists ==> Ring(next, prev, h, lists[h])
    }

    constructor ()
      ensures Valid() && lists == map[]
    {
      next, prev, lists := map[], map[], map[];
    }

    lemma ValidSeparate()
      requires Valid()
      ensures Separate(lists)
    {
    }

    /** INIT_LIST_HEAD: a fresh head starts an empty list. */
    method InitListHead(h: N)
      requires Valid() && Unlinked(lists, h)
      modifies this
      ensures Valid() && lists == old(lists)[h := []]
    {
      next := next[h := h];
      prev := prev[h := h];
      lists := lists[h := []];
      OtherRings(old(next), old(prev), next, prev, old(lists), h, {h});
    }

    /** __list_add: link `entry` between two consecutive nodes. */
    method InsertBetween(entry: N, before: N, after: N, ghost h: N, ghost k: nat)
      requires Valid() && Unlinked(lists, entry)
      requires h in lists && k <= |lists[h]|
      requires before == At(h, lists[h], k) && after == At(h, lists[h], k + 1)
      modifies this
      ensures Valid()
      ensures lists == old(lists)[h := old(lists[h])[..k] + [entry] + old(lists[h])[k..]]
    {
      hide Ring, Linked;
      prev := prev[after := entry];
      next := next[entry := after];
      prev := prev[entry := before];
      next := next[before := entry];
      ghost var s := lists[h];
      lists := lists[h := s[..k] + [entry] + s[k..]];
      RingInsert(old(next), old(prev), h, s, k, entry);
      OtherRings(old(next), old(prev), next, prev, old(lists), h, {before, after, entry});
      SeparateAfterInsert(old(lists), h, k, entry);
    }

    /** list_add: push at the front. */
    method Add(entry: N, h: N)
      requires Valid() && h in lists && Unlinked(lists, entry)
      modifies this
      ensures Valid() && lists == old(lists)[h := [entry] + old(lists[h])]
    {
      assert Linked(next, prev, h, lists[h], 0);
      assert lists[h][..0] + [entry] + lists[h][0..] == [entry] + lists[h];
      InsertBetween(entry, h, next[h], h, 0);
    }

    /** list_add_tail: push at the back. */
    method AddTail(entry: N, h: N)
      requires Valid() && h in lists && Unlinked(lists, entry)
      modifies this
      ensures Valid() && lists == old(lists)[h := old(lists[h]) + [entry]]
    {
      ghost var s := lists[h];
      assert Linked(next, prev, h, s, |s|);
      assert s[..|s|] + [entry] + s[|s|..] == s + [entry];
      InsertBetween(entry, prev[h], h, h, |s|);
    }

    /** list_del: unlink a member, found from the node alone. */
    method Del(entry: N, ghost h: N)
      requires Valid() && h in lists && entry in lists[h]
      modifies this
      ensures Valid() && lists == old(lists)[h := Without(old(lists[h]), entry)]
      ensures Unlinked(lists, entry)
    {
      ghost var s := lists[h];
      ghost var k :| 0 <= k < |s| && s[k] == entry;
      assert Linked(next, prev, h, s, k) && Linked(next, prev, h, s, k + 1);
      hide Ring, Linked;
      ghost var before, after := prev[entry], next[entry];
      next := next[prev[entry] := next[entry]];
      prev := prev[next[entry] := prev[entry]];
      next := next - {entry};
      prev := prev - {entry};
      lists := lists[h := Without(s, entry)];
      WithoutAt(s, k);
      RingRemove(old(next), old(prev), h, s, k);
      SeparateAfterRemove(old(lists), h, entry);
      OtherRings(old(next), old(prev), next, prev, old(lists), h, {before, after, entry});
    }

    /** list_empty */
    method IsEmpty(h: N) returns (empty: bool)
      requires Valid() && h in lists
      ensures empty <==> lists[h] == []
    {
      assert Linked(next, prev, h, lists[h], 0);
      empty := next[h] == h;
    }

    /** list_first_entry */
    method First(h: N) returns (n: N)
      requires Valid() && h in lists && lists[h] != []
      ensures n == lists[h][0]
    {
      assert Linked(next, prev, h, lists[h], 0);
      n := next[h];
    }

    /** list_for_each_entry: the nodes visited, in order. */
    method ForEach(h: N) returns (visited: seq<N>)
      requires Valid() && h in lists
      ensures visited == lists[h]
    {
      ghost var s := lists[h];
      visited := [];
      assert Linked(next, prev, h, s, 0);
      var position := next[h];
      while position != h
        invariant |visited| <= |s| && visited == s[..|visited|]
        invariant position == At(h, s, |visited| + 1)
        decreases |s| - |visited|
      {
        visited := visited + [position];
        assert Linked(next, prev, h, s, |visited|);
        position := next[position];
      }
    }
  }
}
