/** Region arrays as bytes: the byte-wise memmove of lib/string.c moves whole regions (mm/memblock.c). */
module RegionBytes {
  import opened Words
  import opened ByteStrings
  import opened Regions

  const REGION_SIZE: nat := 16

  /** A region in memory: base and then size. */
  function Encode(r: Region): (b: seq<Byte>)
    ensures |b| == REGION_SIZE
  {
    ToBytes(r.base, 8) + ToBytes(r.size, 8)
  }

  function EncodeAll(s: seq<Region>): seq<Byte> {
    if s == [] then [] else EncodeAll(s[..|s| - 1]) + Encode(s[|s| - 1])
  }

  lemma {:induction false} EncodeLength(s: seq<Region>)
    ensures |EncodeAll(s)| == |s| * REGION_SIZE
  {
    hide Encode;
    if s != [] { EncodeLength(s[..|s| - 1]); }
  }

  lemma EncodeSnoc(s: seq<Region>, r: Region)
    ensures EncodeAll(s + [r]) == EncodeAll(s) + Encode(r)
  {
    hide Encode;
    var t := s + [r];
    assert t[..|t| - 1] == s && t[|t| - 1] == r;
  }

  lemma Regroup<T>(a: seq<T>, b: seq<T>, c: seq<T>)
    ensures a + b + c == a + (b + c)
  {
  }

  lemma {:induction false} EncodeConcat(a: seq<Region>, b: seq<Region>)
    ensures EncodeAll(a + b) == EncodeAll(a) + EncodeAll(b)
  {
    if b == [] {
      assert a + b == a;
    } else {
      hide EncodeAll, Encode;
      var front, last := b[..|b| - 1], b[|b| - 1];
      assert b == front + [last];
      EncodeConcat(a, front);
      Regroup(a, front, [last]);
      EncodeSnoc(a + front, last);
      EncodeSnoc(front, last);
      Regroup(EncodeAll(a), EncodeAll(front), Encode(last));
    }
  }

  lemma Middle(a: seq<Byte>, b: seq<Byte>, c: seq<Byte>)
    ensures (a + (b + c))[|a|..|a| + |b|] == b
  {
  }

  /** Consecutive regions are consecutive bytes. */
  lemma EncodeSlice(s: seq<Region>, lo: nat, hi: nat, x: nat, y: nat)
    requires lo <= hi <= |s| && x == lo * REGION_SIZE && y == hi * REGION_SIZE
    ensures y <= |EncodeAll(s)| && EncodeAll(s)[x..y] == EncodeAll(s[lo..hi])
  {
    hide EncodeAll;
    var a, b, c := s[..lo], s[lo..hi], s[hi..];
    EncodeLength(a);
    EncodeLength(b);
    assert s == a + (b + c);
    EncodeConcat(a, b + c);
    EncodeConcat(b, c);
    Middle(EncodeAll(a), EncodeAll(b), EncodeAll(c));
  }

  lemma OverlayParts(all: seq<Byte>, at: nat, front: seq<Byte>, t: seq<Byte>, back: seq<Byte>)
    requires at + |t| <= |all| && all[..at] == front && all[at + |t|..] == back
    ensures Overlay(all, at, t) == front + t + back
  {
  }

  lemma MovedEncoding(s: seq<Region>, to: nat, from: nat, n: nat)
    requires to + n <= |s| && from + n <= |s|
    ensures EncodeAll(Moved(s, to, from, n)) ==
            EncodeAll(s[..to]) + EncodeAll(s[from..from + n]) + EncodeAll(s[to + n..])
  {
    hide EncodeAll;
    EncodeConcat(s[..to], s[from..from + n]);
    EncodeConcat(s[..to] + s[from..from + n], s[to + n..]);
  }

  /** Copying the bytes of `n` regions, [z, w), to offset `x` copies the regions. */
  lemma MovedBytes(s: seq<Region>, to: nat, from: nat, n: nat, x: nat, z: nat, w: nat)
    requires to + n <= |s| && from + n <= |s|
    requires x == to * REGION_SIZE && z == from * REGION_SIZE && w == (from + n) * REGION_SIZE
    ensures w <= |EncodeAll(s)| && x + (w - z) <= |EncodeAll(s)|
    ensures Overlay(EncodeAll(s), x, EncodeAll(s)[z..w]) == EncodeAll(Moved(s, to, from, n))
  {
    hide EncodeAll, Overlay, Moved;
    MovedEncoding(s, to, from, n);
    EncodeSlice(s, from, from + n, z, w);
    EncodeLength(s[from..from + n]);
    EncodeEnds(s, to, x);
    EncodeEnds(s, to + n, x + (w - z));
    PartsMoved(EncodeAll(s), x, z, w, EncodeAll(s[..to]), EncodeAll(s[from..from + n]), EncodeAll(s[to + n..]));
  }

  lemma PartsMoved(all: seq<Byte>, x: nat, z: nat, w: nat, front: seq<Byte>, t: seq<Byte>, back: seq<Byte>)
    requires z <= w <= |all| && x + |t| <= |all| && all[z..w] == t && all[..x] == front && all[x + |t|..] == back
    ensures Overlay(all, x, all[z..w]) == front + t + back
  {
    OverlayParts(all, x, front, t, back);
  }

  /** The bytes of `t` are what memmove makes of the bytes of `s`. */
  ghost predicate LeftByMemmove(s: seq<Region>, t: seq<Region>, to: nat, from: nat, n: nat) {
    var x, z, w := to * REGION_SIZE, from * REGION_SIZE, (from + n) * REGION_SIZE;
    w <= |EncodeAll(s)| && x + (w - z) <= |EncodeAll(s)| && EncodeAll(t) == Overlay(EncodeAll(s), x, EncodeAll(s)[z..w])
  }

  lemma MovedLeft(s: seq<Region>, to: nat, from: nat, n: nat)
    requires to + n <= |s| && from + n <= |s|
    ensures LeftByMemmove(s, Moved(s, to, from, n), to, from, n)
  {
    hide EncodeAll, Overlay, Moved;
    MovedBytes(s, to, from, n, to * REGION_SIZE, from * REGION_SIZE, (from + n) * REGION_SIZE);
  }

  lemma EncodeEnds(s: seq<Region>, k: nat, x: nat)
    requires k <= |s| && x == k * REGION_SIZE
    ensures x <= |EncodeAll(s)| && EncodeAll(s)[..x] == EncodeAll(s[..k]) && EncodeAll(s)[x..] == EncodeAll(s[k..])
  {
    hide EncodeAll;
    EncodeLength(s[..k]);
    assert s == s[..k] + s[k..];
    EncodeConcat(s[..k], s[k..]);
  }

  /** memmove over an array of regions, however source and destination overlap. */
  method MoveRecords(mem: array<Byte>, to: nat, from: nat, n: nat, ghost s: seq<Region>)
    requires mem[..] == EncodeAll(s) && to + n <= |s| && from + n <= |s|
    modifies mem
    ensures mem[..] == EncodeAll(Moved(s, to, from, n))
  {
    hide EncodeAll, Overlay, Moved;
    MovedBytes(s, to, from, n, to * REGION_SIZE, from * REGION_SIZE, (from + n) * REGION_SIZE);
    Memmove(mem, to * REGION_SIZE, from * REGION_SIZE, n * REGION_SIZE);
  }
}
