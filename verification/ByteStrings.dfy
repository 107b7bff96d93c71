/** The memory primitives (lib/string.c): memset, memcpy and memmove move eight bytes at a time.

A memory is an array of bytes; pointers are indices into it. A word access reads or writes
eight consecutive bytes, least significant first.
*/
module Words {
  import opened PowersOfTwo

  type Byte = x: int | 0 <= x < 256

  const WORD_SIZE: nat := 8

  function Pow256(n: nat): (r: nat)
    ensures r > 0
  {
    if n == 0 then 1 else 256 * Pow256(n - 1)
  }

  /** The low `n` bytes of `v`, least significant first. */
  function ToBytes(v: nat, n: nat): (r: seq<Byte>)
    ensures |r| == n
    decreases n
  {
    if n == 0 then [] else [v % 256] + ToBytes(v / 256, n - 1)
  }

  function FromBytes(s: seq<Byte>): nat {
    if s == [] then 0 else s[0] + 256 * FromBytes(s[1..])
  }

  lemma {:induction false} BytesRoundTrip(v: nat, n: nat)
    requires v < Pow256(n)
    ensures FromBytes(ToBytes(v, n)) == v
    decreases n
  {
    if n > 0 {
      BytesRoundTrip(v / 256, n - 1);
      assert ToBytes(v, n)[1..] == ToBytes(v / 256, n - 1);
    }
  }

  lemma {:induction false} WordRoundTrip(s: seq<Byte>)
    ensures FromBytes(s) < Pow256(|s|) && ToBytes(FromBytes(s), |s|) == s
  {
    if s != [] {
      WordRoundTrip(s[1..]);
      DivModUnique(FromBytes(s), 256, FromBytes(s[1..]), s[0]);
      assert s == [s[0]] + s[1..];
    }
  }

  lemma WordRange()
    ensures Pow256(WORD_SIZE) == 0x1_0000_0000_0000_0000
  {
    assert Pow256(4) == 0x1_0000_0000;
    assert Pow256(8) == 256 * 256 * 256 * 256 * Pow256(4);
  }

  /** `s` with the bytes of `t` at offset `a`. */
  function Overlay(s: seq<Byte>, a: nat, t: seq<Byte>): (r: seq<Byte>)
    requires a + |t| <= |s|
    ensures |r| == |s|
  {
    s[..a] + t + s[a + |t|..]
  }

  /** An overlay changes exactly its range. */
  lemma OverlayAt(s: seq<Byte>, a: nat, t: seq<Byte>, i: nat)
    requires a + |t| <= |s| && i < |s|
    ensures Overlay(s, a, t)[i] == if a <= i < a + |t| then t[i - a] else s[i]
  {
  }

  /** A slice clear of the overlaid range is unchanged; the range itself holds the new bytes. */
  lemma OverlaySlice(s: seq<Byte>, a: nat, t: seq<Byte>, lo: nat, hi: nat)
    requires a + |t| <= |s| && lo <= hi <= |s|
    ensures hi <= a || a + |t| <= lo ==> Overlay(s, a, t)[lo..hi] == s[lo..hi]
    ensures lo == a && hi == a + |t| ==> Overlay(s, a, t)[lo..hi] == t
  {
    var r := Overlay(s, a, t);
    forall i | lo <= i < hi
      ensures r[lo..hi][i - lo] == if a <= i < a + |t| then t[i - a] else s[i]
    {
      OverlayAt(s, a, t, i);
    }
    hide Overlay;
    if hi <= a || a + |t| <= lo {
      assert forall j :: 0 <= j < hi - lo ==> r[lo..hi][j] == s[lo..hi][j];
    }
    if lo == a && hi == a + |t| {
      assert forall j :: 0 <= j < hi - lo ==> r[lo..hi][j] == t[j];
    }
  }

  /** An overlay within a slice is an overlay of the slice. */
  lemma OverlayWithin(s: seq<Byte>, lo: nat, hi: nat, off: nat, t: seq<Byte>)
    requires lo + off + |t| <= hi <= |s|
    ensures Overlay(s, lo + off, t)[lo..hi] == Overlay(s[lo..hi], off, t)
  {
    var r, q := Overlay(s, lo + off, t), Overlay(s[lo..hi], off, t);
    hide Overlay;
    forall i | 0 <= i < hi - lo
      ensures r[lo..hi][i] == q[i]
    {
      OverlayAt(s, lo + off, t, lo + i);
      OverlayAt(s[lo..hi], off, t, i);
      assert r[lo..hi][i] == r[lo + i] && s[lo..hi][i] == s[lo + i] && lo + i - (lo + off) == i - off;
    }
  }

  /** The word at offset `a`. */
  function WordAt(s: seq<Byte>, a: nat): nat
    requires a + WORD_SIZE <= |s|
  {
    FromBytes(s[a..a + WORD_SIZE])
  }
}

module ByteStrings {
  import opened PowersOfTwo
  import opened Words

  method LoadWord(mem: array<Byte>, a: nat) returns (w: nat)
    requires a + WORD_SIZE <= mem.Length
    ensures w == WordAt(mem[..], a)
    ensures ToBytes(w, WORD_SIZE) == mem[a..a + WORD_SIZE]
  {
    w := FromBytes(mem[a..a + WORD_SIZE]);
    WordRoundTrip(mem[a..a + WORD_SIZE]);
    assert mem[..][a..a + WORD_SIZE] == mem[a..a + WORD_SIZE];
  }

  /** Consecutive bytes stored at once. */
  method StoreBytes(mem: array<Byte>, a: nat, bytes: seq<Byte>)
    requires a + |bytes| <= mem.Length
    modifies mem
    ensures mem[..] == Overlay(old(mem[..]), a, bytes)
  {
    forall i | 0 <= i < |bytes| {
      mem[a + i] := bytes[i];
    }
  }

  method StoreWord(mem: array<Byte>, a: nat, w: nat)
    requires a + WORD_SIZE <= mem.Length
    modifies mem
    ensures mem[..] == Overlay(old(mem[..]), a, ToBytes(w, WORD_SIZE))
  {
    hide *;
    StoreBytes(mem, a, ToBytes(w, WORD_SIZE));
  }

  /** The multiplication by 0x01...01 repeats a byte in every position. */
  lemma PatternBytes(b: Byte)
    ensures ToBytes(b * 0x0101_0101_0101_0101, WORD_SIZE) == seq(WORD_SIZE, _ => b)
  {
    RepeatedByte(b, 8);
    assert Repeated(b, 1) == b && Repeated(b, 2) == b * 0x0101 && Repeated(b, 3) == b * 0x01_0101;
    assert Repeated(b, 4) == b * 0x0101_0101 && Repeated(b, 5) == b * 0x01_0101_0101;
    assert Repeated(b, 6) == b * 0x0101_0101_0101 && Repeated(b, 7) == b * 0x01_0101_0101_0101;
  }

  /** The number whose `n` low bytes are all `b`. */
  function Repeated(b: Byte, n: nat): nat {
    if n == 0 then 0 else b + 256 * Repeated(b, n - 1)
  }

  lemma {:induction false} RepeatedByte(b: Byte, n: nat)
    ensures ToBytes(Repeated(b, n), n) == seq(n, _ => b)
  {
    if n > 0 {
      RepeatedByte(b, n - 1);
      DivModUnique(Repeated(b, n), 256, Repeated(b, n - 1), b);
      assert seq(n, _ => b) == [b] + seq(n - 1, _ => b);
    }
  }

  /** `was` with `done` bytes from `destination` on set to `byte`. */
  ghost predicate Filled(was: seq<Byte>, now: seq<Byte>, destination: nat, done: nat, byte: Byte) {
    destination + done <= |was| && now == Overlay(was, destination, seq(done, _ => byte))
  }

  lemma FillStep(was: seq<Byte>, now: seq<Byte>, destination: nat, done: nat, byte: Byte, n: nat)
    requires Filled(was, now, destination, done, byte) && destination + done + n <= |was|
    ensures Filled(was, Overlay(now, destination + done, seq(n, _ => byte)), destination, done + n, byte)
  {
  }

  /** memset: exactly the range is filled with the low byte of `value`. */
  method Memset(mem: array<Byte>, destination: nat, value: int, size': nat)
    requires destination + size' <= mem.Length
    modifies mem
    ensures mem[..] == Overlay(old(mem[..]), destination, seq(size', _ => value % 256))
  {
    hide Filled, Overlay;
    var output: nat, size: nat := destination, size';
    var byte: Byte := value % 256;
    var pattern := byte * 0x0101_0101_0101_0101;
    FillStart(mem[..], destination, byte);
    while size >= WORD_SIZE
      invariant output == destination + (size' - size) && size <= size'
      invariant Filled(old(mem[..]), mem[..], destination, size' - size, byte)
    {
      FillWord(mem, output, byte, pattern, old(mem[..]), destination);
      output := output + WORD_SIZE;
      size := size - WORD_SIZE;
    }
    while size > 0
      invariant output == destination + (size' - size) && size <= size'
      invariant Filled(old(mem[..]), mem[..], destination, size' - size, byte)
    {
      size := size - 1;
      FillByte(mem, output, byte, old(mem[..]), destination);
      output := output + 1;
    }
    FillDone(old(mem[..]), mem[..], destination, size', byte);
  }

  lemma FillStart(was: seq<Byte>, destination: nat, byte: Byte)
    requires destination <= |was|
    ensures Filled(was, was, destination, 0, byte)
  {
  }

  lemma FillDone(was: seq<Byte>, now: seq<Byte>, destination: nat, size: nat, byte: Byte)
    requires Filled(was, now, destination, size, byte)
    ensures now == Overlay(was, destination, seq(size, _ => byte))
  {
  }

  method FillWord(mem: array<Byte>, output: nat, byte: Byte, pattern: nat, ghost was: seq<Byte>, ghost destination: nat)
    requires destination <= output && output + WORD_SIZE <= mem.Length
    requires pattern == byte * 0x0101_0101_0101_0101
    requires Filled(was, mem[..], destination, output - destination, byte)
    modifies mem
    ensures Filled(was, mem[..], destination, output - destination + WORD_SIZE, byte)
  {
    PatternBytes(byte);
    FillStep(was, mem[..], destination, output - destination, byte, WORD_SIZE);
    hide *;
    StoreWord(mem, output, pattern);
  }

  method FillByte(mem: array<Byte>, output: nat, byte: Byte, ghost was: seq<Byte>, ghost destination: nat)
    requires destination <= output < mem.Length
    requires Filled(was, mem[..], destination, output - destination, byte)
    modifies mem
    ensures Filled(was, mem[..], destination, output - destination + 1, byte)
  {
    FillStep(was, mem[..], destination, output - destination, byte, 1);
    assert [byte] == seq(1, _ => byte);
    hide *;
    StoreBytes(mem, output, [byte]);
  }

  /** The first `done` bytes have been copied, the rest is as before. */
  ghost predicate CopiedUp(was: seq<Byte>, now: seq<Byte>, destination: nat, source: nat, done: nat) {
    && destination + done <= |was| && source + done <= |was|
    && now == Overlay(was, destination, was[source..source + done])
  }

  /** The last `done` of `size` bytes have been copied, the rest is as before. */
  ghost predicate CopiedDown(was: seq<Byte>, now: seq<Byte>, destination: nat, source: nat, size: nat, done: nat) {
    && destination + size <= |was| && source + size <= |was| && done <= size
    && now == Overlay(was, destination + size - done, was[source + size - done..source + size])
  }

  /** Copying the next `n` bytes at once continues an ascending copy whose source is still intact. */
  lemma CopyUpStep(was: seq<Byte>, now: seq<Byte>, destination: nat, source: nat, done: nat, n: nat)
    requires CopiedUp(was, now, destination, source, done)
    requires destination + done + n <= |was| && source + done + n <= |was|
    requires destination <= source || source + done + n <= destination
    ensures CopiedUp(was, Overlay(now, destination + done, now[source + done..source + done + n]),
                     destination, source, done + n)
  {
    assert now[source + done..source + done + n] == was[source + done..source + done + n];
    assert was[source..source + done + n] == was[source..source + done] + was[source + done..source + done + n];
  }

  /** Copying the previous `n` bytes at once continues a descending copy whose source is still intact. */
  lemma CopyDownStep(was: seq<Byte>, now: seq<Byte>, destination: nat, source: nat, size: nat, done: nat, n: nat)
    requires CopiedDown(was, now, destination, source, size, done) && done + n <= size && source <= destination
    ensures CopiedDown(was, Overlay(now, destination + size - done - n,
                                    now[source + size - done - n..source + size - done]),
                       destination, source, size, done + n)
  {
    var lo, hi := source + size - done - n, source + size - done;
    assert now[lo..hi] == was[lo..hi];
    assert was[lo..source + size] == was[lo..hi] + was[hi..source + size];
  }

  lemma CopyStart(was: seq<Byte>, destination: nat, source: nat, size: nat)
    requires destination + size <= |was| && source + size <= |was|
    ensures CopiedUp(was, was, destination, source, 0)
    ensures CopiedDown(was, was, destination, source, size, 0)
  {
  }

  lemma CopyDone(was: seq<Byte>, now: seq<Byte>, destination: nat, source: nat, size: nat)
    requires CopiedUp(was, now, destination, source, size) || CopiedDown(was, now, destination, source, size, size)
    ensures destination + size <= |was| && source + size <= |was|
    ensures now == Overlay(was, destination, was[source..source + size])
  {
  }

  lemma NothingMoved(was: seq<Byte>, destination: nat, source: nat, size: nat)
    requires destination + size <= |was| && source + size <= |was| && (destination == source || size == 0)
    ensures was == Overlay(was, destination, was[source..source + size])
  {
  }

  /** Move `n` bytes, a word or a single byte, loaded before they are stored. */
  method CopyChunk(mem: array<Byte>, output: nat, input: nat, n: nat)
    requires n == WORD_SIZE || n == 1
    requires output + n <= mem.Length && input + n <= mem.Length
    modifies mem
    ensures mem[..] == Overlay(old(mem[..]), output, old(mem[..])[input..input + n])
  {
    assert mem[..][input..input + n] == mem[input..input + n];
    if n == WORD_SIZE {
      var word := LoadWord(mem, input);
      StoreWord(mem, output, word);
    } else {
      assert mem[input..input + 1] == [mem[input]];
      StoreBytes(mem, output, [mem[input]]);
    }
  }

  method CopyUp(mem: array<Byte>, output: nat, input: nat, n: nat,
                ghost was: seq<Byte>, ghost destination: nat, ghost source: nat)
    requires n == WORD_SIZE || n == 1
    requires output + n <= mem.Length && input + n <= mem.Length
    requires destination <= output && input - source == output - destination
    requires CopiedUp(was, mem[..], destination, source, output - destination)
    requires destination <= source || input + n <= destination
    modifies mem
    ensures CopiedUp(was, mem[..], destination, source, output - destination + n)
  {
    hide Overlay;
    CopyUpStep(was, mem[..], destination, source, output - destination, n);
    assert source + (output - destination) == input && destination + (output - destination) == output;
    CopyChunk(mem, output, input, n);
  }

  method CopyDown(mem: array<Byte>, output: nat, input: nat, n: nat, ghost was: seq<Byte>,
                  ghost destination: nat, ghost source: nat, ghost size: nat)
    requires n == WORD_SIZE || n == 1
    requires destination <= output && output + n <= destination + size && destination + size <= mem.Length
    requires input - source == output - destination && source < destination
    requires CopiedDown(was, mem[..], destination, source, size, destination + size - (output + n))
    modifies mem
    ensures CopiedDown(was, mem[..], destination, source, size, destination + size - output)
  {
    hide Overlay;
    ghost var done := destination + size - (output + n);
    CopyDownStep(was, mem[..], destination, source, size, done, n);
    assert destination + size - done - n == output && source + size - done - n == input && source + size - done == input + n;
    CopyChunk(mem, output, input, n);
  }

  /** memcpy, for any ranges an ascending copy handles: disjoint, or the destination first. */
  method Memcpy(mem: array<Byte>, destination: nat, source: nat, size': nat)
    requires destination + size' <= mem.Length && source + size' <= mem.Length
    requires destination <= source || source + size' <= destination
    modifies mem
    ensures mem[..] == Overlay(old(mem[..]), destination, old(mem[..])[source..source + size'])
  {
    hide CopiedUp, CopiedDown, Overlay;
    var output: nat, input: nat, size: nat := destination, source, size';
    CopyStart(mem[..], destination, source, size');
    while size >= WORD_SIZE
      invariant output == destination + (size' - size) && input == source + (size' - size) && size <= size'
      invariant CopiedUp(old(mem[..]), mem[..], destination, source, size' - size)
    {
      CopyUp(mem, output, input, WORD_SIZE, old(mem[..]), destination, source);
      output := output + WORD_SIZE;
      input := input + WORD_SIZE;
      size := size - WORD_SIZE;
    }
    while size > 0
      invariant output == destination + (size' - size) && input == source + (size' - size) && size <= size'
      invariant CopiedUp(old(mem[..]), mem[..], destination, source, size' - size)
    {
      size := size - 1;
      CopyUp(mem, output, input, 1, old(mem[..]), destination, source);
      output := output + 1;
      input := input + 1;
    }
    CopyDone(old(mem[..]), mem[..], destination, source, size');
  }

  /** memmove: the destination receives the original source bytes, however the ranges overlap. */
  method Memmove(mem: array<Byte>, destination: nat, source: nat, size': nat)
    requires destination + size' <= mem.Length && source + size' <= mem.Length
    modifies mem
    ensures mem[..] == Overlay(old(mem[..]), destination, old(mem[..])[source..source + size'])
  {
    hide CopiedUp, CopiedDown, Overlay;
    if destination == source || size' == 0 {
      NothingMoved(mem[..], destination, source, size');
      return;
    }
    if destination < source || destination >= source + size' {
      Memcpy(mem, destination, source, size');
      return;
    }
    var output: nat, input: nat, size: nat := destination + size', source + size', size';
    CopyStart(mem[..], destination, source, size');
    while size >= WORD_SIZE
      invariant output == destination + size && input == source + size && size <= size'
      invariant CopiedDown(old(mem[..]), mem[..], destination, source, size', size' - size)
    {
      output := output - WORD_SIZE;
      input := input - WORD_SIZE;
      CopyDown(mem, output, input, WORD_SIZE, old(mem[..]), destination, source, size');
      size := size - WORD_SIZE;
    }
    while size > 0
      invariant output == destination + size && input == source + size && size <= size'
      invariant CopiedDown(old(mem[..]), mem[..], destination, source, size', size' - size)
    {
      size := size - 1;
      output := output - 1;
      input := input - 1;
      CopyDown(mem, output, input, 1, old(mem[..]), destination, source, size');
    }
    CopyDone(old(mem[..]), mem[..], destination, source, size');
  }
}
