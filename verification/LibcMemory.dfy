/** libc/src/string: memmove, memcpy and memset with their word-at-a-time fast paths, over a
    flat 32-bit address space. A pointer is an index into `mem`. */
module LibcMemory {
  import opened Common

  // ---- What the routines should do ----

  /** The `n` bytes at `s` appear at `d`; every other byte is as it was. */
  function Moved(mem: seq<Byte>, d: nat, s: nat, n: nat): seq<Byte>
    requires d + n <= |mem| && s + n <= |mem|
  {
    seq(|mem|, (k: nat) requires k < |mem| => if d <= k < d + n then mem[s + (k - d)] else mem[k])
  }

  function Filled(mem: seq<Byte>, s: nat, c: Byte, n: nat): seq<Byte>
    requires s + n <= |mem|
  {
    seq(|mem|, (k: nat) requires k < |mem| => if s <= k < s + n then c else mem[k])
  }

  // ---- Byte-at-a-time copies, the meaning of the fast paths ----

  function CopyUp(mem: seq<Byte>, d: nat, s: nat, n: nat): (r: seq<Byte>)
    requires d + n <= |mem| && s + n <= |mem|
    ensures |r| == |mem|
    decreases n
  {
    if n == 0 then mem else CopyUp(mem[d := mem[s]], d + 1, s + 1, n - 1)
  }

  function CopyDown(mem: seq<Byte>, d: nat, s: nat, n: nat): (r: seq<Byte>)
    requires d + n <= |mem| && s + n <= |mem|
    ensures |r| == |mem|
    decreases n
  {
    if n == 0 then mem else CopyDown(mem[d + n - 1 := mem[s + n - 1]], d, s, n - 1)
  }

  lemma {:induction false} CopyUpIsMove(mem: seq<Byte>, d: nat, s: nat, n: nat)
    requires d + n <= |mem| && s + n <= |mem| && (d <= s || s + n <= d)
    ensures CopyUp(mem, d, s, n) == Moved(mem, d, s, n)
    decreases n
  {
    if n > 0 {
      CopyUpIsMove(mem[d := mem[s]], d + 1, s + 1, n - 1);
    }
  }

  lemma {:induction false} CopyDownIsMove(mem: seq<Byte>, d: nat, s: nat, n: nat)
    requires d + n <= |mem| && s + n <= |mem| && (s <= d || d + n <= s)
    ensures CopyDown(mem, d, s, n) == Moved(mem, d, s, n)
    decreases n
  {
    if n > 0 {
      CopyDownIsMove(mem[d + n - 1 := mem[s + n - 1]], d, s, n - 1);
    }
  }

  lemma {:induction false} CopyUpKeepsBelow(mem: seq<Byte>, d: nat, s: nat, n: nat, k: nat)
    requires d + n <= |mem| && s + n <= |mem| && k < d
    ensures CopyUp(mem, d, s, n)[k] == mem[k]
    decreases n
  {
    if n > 0 {
      CopyUpKeepsBelow(mem[d := mem[s]], d + 1, s + 1, n - 1, k);
    }
  }

  lemma {:induction false} CopyDownKeepsAbove(mem: seq<Byte>, d: nat, s: nat, n: nat, k: nat)
    requires d + n <= |mem| && s + n <= |mem| && d + n <= k < |mem|
    ensures CopyDown(mem, d, s, n)[k] == mem[k]
    decreases n
  {
    if n > 0 {
      CopyDownKeepsAbove(mem[d + n - 1 := mem[s + n - 1]], d, s, n - 1, k);
    }
  }

  /** The first `d - s` bytes of an upward copy still come from the source. */
  lemma {:induction false} CopyUpAt(mem: seq<Byte>, d: nat, s: nat, n: nat, j: nat)
    requires d + n <= |mem| && s + n <= |mem| && j < n && s + j < d
    ensures CopyUp(mem, d, s, n)[d + j] == mem[s + j]
    decreases n
  {
    var mem' := mem[d := mem[s]];
    if j == 0 {
      CopyUpKeepsBelow(mem', d + 1, s + 1, n - 1, d);
    } else {
      CopyUpAt(mem', d + 1, s + 1, n - 1, j - 1);
    }
  }

  lemma {:induction false} CopyDownAt(mem: seq<Byte>, d: nat, s: nat, n: nat, j: nat)
    requires d + n <= |mem| && s + n <= |mem| && j < n && d + n <= s + j
    ensures CopyDown(mem, d, s, n)[d + j] == mem[s + j]
    decreases n
  {
    var mem' := mem[d + n - 1 := mem[s + n - 1]];
    if j == n - 1 {
      CopyDownKeepsAbove(mem', d, s, n - 1, d + n - 1);
    } else {
      CopyDownAt(mem', d, s, n - 1, j);
    }
  }

  /** Upwards into the tail of the source, byte `d` is overwritten before it is read. */
  lemma CopyUpRepeats(mem: seq<Byte>, d: nat, s: nat, n: nat)
    requires d + n <= |mem| && s + n <= |mem| && s < d < s + n
    ensures CopyUp(mem, d, s, n)[d + (d - s)] == mem[s]
  {
    CopyUpAt(mem[d := mem[s]], d + 1, s + 1, n - 1, d - s - 1);
  }

  /** Downwards into the head of the source, the destination's last byte is. */
  lemma CopyDownRepeats(mem: seq<Byte>, d: nat, s: nat, n: nat)
    requires d + n <= |mem| && s + n <= |mem| && d < s < d + n
    ensures CopyDown(mem, d, s, n)[d + n - 1 - (s - d)] == mem[s + n - 1]
  {
    CopyDownAt(mem[d + n - 1 := mem[s + n - 1]], d, s, n - 1, n - 1 - (s - d));
  }

  // ---- The words in between ----

  /** A word moved in one access: all four bytes are read before any is written. */
  lemma WordUp(mem: seq<Byte>, d: nat, s: nat, n: nat)
    requires d + n <= |mem| && s + n <= |mem| && 4 <= n && (d <= s || s + 4 <= d)
    ensures CopyUp(mem, d, s, n) == CopyUp(Moved(mem, d, s, 4), d + 4, s + 4, n - 4)
  {
    var m1 := mem[d := mem[s]];
    var m2 := m1[d + 1 := m1[s + 1]];
    var m3 := m2[d + 2 := m2[s + 2]];
    var m4 := m3[d + 3 := m3[s + 3]];
    assert m4 == Moved(mem, d, s, 4);
    assert CopyUp(mem, d, s, n) == CopyUp(m1, d + 1, s + 1, n - 1) == CopyUp(m2, d + 2, s + 2, n - 2);
    assert CopyUp(m2, d + 2, s + 2, n - 2) == CopyUp(m3, d + 3, s + 3, n - 3) == CopyUp(m4, d + 4, s + 4, n - 4);
  }

  lemma WordDown(mem: seq<Byte>, d: nat, s: nat, n: nat)
    requires d + n <= |mem| && s + n <= |mem| && 4 <= n && (s <= d || d + 4 <= s)
    ensures CopyDown(mem, d, s, n) == CopyDown(Moved(mem, d + n - 4, s + n - 4, 4), d, s, n - 4)
  {
    var m1 := mem[d + n - 1 := mem[s + n - 1]];
    var m2 := m1[d + n - 2 := m1[s + n - 2]];
    var m3 := m2[d + n - 3 := m2[s + n - 3]];
    var m4 := m3[d + n - 4 := m3[s + n - 4]];
    assert m4 == Moved(mem, d + n - 4, s + n - 4, 4);
    assert CopyDown(mem, d, s, n) == CopyDown(m1, d, s, n - 1) == CopyDown(m2, d, s, n - 2);
    assert CopyDown(m2, d, s, n - 2) == CopyDown(m3, d, s, n - 3) == CopyDown(m4, d, s, n - 4);
  }

  // ---- The routines ----

  /** A word load and store. Both addresses must be word aligned. */
  method MoveWord(mem: array<Byte>, d: nat, s: nat)
    requires d % 4 == 0 && s % 4 == 0 && d + 4 <= mem.Length && s + 4 <= mem.Length
    modifies mem
    ensures mem[..] == Moved(old(mem[..]), d, s, 4)
  {
    mem[d], mem[d + 1], mem[d + 2], mem[d + 3] := mem[s], mem[s + 1], mem[s + 2], mem[s + 3];
  }

  /** `for (; len > 0; len--) *d++ = *s++;` as the head of a copy of `n` bytes. */
  method BytesUp(mem: array<Byte>, d: nat, s: nat, n: nat, len: int)
    requires 0 <= len <= n && d + n <= mem.Length && s + n <= mem.Length
    modifies mem
    ensures CopyUp(mem[..], d + len, s + len, n - len) == CopyUp(old(mem[..]), d, s, n)
  {
    var i := 0;
    while i < len
      invariant 0 <= i <= len
      invariant CopyUp(mem[..], d + i, s + i, n - i) == CopyUp(old(mem[..]), d, s, n)
    {
      ghost var before := mem[..];
      mem[d + i] := mem[s + i];
      assert mem[..] == before[d + i := before[s + i]];
      i := i + 1;
    }
  }

  method WordsUp(mem: array<Byte>, d: nat, s: nat, n: nat, len: int)
    requires d % 4 == 0 && s % 4 == 0 && (d + 4 <= s || s + 4 <= d)
    requires 0 <= 4 * len <= n && d + n <= mem.Length && s + n <= mem.Length
    modifies mem
    ensures CopyUp(mem[..], d + 4 * len, s + 4 * len, n - 4 * len) == CopyUp(old(mem[..]), d, s, n)
  {
    hide CopyUp, Moved;
    var i := 0;
    while i < len
      invariant 0 <= i <= len
      invariant CopyUp(mem[..], d + 4 * i, s + 4 * i, n - 4 * i) == CopyUp(old(mem[..]), d, s, n)
    {
      var d', s' := d + 4 * i, s + 4 * i;
      WordUp(mem[..], d', s', n - 4 * i);
      MoveWord(mem, d', s');
      i := i + 1;
    }
  }

  /** `for (; len > 0; len--) *--d = *--s;` as the head of a downward copy of `n` bytes. */
  method BytesDown(mem: array<Byte>, d: nat, s: nat, n: nat, len: int)
    requires 0 <= len <= n && d + n <= mem.Length && s + n <= mem.Length
    modifies mem
    ensures CopyDown(mem[..], d, s, n - len) == CopyDown(old(mem[..]), d, s, n)
  {
    var i := n;
    while i > n - len
      invariant n - len <= i <= n
      invariant CopyDown(mem[..], d, s, i) == CopyDown(old(mem[..]), d, s, n)
    {
      ghost var before := mem[..];
      i := i - 1;
      mem[d + i] := mem[s + i];
      assert mem[..] == before[d + i := before[s + i]];
    }
  }

  method WordsDown(mem: array<Byte>, d: nat, s: nat, n: nat, len: int)
    requires (d + n) % 4 == 0 && (s + n) % 4 == 0 && (d + 4 <= s || s + 4 <= d)
    requires 0 <= 4 * len <= n && d + n <= mem.Length && s + n <= mem.Length
    modifies mem
    ensures CopyDown(mem[..], d, s, n - 4 * len) == CopyDown(old(mem[..]), d, s, n)
  {
    hide CopyDown, Moved;
    var i := 0;
    while i < len
      invariant 0 <= i <= len
      invariant CopyDown(mem[..], d, s, n - 4 * i) == CopyDown(old(mem[..]), d, s, n)
    {
      var d', s' := d + n - 4 * i - 4, s + n - 4 * i - 4;
      WordDown(mem[..], d, s, n - 4 * i);
      MoveWord(mem, d', s');
      i := i + 1;
    }
  }

  /** A pointer or size_t seen as a signed 32-bit value. */
  function Signed(a: nat): int { if a < TWO31 then a else a - TWO32 }

  /** How many bytes really move: a byte count of 2^31 or more is negative as an int, and the
      byte loop of mutually misaligned buffers then does nothing. */
  function Count(d: nat, s: nat, n: nat): nat { if d % 4 != s % 4 && TWO31 <= n then 0 else n }

  /** What memmove leaves in memory: upwards if `dest` is below `src` as signed addresses. */
  function MemmoveResult(mem: seq<Byte>, d: nat, s: nat, n: nat): seq<Byte>
    requires d + n <= |mem| && s + n <= |mem|
  {
    if n == 0 || d == s then mem
    else if Signed(d) < Signed(s) then CopyUp(mem, d, s, Count(d, s, n))
    else CopyDown(mem, d, s, Count(d, s, n))
  }

  /** The byte moves that bring mutually aligned pointers to a word boundary, or that move
      everything when the buffers are not mutually aligned. */
  method AlignUp(mem: array<Byte>, dest: nat, src: nat, size: nat) returns (count: nat, done: nat)
    requires mem.Length == TWO32 && dest + size <= TWO32 && src + size <= TWO32 && 0 < size
    modifies mem
    ensures done + count == Count(dest, src, size)
    ensures 4 <= count ==> (dest + done) % 4 == 0 && (src + done) % 4 == 0
    ensures dest % 4 != src % 4 ==> count == 0
    ensures CopyUp(mem[..], dest + done, src + done, count) == CopyUp(old(mem[..]), dest, src, done + count)
  {
    hide CopyUp;
    count, done := size, 0;
    if dest % 4 != 0 || src % 4 != 0 {
      var len := if dest % 4 != src % 4 || count < 4 then Signed(count) else 4 - dest % 4;
      count := (count - len) % TWO32;
      if len > 0 {
        BytesUp(mem, dest, src, size, len);
        done := len;
      }
    }
  }

  /** The upward half of memmove, and the whole of memcpy. */
  method MoveUp(mem: array<Byte>, dest: nat, src: nat, size: nat)
    requires mem.Length == TWO32 && dest + size <= TWO32 && src + size <= TWO32 && dest != src && 0 < size
    modifies mem
    ensures mem[..] == CopyUp(old(mem[..]), dest, src, Count(dest, src, size))
  {
    hide CopyUp;
    var count, done := AlignUp(mem, dest, src, size);
    var d, s := dest + done, src + done;
    var words, rest := count / 4, count % 4;
    if words > 0 {
      WordsUp(mem, d, s, count, words);
      d, s := d + 4 * words, s + 4 * words;
    }
    BytesUp(mem, d, s, rest, rest);
    CopyNothing(mem[..], d + rest, s + rest);
  }

  lemma CopyNothing(mem: seq<Byte>, d: nat, s: nat)
    requires d <= |mem| && s <= |mem|
    ensures CopyUp(mem, d, s, 0) == mem && CopyDown(mem, d, s, 0) == mem
  {
  }

  /** Mutual alignment does not depend on which end is looked at. */
  lemma SameOffset(d: nat, s: nat, n: nat)
    ensures (d + n) % 4 == (s + n) % 4 <==> d % 4 == s % 4
  {
  }

  method AlignDown(mem: array<Byte>, dest: nat, src: nat, size: nat) returns (count: nat)
    requires mem.Length == TWO32 && dest + size <= TWO32 && src + size <= TWO32 && 0 < size
    modifies mem
    ensures count <= Count(dest, src, size)
    ensures 4 <= count ==> (dest + count) % 4 == 0 && (src + count) % 4 == 0
    ensures dest % 4 != src % 4 ==> count == 0
    ensures CopyDown(mem[..], dest, src, count) == CopyDown(old(mem[..]), dest, src, Count(dest, src, size))
  {
    hide CopyDown;
    SameOffset(dest, src, size);
    count := size;
    if (dest + count) % 4 != 0 || (src + count) % 4 != 0 {
      var len := if (dest + count) % 4 != (src + count) % 4 || count <= 4 then Signed(count) else (dest + count) % 4;
      if len > 0 {
        BytesDown(mem, dest, src, count, len);
      }
      count := (count - len) % TWO32;
    }
  }

  /** The downward half of memmove. */
  method MoveDown(mem: array<Byte>, dest: nat, src: nat, size: nat)
    requires mem.Length == TWO32 && dest + size <= TWO32 && src + size <= TWO32 && dest != src && 0 < size
    modifies mem
    ensures mem[..] == CopyDown(old(mem[..]), dest, src, Count(dest, src, size))
  {
    hide CopyDown;
    var count := AlignDown(mem, dest, src, size);
    var words, rest := count / 4, count % 4;
    if words > 0 {
      WordsDown(mem, dest, src, count, words);
    }
    BytesDown(mem, dest, src, rest, rest);
    CopyNothing(mem[..], dest, src);
  }

  method Memmove(mem: array<Byte>, dest: nat, src: nat, size: nat)
    requires mem.Length == TWO32 && dest + size <= TWO32 && src + size <= TWO32
    modifies mem
    ensures mem[..] == MemmoveResult(old(mem[..]), dest, src, size)
  {
    if size == 0 || dest == src {
      return;
    }
    if Signed(dest) < Signed(src) {
      MoveUp(mem, dest, src, size);
    } else {
      MoveDown(mem, dest, src, size);
    }
  }

  /** memcpy: always upwards. */
  method Memcpy(mem: array<Byte>, dest: nat, src: nat, size: nat)
    requires mem.Length == TWO32 && dest + size <= TWO32 && src + size <= TWO32
    modifies mem
    ensures mem[..] == if dest == src then old(mem[..]) else CopyUp(old(mem[..]), dest, src, Count(dest, src, size))
  {
    if size == 0 || dest == src {
      return;
    }
    MoveUp(mem, dest, src, size);
  }

  // ---- When they keep their promise ----

  /** The buffers overlap in the direction that the routine cannot handle. For memmove this
      means that exactly one of the two pointers is at or above 0x80000000. */
  predicate Spoils(up: bool, d: nat, s: nat, n: nat) {
    if up then s < d < s + n else d < s < d + n
  }

  predicate MemmoveGoesUp(d: nat, s: nat) { Signed(d) < Signed(s) }

  lemma SpoilsOnlyAcrossTheMiddle(d: nat, s: nat, n: nat)
    requires d + n <= TWO32 && s + n <= TWO32
    ensures Spoils(MemmoveGoesUp(d, s), d, s, n) <==>
            (d < s + n && s < d + n && d != s && (d < TWO31) != (s < TWO31))
  {
  }

  function Result(up: bool, mem: seq<Byte>, d: nat, s: nat, n: nat): seq<Byte>
    requires d + n <= |mem| && s + n <= |mem|
  {
    if d == s then mem
    else if up then CopyUp(mem, d, s, Count(d, s, n)) else CopyDown(mem, d, s, Count(d, s, n))
  }

  /** A memory in which the copy goes wrong, when it can: all zero but for one byte. */
  function Witness(up: bool, d: nat, s: nat, n: nat): seq<Byte>
    requires 0 < n && d + n <= TWO32 && s + n <= TWO32
  {
    var a := if Count(d, s, n) == 0 || up then s else s + n - 1;
    seq(TWO32, k => if k == a then 1 else 0)
  }

  lemma WitnessGoesWrong(up: bool, d: nat, s: nat, n: nat)
    requires 0 < n && d + n <= TWO32 && s + n <= TWO32 && d != s
    requires Count(d, s, n) == 0 || Spoils(up, d, s, n)
    ensures Result(up, Witness(up, d, s, n), d, s, n) != Moved(Witness(up, d, s, n), d, s, n)
  {
    var mem := Witness(up, d, s, n);
    if Count(d, s, n) == 0 {
      assert Moved(mem, d, s, n)[d] == mem[s] != mem[d];
    } else if up {
      CopyUpRepeats(mem, d, s, n);
      assert Moved(mem, d, s, n)[d + (d - s)] == mem[s + (d - s)];
    } else {
      CopyDownRepeats(mem, d, s, n);
      assert Moved(mem, d, s, n)[d + n - 1 - (s - d)] == mem[s + n - 1 - (s - d)];
    }
  }

  /** For every pair of buffers: the copy is right for all contents exactly when the size fits
      the byte loops and the overlap, if any, is in the direction handled. */
  lemma RightForAllContentsIff(up: bool, d: nat, s: nat, n: nat)
    requires d + n <= TWO32 && s + n <= TWO32
    ensures (forall mem: seq<Byte> | |mem| == TWO32 :: Result(up, mem, d, s, n) == Moved(mem, d, s, n))
            <==> (n == 0 || d == s || (Count(d, s, n) == n && !Spoils(up, d, s, n)))
  {
    if n == 0 || d == s || (Count(d, s, n) == n && !Spoils(up, d, s, n)) {
      forall mem: seq<Byte> | |mem| == TWO32
        ensures Result(up, mem, d, s, n) == Moved(mem, d, s, n)
      {
        if d == s {
        } else if up {
          CopyUpIsMove(mem, d, s, n);
        } else {
          CopyDownIsMove(mem, d, s, n);
        }
      }
    } else {
      WitnessGoesWrong(up, d, s, n);
    }
  }

  /** memmove on any two buffers below 2^31 bytes that do not overlap across the middle of the
      address space, whatever their alignment. */
  lemma MemmoveMoves(mem: seq<Byte>, d: nat, s: nat, n: nat)
    requires |mem| == TWO32 && d + n <= TWO32 && s + n <= TWO32 && n < TWO31
    requires d < s + n && s < d + n ==> (d < TWO31) == (s < TWO31)
    ensures MemmoveResult(mem, d, s, n) == Moved(mem, d, s, n)
  {
    SpoilsOnlyAcrossTheMiddle(d, s, n);
    RightForAllContentsIff(MemmoveGoesUp(d, s), d, s, n);
    assert MemmoveResult(mem, d, s, n) == Result(MemmoveGoesUp(d, s), mem, d, s, n);
  }

  // ---- memset ----

  method StoreWord(mem: array<Byte>, a: nat, w: nat)
    requires a % 4 == 0 && a + 4 <= mem.Length && w < TWO32
    modifies mem
    ensures mem[..] ==
            old(mem[..])[a := w % 256][a + 1 := w / 0x100 % 256][a + 2 := w / 0x1_0000 % 256][a + 3 := w / 0x100_0000]
  {
    mem[a], mem[a + 1], mem[a + 2], mem[a + 3] := w % 256, w / 0x100 % 256, w / 0x1_0000 % 256, w / 0x100_0000;
  }

  lemma Splat(c: Byte)
    ensures var w := c * 0x101 * 0x1_0001;
            w < TWO32 && w % 256 == c && w / 0x100 % 256 == c && w / 0x1_0000 % 256 == c && w / 0x100_0000 == c
  {
    var w := c * 0x101 * 0x1_0001;
    Div256(c * 0x1_0101, c);
    Div256(c * 0x101, c);
    Div256(c, c);
    assert w == 256 * (c * 0x1_0101) + c;
    assert w / 0x100 == c * 0x1_0101;
    assert w / 0x1_0000 == w / 0x100 / 0x100 == c * 0x101;
    assert w / 0x100_0000 == w / 0x1_0000 / 0x100 == c;
  }

  lemma Div256(a: nat, c: Byte)
    ensures (256 * a + c) / 256 == a && (256 * a + c) % 256 == c
  {
  }

  lemma FilledNext(mem: seq<Byte>, s: nat, c: Byte, n: nat)
    requires s + n < |mem|
    ensures Filled(mem, s, c, n)[s + n := c] == Filled(mem, s, c, n + 1)
  {
  }

  /** `for (; len > 0; len--) *xs++ = c;` */
  method FillBytes(mem: array<Byte>, s: nat, c: int, done: nat, len: nat, ghost before: seq<Byte>)
    requires |before| == mem.Length && s + done + len <= mem.Length && mem[..] == Filled(before, s, c % 256, done)
    modifies mem
    ensures mem[..] == Filled(before, s, c % 256, done + len)
  {
    hide Filled;
    var i := 0;
    while i < len
      invariant 0 <= i <= len && mem[..] == Filled(before, s, c % 256, done + i)
    {
      FilledNext(before, s, c % 256, done + i);
      ghost var now := mem[..];
      var byte: Byte := c % 256;
      mem[s + done + i] := byte;
      assert mem[..] == now[s + (done + i) := byte];
      i := i + 1;
    }
  }

  /** The word loop: every store is aligned, and each stores four copies of the byte. */
  method FillWords(mem: array<Byte>, s: nat, c: Byte, cc: nat, done: nat, len: nat, ghost before: seq<Byte>)
    requires cc == c * 0x101 * 0x1_0001 && (s + done) % 4 == 0
    requires |before| == mem.Length && s + done + 4 * len <= mem.Length && mem[..] == Filled(before, s, c, done)
    modifies mem
    ensures mem[..] == Filled(before, s, c, done + 4 * len)
  {
    Splat(c);
    hide Filled;
    var i := 0;
    while i < len
      invariant 0 <= i <= len && mem[..] == Filled(before, s, c, done + 4 * i)
    {
      var k := done + 4 * i;
      FilledNext(before, s, c, k);
      FilledNext(before, s, c, k + 1);
      FilledNext(before, s, c, k + 2);
      FilledNext(before, s, c, k + 3);
      StoreWord(mem, s + k, cc);
      i := i + 1;
    }
  }

  /** memset fills exactly the range with the low byte of `c`. */
  method Memset(mem: array<Byte>, s: nat, c: int, size: nat)
    requires mem.Length == TWO32 && s + size <= TWO32
    modifies mem
    ensures mem[..] == Filled(old(mem[..]), s, c % 256, size)
  {
    assert mem[..] == Filled(mem[..], s, c % 256, 0);
    hide Filled;
    var count, done := size, 0;
    var len := (TWO32 - s) % 4;
    var cc := c % 256;
    if count > len {
      count := count - len;
      cc := cc * 0x101;     // cc |= cc << 8
      cc := cc * 0x1_0001;  // cc |= cc << 16
      FillBytes(mem, s, c, 0, len, old(mem[..]));
      FillWords(mem, s, c % 256, cc, len, count / 4, old(mem[..]));
      done := len + count / 4 * 4;
      count := count % 4;
    }
    FillBytes(mem, s, c, done, count, old(mem[..]));
  }
}
