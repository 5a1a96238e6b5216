/** The Internet checksum of net/ipv6.c: little-endian words added up in 32 bits, folded, and
    complemented, so that a receiver adding big-endian words finds 0xFFFF. */
module Checksum {
  import opened Common
  import Arith

  const ONES := 0xFFFF

  /** The 16-bit words of `b`, read little-endian; a last odd byte counts as a word with a zero
      byte after it. */
  function LeSum(b: seq<Byte>): (s: nat)
    ensures s <= ONES * ((|b| + 1) / 2)
  {
    if |b| == 0 then 0 else if |b| == 1 then b[0] else b[0] + 256 * b[1] + LeSum(b[2..])
  }

  /** The same words in network order, as RFC 1071 adds them. */
  function BeSum(b: seq<Byte>): nat {
    if |b| == 0 then 0 else if |b| == 1 then 256 * b[0] else 256 * b[0] + b[1] + BeSum(b[2..])
  }

  /** The one's-complement sum: the carries added back in until 16 bits are left. */
  function Fold(s: nat): nat { if s == 0 then 0 else (s - 1) % ONES + 1 }

  predicate IsEven(n: nat) { n % 2 == 0 }

  lemma {:induction false} LeSumAppend(a: seq<Byte>, b: seq<Byte>)
    requires IsEven(|a|)
    ensures LeSum(a + b) == LeSum(a) + LeSum(b)
  {
    if a == [] {
      assert a + b == b;
    } else {
      LeSumAppend(a[2..], b);
      assert (a + b)[2..] == a[2..] + b;
    }
  }

  // ---- Folding ----

  lemma FoldStep(s: nat)
    requires s > ONES
    ensures 0 < s % 0x10000 + s / 0x10000 < s && Fold(s % 0x10000 + s / 0x10000) == Fold(s)
  {
    var q, r := s / 0x10000, s % 0x10000;
    ModShift(q + r - 1, q);
  }

  lemma ModShift(a: nat, q: nat)
    ensures (a + ONES * q) % ONES == a % ONES
  {
    var d := a / ONES;
    assert a + ONES * q == ONES * (d + q) + a % ONES;
  }

  /** A sum folded early can be carried on with. */
  lemma FoldTwice(a: nat, b: nat)
    ensures Fold(Fold(a) + b) == Fold(a + b)
  {
    if a > 0 {
      ModShift((a - 1) % ONES + b, (a - 1) / ONES);
    }
  }

  lemma FoldRange(s: nat)
    ensures Fold(s) <= ONES
    ensures s <= ONES ==> Fold(s) == s
    ensures Fold(s) == ONES <==> s > 0 && s % ONES == 0
  {
    if s > 0 {
      var q, r := (s - 1) / ONES, (s - 1) % ONES;
      assert s == ONES * q + (r + 1);
      if r + 1 == ONES {
        assert s == ONES * (q + 1);
      }
    }
  }

  // ---- Byte order ----

  /** The bytes at odd positions. */
  function OddBytes(b: seq<Byte>): nat { if |b| < 2 then 0 else b[1] + OddBytes(b[2..]) }

  /** A sum in one byte order is 256 times the sum in the other, modulo 0xFFFF. */
  lemma {:induction false} SwappedSum(b: seq<Byte>)
    ensures 256 * LeSum(b) == BeSum(b) + ONES * OddBytes(b)
    ensures LeSum(b) == 0 <==> BeSum(b) == 0
  {
    if |b| >= 2 {
      SwappedSum(b[2..]);
    }
  }

  /** A receiver may add in either byte order: it finds 0xFFFF in both or in neither. */
  lemma ByteOrderIndependent(b: seq<Byte>)
    ensures Fold(LeSum(b)) == ONES <==> Fold(BeSum(b)) == ONES
  {
    var l, e, o := LeSum(b), BeSum(b), OddBytes(b);
    SwappedSum(b);
    FoldRange(l);
    FoldRange(e);
    ModShift(e, o);
    if l % ONES == 0 {
      ModShift(0, 256 * (l / ONES));
      assert 256 * l == ONES * (256 * (l / ONES));
    }
    if e % ONES == 0 {
      MultipleOf(l);
    }
  }

  /** 256 is invertible modulo 0xFFFF. */
  lemma MultipleOf(l: nat)
    requires (256 * l) % ONES == 0
    ensures l % ONES == 0
  {
    var k := 256 * l / ONES;
    assert 256 * l == ONES * k;
    assert l == 65536 * l - ONES * l == ONES * (256 * k - l);
    var m := 256 * k - l;
    assert l == ONES * m;
    ModShift(0, m);
  }

  // ---- The checksum field ----

  /** What checksum_ip6 returns, 32 bits wide, for a folded sum. */
  function Complement(s: nat): nat
    requires s <= ONES
  {
    if s == ONES then s else TWO32 - 1 - s
  }

  function Low16(v: nat): nat { v % 0x10000 }

  /** A 16-bit store, which keeps the low half. */
  function Store16(b: seq<Byte>, off: nat, v: nat): (r: seq<Byte>)
    requires off + 2 <= |b|
    ensures |r| == |b|
  {
    b[..off] + [v % 256, v / 256 % 256] + b[off + 2..]
  }

  lemma TwoBytes(x: Byte, y: Byte, tail: seq<Byte>)
    ensures LeSum([x, y] + tail) == x + 256 * y + LeSum(tail)
  {
    assert ([x, y] + tail)[2..] == tail;
  }

  lemma Cut(b: seq<Byte>, off: nat)
    requires off + 2 <= |b|
    ensures b == b[..off] + ([b[off], b[off + 1]] + b[off + 2..])
  {
  }

  lemma ReplaceWord(b: seq<Byte>, off: nat, x: Byte, y: Byte)
    requires IsEven(off) && off + 2 <= |b| && b[off] == 0 && b[off + 1] == 0
    ensures LeSum(b[..off] + [x, y] + b[off + 2..]) == LeSum(b) + (x + 256 * y)
  {
    hide LeSum, IsEven;
    var head, tail := b[..off], b[off + 2..];
    assert |head| == off;
    Cut(b, off);
    assert head + [x, y] + tail == head + ([x, y] + tail);
    LeSumAppend(head, [0, 0] + tail);
    LeSumAppend(head, [x, y] + tail);
    TwoBytes(0, 0, tail);
    TwoBytes(x, y, tail);
  }

  lemma StoredSum(b: seq<Byte>, off: nat, v: nat)
    requires IsEven(off) && off + 2 <= |b| && b[off] == 0 && b[off + 1] == 0
    ensures LeSum(Store16(b, off, v)) == LeSum(b) + Low16(v)
  {
    hide LeSum, IsEven, Low16;
    LowHalf(v);
    ReplaceWord(b, off, v % 256, v / 256 % 256);
  }

  lemma LowHalf(v: nat)
    ensures v % 256 + 256 * (v / 256 % 256) == Low16(v)
  {
    var q := v / 256;
    Arith.DivUnique(v, 0x10000, q / 256, v % 256 + 256 * (q % 256));
  }

  lemma FieldNotZero(b: seq<Byte>, off: nat, v: nat)
    requires off + 2 <= |b| && Low16(v) > 0
    ensures !(Store16(b, off, v)[off] == 0 && Store16(b, off, v)[off + 1] == 0)
  {
    LowHalf(v);
    hide Low16;
  }

  /** With the complement of its sum in a field that was zero, a packet of any length, even or
      odd, adds up to 0xFFFF in either byte order, and the field is not zero. */
  lemma ChecksumVerifies(b: seq<Byte>, off: nat)
    requires IsEven(off) && off + 2 <= |b| && b[off] == 0 && b[off + 1] == 0
    ensures Fold(LeSum(b)) <= ONES
    ensures var r := Store16(b, off, Complement(Fold(LeSum(b))));
            Fold(LeSum(r)) == ONES && Fold(BeSum(r)) == ONES && !(r[off] == 0 && r[off + 1] == 0)
  {
    var s := Fold(LeSum(b));
    FoldRange(LeSum(b));
    var low := LowOfComplement(s);
    hide LeSum, BeSum, Fold, Store16, Complement, IsEven, Low16;
    StoredSum(b, off, Complement(s));
    FieldNotZero(b, off, Complement(s));
    FoldTwice(LeSum(b), low);
    FoldRange(s + low);
    ByteOrderIndependent(Store16(b, off, Complement(s)));
  }

  lemma LowOfComplement(s: nat) returns (low: nat)
    requires s <= ONES
    ensures low == Low16(Complement(s)) && 0 < low && (s + low == ONES || s + low == 2 * ONES)
  {
    low := if s == ONES then ONES else ONES - s;
    if s != ONES {
      Arith.DivUnique(Complement(s), 0x10000, 0xFFFF, low);
    }
  }

  // ---- The code ----

  lemma OneMoreWord(data: seq<Byte>, from: nat, p: nat, n: nat)
    requires from <= p <= p + n <= |data| && IsEven(p - from) && 1 <= n <= 2
    ensures LeSum(data[from..p + n]) ==
        LeSum(data[from..p]) + data[p] + (if n == 2 then 256 * (data[p + 1] as int) else 0)
  {
    LeSumAppend(data[from..p], data[p..p + n]);
    assert data[from..p] + data[p..p + n] == data[from..p + n];
  }

  lemma PrefixBound(data: seq<Byte>, from: nat, p: nat, end: nat)
    requires from <= p <= end <= |data|
    ensures LeSum(data[from..p]) <= ONES * ((end - from + 1) / 2)
  {
    assert (p - from + 1) / 2 <= (end - from + 1) / 2;
  }

  /** checksum(data + from, len, start), with room in 32 bits for `len` bytes of any value. */
  method Sum(data: array<Byte>, from: nat, len: nat, start: nat) returns (r: nat)
    requires from + len <= data.Length
    requires start + ONES * ((len + 1) / 2) < TWO32
    ensures r == Fold(start + LeSum(data[from..from + len])) && r <= ONES
  {
    hide LeSum, Fold;
    ghost var all := data[..];
    assert all[from..from + len] == data[from..from + len];
    var sum := AddWords(data, from, len, start);
    r := FoldDown(sum);
  }

  /** Its first loop, and the odd byte. */
  method AddWords(data: array<Byte>, from: nat, len: nat, start: nat) returns (sum: nat)
    requires from + len <= data.Length
    requires start + ONES * ((len + 1) / 2) < TWO32
    ensures sum == start + LeSum(data[..][from..from + len])
  {
    hide LeSum, IsEven;
    EvenZero();
    ghost var all := data[..];
    var p, left := from, len;
    sum := start;
    assert all[from..from] == [];
    LeSumEmpty();
    while left > 1
      invariant 0 <= left && from <= p && p + left == from + len && IsEven(p - from)
      invariant sum == start + LeSum(all[from..p])
    {
      OneMoreWord(all, from, p, 2);
      PrefixBound(all, from, p + 2, from + len);
      sum := (sum + (data[p] as int + 256 * (data[p + 1] as int))) % TWO32;
      TwoOn(p - from);
      p, left := p + 2, left - 2;
    }
    if left > 0 {
      OneMoreWord(all, from, p, 1);
      PrefixBound(all, from, p + 1, from + len);
      sum := (sum + data[p]) % TWO32;
    }
  }

  lemma EvenZero()
    ensures IsEven(0)
  {
  }

  lemma TwoOn(n: nat)
    requires IsEven(n)
    ensures IsEven(n + 2)
  {
  }

  lemma LeSumEmpty()
    ensures LeSum([]) == 0
  {
  }

  /** The last loop of checksum. */
  method FoldDown(start: nat) returns (sum: nat)
    ensures sum == Fold(start) && sum <= ONES
  {
    sum := start;
    while sum > ONES
      invariant Fold(sum) == Fold(start)
    {
      FoldStep(sum);
      sum := sum % 0x10000 + sum / 0x10000;
    }
    FoldRange(sum);
  }
}
