/** SHA-256 as FIPS 180-4 defines it: sections 4.1.2 (functions), 4.2.2 (constants),
    5.1.1 (padding), 5.3.3 (initial value) and 6.2 (computation), over whole bytes. */
module Fips180 {
  import opened Common

  type Bits32 = bv32

  // The constants of section 4.2.2, in eight rows.
  const K0: seq<Bits32> := [
    0x428a2f98, 0x71374491, 0xb5c0fbcf, 0xe9b5dba5, 0x3956c25b, 0x59f111f1, 0x923f82a4, 0xab1c5ed5]
  const K1: seq<Bits32> := [
    0xd807aa98, 0x12835b01, 0x243185be, 0x550c7dc3, 0x72be5d74, 0x80deb1fe, 0x9bdc06a7, 0xc19bf174]
  const K2: seq<Bits32> := [
    0xe49b69c1, 0xefbe4786, 0x0fc19dc6, 0x240ca1cc, 0x2de92c6f, 0x4a7484aa, 0x5cb0a9dc, 0x76f988da]
  const K3: seq<Bits32> := [
    0x983e5152, 0xa831c66d, 0xb00327c8, 0xbf597fc7, 0xc6e00bf3, 0xd5a79147, 0x06ca6351, 0x14292967]
  const K4: seq<Bits32> := [
    0x27b70a85, 0x2e1b2138, 0x4d2c6dfc, 0x53380d13, 0x650a7354, 0x766a0abb, 0x81c2c92e, 0x92722c85]
  const K5: seq<Bits32> := [
    0xa2bfe8a1, 0xa81a664b, 0xc24b8b70, 0xc76c51a3, 0xd192e819, 0xd6990624, 0xf40e3585, 0x106aa070]
  const K6: seq<Bits32> := [
    0x19a4c116, 0x1e376c08, 0x2748774c, 0x34b0bcb5, 0x391c0cb3, 0x4ed8aa4a, 0x5b9cca4f, 0x682e6ff3]
  const K7: seq<Bits32> := [
    0x748f82ee, 0x78a5636f, 0x84c87814, 0x8cc70208, 0x90befffa, 0xa4506ceb, 0xbef9a3f7, 0xc67178f2]

  const K := K0 + K1 + K2 + K3 + K4 + K5 + K6 + K7

  /** Addition modulo 2^32. */
  function Add(x: Bits32, y: Bits32): Bits32 { x + y }

  function Add4(x: Bits32, y: Bits32, z: Bits32, w: Bits32): Bits32 { Add(Add(Add(x, y), z), w) }

  function Ch(x: Bits32, y: Bits32, z: Bits32): Bits32 { (x & y) ^ (!x & z) }
  function Maj(x: Bits32, y: Bits32, z: Bits32): Bits32 { (x & y) ^ (x & z) ^ (y & z) }

  /** A shift distance, or the place of a bit. */
  type Place = bv6

  /** ROTR of section 3.2. */
  function RotR(x: Bits32, n: Place): Bits32
    requires 0 < n < 32
  {
    (x >> n) | (x << (32 - n))
  }

  /** SHR of section 3.2. */
  function ShR(x: Bits32, n: Place): Bits32
    requires n < 32
  {
    x >> n
  }

  function BigSigma0(x: Bits32): Bits32 { RotR(x, 2) ^ RotR(x, 13) ^ RotR(x, 22) }
  function BigSigma1(x: Bits32): Bits32 { RotR(x, 6) ^ RotR(x, 11) ^ RotR(x, 25) }
  function SmallSigma0(x: Bits32): Bits32 { RotR(x, 7) ^ RotR(x, 18) ^ ShR(x, 3) }
  function SmallSigma1(x: Bits32): Bits32 { RotR(x, 17) ^ RotR(x, 19) ^ ShR(x, 10) }

  function BigEndian(b: seq<Byte>, j: nat): Bits32
    requires j + 4 <= |b|
  {
    (Low8(b[j]) << 24) | (Low8(b[j + 1]) << 16) | (Low8(b[j + 2]) << 8) | Low8(b[j + 3])
  }

  function Low8(b: Byte): Bits32 { b as Bits32 }

  /** The message schedule W of a 64-byte block. */
  function W(block: seq<Byte>, t: nat): Bits32
    requires |block| == 64 && t < 64
  {
    if t < 16 then BigEndian(block, 4 * t)
    else NextWord(W(block, t - 2), W(block, t - 7), W(block, t - 15), W(block, t - 16))
  }

  function NextWord(w2: Bits32, w7: Bits32, w15: Bits32, w16: Bits32): Bits32 {
    Add4(SmallSigma1(w2), w7, SmallSigma0(w15), w16)
  }

  /** The working variables, or a hash value. */
  datatype Vars = Vars(a: Bits32, b: Bits32, c: Bits32, d: Bits32, e: Bits32, f: Bits32, g: Bits32, h: Bits32)

  const IV := Vars(0x6a09e667, 0xbb67ae85, 0x3c6ef372, 0xa54ff53a, 0x510e527f, 0x9b05688c, 0x1f83d9ab, 0x5be0cd19)

  /** Step 3 of section 6.2.2, after `t` of its 64 rounds. */
  function Rounds(v: Vars, block: seq<Byte>, t: nat): Vars
    requires |block| == 64 && t <= 64
  {
    if t == 0 then v
    else Round(Rounds(v, block, t - 1), K[t - 1], W(block, t - 1))
  }

  function Round(p: Vars, k: Bits32, w: Bits32): Vars {
    var t1 := Add(Add4(p.h, BigSigma1(p.e), Ch(p.e, p.f, p.g), k), w);
    var t2 := Add(BigSigma0(p.a), Maj(p.a, p.b, p.c));
    Vars(Add(t1, t2), p.a, p.b, p.c, Add(p.d, t1), p.e, p.f, p.g)
  }

  function AddVars(v: Vars, r: Vars): Vars {
    Vars(Add(v.a, r.a), Add(v.b, r.b), Add(v.c, r.c), Add(v.d, r.d), Add(v.e, r.e), Add(v.f, r.f), Add(v.g, r.g),
      Add(v.h, r.h))
  }

  /** Section 6.2.2; there is one round for each constant. */
  function Compress(v: Vars, block: seq<Byte>): Vars
    requires |block| == 64
  {
    AddVars(v, Rounds(v, block, |K|))
  }

  /** The hash value after all blocks of `bytes`. */
  function HashBlocks(bytes: seq<Byte>): Vars
    requires |bytes| % 64 == 0
  {
    if bytes == [] then IV
    else Compress(HashBlocks(bytes[..|bytes| - 64]), bytes[|bytes| - 64..])
  }

  function LengthByte(bits: nat, unit: nat): Byte
    requires 0 < unit
  {
    bits / unit % 256
  }

  /** `bits` as a 64-bit big-endian number. */
  function Length64(bits: nat): seq<Byte> {
    [LengthByte(bits, 0x100_0000_0000_0000), LengthByte(bits, 0x1_0000_0000_0000),
     LengthByte(bits, 0x100_0000_0000), LengthByte(bits, 0x1_0000_0000),
     LengthByte(bits, 0x100_0000), LengthByte(bits, 0x1_0000), LengthByte(bits, 0x100), LengthByte(bits, 1)]
  }

  /** The number of zero bytes of section 5.1.1: the least that makes the whole a multiple of 64. */
  function ZeroBytes(n: nat): nat { if n % 64 <= 55 then 55 - n % 64 else 119 - n % 64 }

  function Zeros(n: nat): seq<Byte> { seq(n, _ => 0) }

  function Pad(msg: seq<Byte>): (p: seq<Byte>)
    ensures |p| % 64 == 0
  {
    PaddedLength(|msg|);
    msg + [0x80] + Zeros(ZeroBytes(|msg|)) + Length64(8 * |msg|)
  }

  lemma Mod64(q: nat, r: nat)
    ensures (q * 64 + r) % 64 == r % 64
  {
  }

  lemma PaddedLength(n: nat)
    ensures (n + 9 + ZeroBytes(n)) % 64 == 0
  {
    var q, r := n / 64, n % 64;
    Mod64(q, r + 9 + ZeroBytes(n));
    assert n + 9 + ZeroBytes(n) == q * 64 + (r + 9 + ZeroBytes(n));
  }

  /** Fewer zero bytes would not do. */
  lemma PaddingIsLeast(n: nat, z: nat)
    requires z < ZeroBytes(n)
    ensures (n + 9 + z) % 64 != 0
  {
    var q, r := n / 64, n % 64;
    Mod64(q, r + 9 + z);
    assert n + 9 + z == q * 64 + (r + 9 + z);
  }

  function WordByte(w: Bits32, i: nat): Byte
    requires i < 4
  {
    ((w >> (24 - i * 8)) & 0xff) as bv8 as int
  }

  function Nth(v: Vars, k: nat): Bits32
    requires k < 8
  {
    if k == 0 then v.a else if k == 1 then v.b else if k == 2 then v.c else if k == 3 then v.d
    else if k == 4 then v.e else if k == 5 then v.f else if k == 6 then v.g else v.h
  }

  /** The eight words, each most significant byte first. */
  function DigestBytes(v: Vars): seq<Byte> {
    seq(32, (p: nat) requires p < 32 => WordByte(Nth(v, p / 4), p % 4))
  }

  function Digest(msg: seq<Byte>): seq<Byte> {
    DigestBytes(HashBlocks(Pad(msg)))
  }
}
