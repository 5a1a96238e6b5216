/** external/sha256.c: the buffered, incremental hash. */
module Sha256 {
  import opened Common
  import opened Arith
  import opened Fips180

  /** Appending a block to whole blocks costs one compression. */
  lemma HashAppend(bytes: seq<Byte>, block: seq<Byte>)
    requires |bytes| % 64 == 0 && |block| == 64
    ensures HashBlocks(bytes + block) == Compress(HashBlocks(bytes), block)
  {
    assert (bytes + block)[..|bytes|] == bytes && (bytes + block)[|bytes|..] == block;
  }

  const TWO64 := 0x1_0000_0000_0000_0000

  class Context {
    const data: array<Byte>    // uint8_t data[64]
    const state: array<Bits32>   // uint32_t state[8]
    var datalen: nat
    var bitlen: nat            // uint64_t
    ghost var message: seq<Byte>  // everything hashed so far
    ghost var blocks: nat         // its whole blocks

    ghost function StateValue(): Vars
      reads state
      requires state.Length == 8
    {
      Vars(state[0], state[1], state[2], state[3], state[4], state[5], state[6], state[7])
    }

    ghost predicate Shape()
      reads this
    {
      data.Length == 64 && state.Length == 8
    }

    /** The whole blocks of the message are in `state`, the rest is in the buffer. */
    ghost predicate Valid()
      reads this, data, state
    {
      && Shape()
      && |message| == 64 * blocks + datalen && datalen < 64
      && data[..datalen] == message[64 * blocks..]
      && StateValue() == HashBlocks(message[..64 * blocks])
      && bitlen == 512 * blocks % TWO64
    }

    constructor ()
      ensures Shape() && fresh(data) && fresh(state)
    {
      data := new Byte[64];
      state := new Bits32[8];
    }

    /** sha256_init. */
    method Init()
      requires Shape()
      modifies this, state
      ensures Valid() && message == [] && StateValue() == IV
    {
      datalen := 0;
      bitlen := 0;
      message := [];
      blocks := 0;
      state[0] := 0x6a09e667;
      state[1] := 0xbb67ae85;
      state[2] := 0x3c6ef372;
      state[3] := 0xa54ff53a;
      state[4] := 0x510e527f;
      state[5] := 0x9b05688c;
      state[6] := 0x1f83d9ab;
      state[7] := 0x5be0cd19;
      assert StateValue() == IV;
    }

    /** sha256_transform on the context's own buffer. */
    method Transform()
      requires Shape()
      modifies state
      ensures StateValue() == Compress(old(StateValue()), data[..])
    {
      hide W, Rounds, AddVars;
      var m := Schedule(data);
      var r := RunRounds(m, data[..]);
      AddToState(r);
    }

    method AddToState(r: Vars)
      requires Shape()
      modifies state
      ensures StateValue() == AddVars(old(StateValue()), r)
    {
      hide Add;
      state[0] := Add(state[0], r.a);
      state[1] := Add(state[1], r.b);
      state[2] := Add(state[2], r.c);
      state[3] := Add(state[3], r.d);
      state[4] := Add(state[4], r.e);
      state[5] := Add(state[5], r.f);
      state[6] := Add(state[6], r.g);
      state[7] := Add(state[7], r.h);
    }

    /** The 64 rounds of sha256_transform. */
    method RunRounds(m: array<Bits32>, ghost block: seq<Byte>) returns (r: Vars)
      requires Shape() && m.Length == 64 && |block| == 64
      requires forall t | 0 <= t < 64 :: m[t] == W(block, t)
      ensures r == Rounds(StateValue(), block, |K|)
    {
      hide Add, Add4, BigSigma0, BigSigma1, Ch, Maj, W;
      var a, b, c, d := state[0], state[1], state[2], state[3];
      var e, f, g, h := state[4], state[5], state[6], state[7];
      ghost var before := StateValue();
      assert |K| == 64;
      var i := 0;
      while i < 64
        invariant 0 <= i <= 64
        invariant Vars(a, b, c, d, e, f, g, h) == Rounds(before, block, i)
      {
        var t1 := Add(Add4(h, BigSigma1(e), Ch(e, f, g), K[i]), m[i]);
        var t2 := Add(BigSigma0(a), Maj(a, b, c));
        h := g;
        g := f;
        f := e;
        e := Add(d, t1);
        d := c;
        c := b;
        b := a;
        a := Add(t1, t2);
        i := i + 1;
      }
      r := Vars(a, b, c, d, e, f, g, h);
    }

    /** sha256_update: any number of bytes, at any point of the block. */
    method Update(bytes: seq<Byte>)
      requires Valid()
      modifies this, data, state
      ensures Valid() && message == old(message) + bytes
    {
      hide HashBlocks;
      var i := 0;
      while i < |bytes|
        invariant 0 <= i <= |bytes|
        invariant Valid() && message == old(message) + bytes[..i]
      {
        Absorb(bytes[i]);
        assert bytes[..i + 1] == bytes[..i] + [bytes[i]];
        i := i + 1;
      }
      assert bytes[..|bytes|] == bytes;
    }

    /** The body of sha256_update's loop. */
    method Absorb(byte: Byte)
      requires Valid()
      modifies this, data, state
      ensures Valid() && message == old(message) + [byte]
    {
      hide Compress, HashBlocks;
      ghost var done := 64 * blocks;
      data[datalen] := byte;
      datalen := datalen + 1;
      message := message + [byte];
      assert data[..datalen] == message[done..];
      assert message[..done] == old(message)[..done];
      if datalen == 64 {
        Flush();
      }
    }

    /** A full buffer goes into the state. */
    method Flush()
      requires Shape() && datalen == 64 && |message| == 64 * blocks + 64 && data[..64] == message[64 * blocks..]
      requires StateValue() == HashBlocks(message[..64 * blocks]) && bitlen == 512 * blocks % TWO64
      modifies this, state
      ensures Valid() && message == old(message)
    {
      hide Compress, HashBlocks;
      ghost var whole, block := message[..64 * blocks], message[64 * blocks..];
      assert data[..] == data[..64] && whole + block == message;
      NextBlock(blocks);
      HashAppend(whole, block);
      Transform();
      bitlen := (bitlen + 512) % TWO64;
      datalen := 0;
      blocks := blocks + 1;
      assert message[..64 * blocks] == message;
    }

    /** The first marker byte and zeros up to `end`. */
    method PadBuffer(end: nat)
      requires Shape() && datalen < end <= 64
      modifies data
      ensures data[..end] == old(data[..datalen]) + [0x80] + Zeros(end - datalen - 1)
    {
      var i := datalen;
      data[i] := 0x80;
      i := i + 1;
      while i < end
        invariant datalen < i <= end
        invariant data[..i] == old(data[..datalen]) + [0x80] + Zeros(i - datalen - 1)
      {
        data[i] := 0x00;
        i := i + 1;
      }
    }

    /** The message's length in bits goes into the last eight bytes. */
    method PutLength()
      requires Shape()
      modifies data
      ensures data[..] == old(data[..56]) + Length64(bitlen)
    {
      hide LengthByte;
      data[63] := LengthByte(bitlen, 1);
      data[62] := LengthByte(bitlen, 0x100);
      data[61] := LengthByte(bitlen, 0x1_0000);
      data[60] := LengthByte(bitlen, 0x100_0000);
      data[59] := LengthByte(bitlen, 0x1_0000_0000);
      data[58] := LengthByte(bitlen, 0x100_0000_0000);
      data[57] := LengthByte(bitlen, 0x1_0000_0000_0000);
      data[56] := LengthByte(bitlen, 0x100_0000_0000_0000);
      assert data[56..] == Length64(bitlen);
      assert data[..] == data[..56] + data[56..];
    }

    /** The memset of sha256_final. */
    method ClearHead()
      requires Shape()
      modifies data
      ensures data[..56] == Zeros(56)
    {
      var i := 0;
      while i < 56
        invariant 0 <= i <= 56 && data[..i] == Zeros(i)
      {
        data[i] := 0;
        i := i + 1;
      }
    }

    /** The two padding cases of sha256_final: all but the length field of the last block. */
    method PadTail() returns (ghost done: seq<Byte>)
      requires Valid()
      modifies data, state
      ensures |done| % 64 == 0 && StateValue() == HashBlocks(done)
      ensures done + (data[..56] + Length64(8 * |message|)) == Pad(message)
    {
      hide HashBlocks, Pad, Zeros, Length64;
      if datalen < 56 {
        done := PadShort();
      } else {
        done := PadOver();
      }
    }

    /** A remainder below 56 leaves room for the length. */
    method PadShort() returns (ghost done: seq<Byte>)
      requires Valid() && datalen < 56
      modifies data
      ensures |done| % 64 == 0 && StateValue() == HashBlocks(done)
      ensures done + (data[..56] + Length64(8 * |message|)) == Pad(message)
    {
      hide HashBlocks, Compress, Pad, Zeros, Length64;
      PadBuffer(56);
      PadShortSplit(message, blocks, datalen, data[..56]);
      done := message[..64 * blocks];
    }

    /** A remainder from 56 on needs a block more. */
    method PadOver() returns (ghost done: seq<Byte>)
      requires Valid() && datalen >= 56
      modifies data, state
      ensures |done| % 64 == 0 && StateValue() == HashBlocks(done)
      ensures done + (data[..56] + Length64(8 * |message|)) == Pad(message)
    {
      hide HashBlocks, Compress, Pad, Zeros, Length64;
      PadBuffer(64);
      ghost var block := data[..];
      assert block == data[..64];
      PadOverSplit(message, blocks, datalen, block);
      done := message[..64 * blocks] + block;
      Transform();
      ClearHead();
    }

    /** sha256_final: the digest of the whole message, however it was cut into updates. */
    method Final(hash: array<Byte>)
      requires Valid() && hash.Length == 32 && hash != data
      modifies this, data, state, hash
      ensures hash[..] == Digest(old(message))
    {
      hide HashBlocks, Compress, Pad, Zeros, Length64;
      ghost var done := PadTail();
      TotalBits(blocks, datalen);
      Length64Wraps(8 * |message|);
      bitlen := (bitlen + datalen * 8) % TWO64;
      PutLength();
      HashAppend(done, data[..]);
      Transform();
      Output(hash);
    }

    /** Big-endian bytes of the eight state words, one column of four at a time. */
    method Output(hash: array<Byte>)
      requires Shape() && hash.Length == 32
      modifies hash
      ensures hash[..] == DigestBytes(StateValue())
    {
      hide WordByte;
      var i := 0;
      while i < 4
        invariant 0 <= i <= 4
        invariant forall k: nat, j: nat | k < 8 && j < i :: hash[Slot(k, j)] == WordByte(state[k], j)
      {
        OutputColumn(hash, i);
        i := i + 1;
      }
      SlotsCover(StateValue(), state[..], hash[..]);
    }

    /** The body of that loop. */
    method OutputColumn(hash: array<Byte>, i: nat)
      requires Shape() && hash.Length == 32 && i < 4
      modifies hash
      ensures forall k: nat, j: nat | k < 8 && j < 4 ::
                hash[Slot(k, j)] == if j == i then WordByte(state[k], i) else old(hash[Slot(k, j)])
    {
      hide WordByte, Slot;
      Put(hash, 0, i, WordByte(state[0], i));
      Put(hash, 1, i, WordByte(state[1], i));
      Put(hash, 2, i, WordByte(state[2], i));
      Put(hash, 3, i, WordByte(state[3], i));
      Put(hash, 4, i, WordByte(state[4], i));
      Put(hash, 5, i, WordByte(state[5], i));
      Put(hash, 6, i, WordByte(state[6], i));
      Put(hash, 7, i, WordByte(state[7], i));
    }
  }

  /** Where sha256_final puts byte `j` of state word `k`. */
  function Slot(k: nat, j: nat): (p: nat)
    ensures k < 8 && j < 4 ==> p < 32
  {
    j + 4 * k
  }

  method Put(hash: array<Byte>, k: nat, i: nat, byte: Byte)
    requires hash.Length == 32 && k < 8 && i < 4
    modifies hash
    ensures forall k': nat, j: nat | k' < 8 && j < 4 ::
              hash[Slot(k', j)] == if k' == k && j == i then byte else old(hash[Slot(k', j)])
  {
    hash[i + 4 * k] := byte;
  }

  lemma SlotsCover(v: Vars, state: seq<Bits32>, hash: seq<Byte>)
    requires |state| == 8 && |hash| == 32 && forall k: nat | k < 8 :: Nth(v, k) == state[k]
    requires forall k: nat, j: nat | k < 8 && j < 4 :: hash[Slot(k, j)] == WordByte(state[k], j)
    ensures hash == DigestBytes(v)
  {
    hide WordByte;
    forall p | 0 <= p < 32
      ensures hash[p] == WordByte(Nth(v, p / 4), p % 4)
    {
      assert p == Slot(p / 4, p % 4);
    }
  }

  lemma TotalBits(blocks: nat, datalen: nat)
    ensures (512 * blocks % TWO64 + datalen * 8) % TWO64 == 8 * (64 * blocks + datalen) % TWO64
  {
    AddMod(512 * blocks, datalen * 8, TWO64);
    assert 512 * blocks + datalen * 8 == 8 * (64 * blocks + datalen);
  }

  /** The 64-bit counter may wrap; the length field only ever shows 64 bits. */
  lemma Length64Wraps(bits: nat)
    ensures Length64(bits % TWO64) == Length64(bits)
  {
    hide LengthByte;
    LengthByteWraps(bits, 1, TWO64);
    LengthByteWraps(bits, 0x100, 0x100_0000_0000_0000);
    LengthByteWraps(bits, 0x1_0000, 0x1_0000_0000_0000);
    LengthByteWraps(bits, 0x100_0000, 0x100_0000_0000);
    LengthByteWraps(bits, 0x1_0000_0000, 0x1_0000_0000);
    LengthByteWraps(bits, 0x100_0000_0000, 0x100_0000);
    LengthByteWraps(bits, 0x1_0000_0000_0000, 0x1_0000);
    LengthByteWraps(bits, 0x100_0000_0000_0000, 0x100);
  }

  lemma LengthByteWraps(bits: nat, d: nat, e: nat)
    requires d * e == TWO64 && 0 < d && e % 256 == 0
    ensures LengthByte(bits % TWO64, d) == LengthByte(bits, d)
  {
    var q, r := bits / TWO64, bits % TWO64;
    assert bits == (q * e) * d + r by {
      assert q * TWO64 == q * (e * d) == (q * e) * d;
    }
    DivShift(r, q * e, d);
    assert q * e == 256 * (q * (e / 256));
    ModShift(r / d, q * (e / 256));
  }

  lemma DivShift(r: nat, k: nat, d: nat)
    requires 0 < d
    ensures (k * d + r) / d == k + r / d
  {
    var s := r / d;
    assert k * d + r == (k + s) * d + r % d;
    DivUnique(k * d + r, d, k + s, r % d);
  }

  lemma ModShift(x: nat, k: nat)
    ensures (256 * k + x) % 256 == x % 256
  {
  }

  /** How the padded message falls into whole blocks, the first padded block and the last one. */
  lemma PadSplit(msg: seq<Byte>, blocks: nat, datalen: nat, head: seq<Byte>)
    requires |msg| == 64 * blocks + datalen && datalen < 64
    requires head == if datalen < 56 then msg[64 * blocks..] + [0x80] + Zeros(56 - datalen - 1) else Zeros(56)
    ensures Pad(msg) == if datalen < 56 then msg[..64 * blocks] + (head + Length64(8 * |msg|))
                        else msg[..64 * blocks] + (msg[64 * blocks..] + [0x80] + Zeros(64 - datalen - 1)) +
                             (head + Length64(8 * |msg|))
  {
    assert |msg| % 64 == datalen;
    assert msg == msg[..64 * blocks] + msg[64 * blocks..];
    if datalen >= 56 {
      assert Zeros(119 - datalen) == Zeros(63 - datalen) + Zeros(56);
    }
  }

  /** The short case: the last block holds the remainder, zeros and the length. */
  lemma PadShortSplit(msg: seq<Byte>, blocks: nat, datalen: nat, head: seq<Byte>)
    requires |msg| == 64 * blocks + datalen && datalen < 56
    requires head == msg[64 * blocks..] + [0x80] + Zeros(56 - datalen - 1)
    ensures |msg[..64 * blocks]| % 64 == 0
    ensures msg[..64 * blocks] + (head + Length64(8 * |msg|)) == Pad(msg)
  {
    hide Pad, Length64;
    NextBlock(blocks);
    PadSplit(msg, blocks, datalen, head);
  }

  /** The long case: one block is full, and the last one is zeros and the length. */
  lemma PadOverSplit(msg: seq<Byte>, blocks: nat, datalen: nat, block: seq<Byte>)
    requires |msg| == 64 * blocks + datalen && 56 <= datalen < 64
    requires block == msg[64 * blocks..] + [0x80] + Zeros(64 - datalen - 1)
    ensures |msg[..64 * blocks]| % 64 == 0 && |block| == 64 && |msg[..64 * blocks] + block| % 64 == 0
    ensures HashBlocks(msg[..64 * blocks] + block) == Compress(HashBlocks(msg[..64 * blocks]), block)
    ensures (msg[..64 * blocks] + block) + (Zeros(56) + Length64(8 * |msg|)) == Pad(msg)
  {
    hide HashBlocks, Compress, Pad, Length64;
    NextBlock(blocks);
    NextBlock(blocks + 1);
    HashAppend(msg[..64 * blocks], block);
    PadSplit(msg, blocks, datalen, Zeros(56));
  }

  lemma NextBlock(n: nat)
    ensures (512 * n % TWO64 + 512) % TWO64 == 512 * (n + 1) % TWO64
    ensures 64 * n % 64 == 0
  {
    AddMod(512 * n, 512, TWO64);
    DivUnique(64 * n, 64, n, 0);
  }

  /** The message schedule loops of sha256_transform. */
  method Schedule(data: array<Byte>) returns (m: array<Bits32>)
    requires data.Length == 64
    ensures fresh(m) && m.Length == 64
    ensures forall t | 0 <= t < 64 :: m[t] == W(data[..], t)
  {
    hide Add, Add4, SmallSigma0, SmallSigma1, BigEndian;
    m := new Bits32[64];
    ghost var block := data[..];
    var i, j := 0, 0;
    while i < 16
      invariant 0 <= i <= 16 && j == 4 * i
      invariant forall t | 0 <= t < i :: m[t] == W(block, t)
    {
      m[i] := BigEndian(data[..], j);
      i, j := i + 1, j + 4;
    }
    while i < 64
      invariant 16 <= i <= 64
      invariant forall t | 0 <= t < i :: m[t] == W(block, t)
    {
      m[i] := Add4(SmallSigma1(m[i - 2]), m[i - 7], SmallSigma0(m[i - 15]), m[i - 16]);
      i := i + 1;
    }
  }

  function Concat(chunks: seq<seq<Byte>>): seq<Byte> {
    if chunks == [] then [] else Concat(chunks[..|chunks| - 1]) + chunks[|chunks| - 1]
  }

  /** Streaming equals one-shot: only the concatenation of the updates matters. */
  method HashChunks(chunks: seq<seq<Byte>>) returns (digest: seq<Byte>)
    ensures digest == Digest(Concat(chunks))
  {
    hide Digest;
    var ctx := new Context();
    ctx.Init();
    var n := 0;
    while n < |chunks|
      invariant 0 <= n <= |chunks|
      invariant fresh(ctx) && fresh(ctx.data) && fresh(ctx.state)
      invariant ctx.Valid() && ctx.message == Concat(chunks[..n])
    {
      assert chunks[..n + 1][..n] == chunks[..n];
      ctx.Update(chunks[n]);
      n := n + 1;
    }
    assert chunks[..n] == chunks;
    var hash := new Byte[32];
    ctx.Final(hash);
    digest := hash[..];
  }
}
