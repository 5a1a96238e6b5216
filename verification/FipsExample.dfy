/** The example of FIPS 180-2, appendix B.1: the hash of "abc", through the message schedule and, as they are
    printed there, the working variables of each round. */
module FipsExample {
  import opened Common
  import opened Fips180

  const ABC: seq<Byte> := [0x61, 0x62, 0x63]

  /** The message, padded. */
  const BLOCK: seq<Byte> := ABC + [0x80] + Zeros(59) + [24]

  lemma Padded()
    ensures |BLOCK| == 64 && Pad(ABC) == BLOCK
  {
  }

  const DIGEST := Vars(0xba7816bf, 0x8f01cfea, 0x414140de, 0x5dae2223, 0xb00361a3, 0x96177a9c, 0xb410ff61, 0xf20015ad)

  // ---- The message schedule ----

  lemma ShortWord(j: nat)
    requires j + 4 <= 64
    ensures |BLOCK| == 64
    ensures 4 <= j ==> BigEndian(BLOCK, j) == Low8(BLOCK[j + 3])
    ensures BigEndian(BLOCK, 0) == 0x61626380
  {
    hide BigEndian;
    if 4 <= j {
      LastByte(BLOCK, j);
    }
    FirstWord(BLOCK);
  }

  lemma LastByte(b: seq<Byte>, j: nat)
    requires j + 4 <= |b| && b[j] == b[j + 1] == b[j + 2] == 0
    ensures BigEndian(b, j) == Low8(b[j + 3])
  {
    assert Low8(0) == 0;
  }

  lemma LetterBits()
    ensures Low8(0x61) == 0x61 && Low8(0x62) == 0x62 && Low8(0x63) == 0x63 && Low8(0x80) == 0x80 && Low8(24) == 24
  {
  }

  lemma FirstWord(b: seq<Byte>)
    requires |b| >= 4 && b[..4] == [0x61, 0x62, 0x63, 0x80]
    ensures BigEndian(b, 0) == 0x61626380
  {
    assert b[0] == 0x61 && b[1] == 0x62 && b[2] == 0x63 && b[3] == 0x80;
    LetterBits();
    hide Low8;
  }

  lemma Words0()
    ensures |BLOCK| == 64 && W(BLOCK, 0) == 0x61626380 && W(BLOCK, 15) == 24
    ensures forall t | 1 <= t < 15 :: W(BLOCK, t) == 0
  {
    hide BigEndian;
    LetterBits();
    forall t | 0 <= t < 16
      ensures W(BLOCK, t) == if t == 0 then 0x61626380 else if t == 15 then 24 else 0
    {
      ShortWord(4 * t);
    }
  }

  lemma Words16()
    ensures |BLOCK| == 64
    ensures W(BLOCK, 16) == 0x61626380 && W(BLOCK, 17) == 0x000f0000
    ensures W(BLOCK, 18) == 0x7da86405 && W(BLOCK, 19) == 0x600003c6
    ensures W(BLOCK, 20) == 0x3e9d7b78 && W(BLOCK, 21) == 0x0183fc00
    ensures W(BLOCK, 22) == 0x12dcbfdb && W(BLOCK, 23) == 0xe2e2c38e
  {
    hide BigEndian;
    Words0();
    assert W(BLOCK, 16) == 0x61626380 && W(BLOCK, 17) == 0x000f0000;
    assert W(BLOCK, 18) == 0x7da86405 && W(BLOCK, 19) == 0x600003c6;
  }

  lemma Words24()
    ensures |BLOCK| == 64
    ensures W(BLOCK, 24) == 0xc8215c1a && W(BLOCK, 25) == 0xb73679a2
    ensures W(BLOCK, 26) == 0xe5bc3909 && W(BLOCK, 27) == 0x32663c5b
    ensures W(BLOCK, 28) == 0x9d209d67 && W(BLOCK, 29) == 0xec8726cb
    ensures W(BLOCK, 30) == 0x702138a4 && W(BLOCK, 31) == 0xd3b7973b
  {
    hide BigEndian;
    Words0();
    Words16();
  }

  lemma Words32()
    ensures |BLOCK| == 64
    ensures W(BLOCK, 32) == 0x93f5997f && W(BLOCK, 33) == 0x3b68ba73
    ensures W(BLOCK, 34) == 0xaff4ffc1 && W(BLOCK, 35) == 0xf10a5c62
    ensures W(BLOCK, 36) == 0x0a8b3996 && W(BLOCK, 37) == 0x72af830a
    ensures W(BLOCK, 38) == 0x9409e33e && W(BLOCK, 39) == 0x24641522
  {
    hide BigEndian;
    Words0();
    Words16();
    Words24();
  }

  lemma Words40()
    ensures |BLOCK| == 64
    ensures W(BLOCK, 40) == 0x9f47bf94 && W(BLOCK, 41) == 0xf0a64f5a
    ensures W(BLOCK, 42) == 0x3e246a79 && W(BLOCK, 43) == 0x27333ba3
    ensures W(BLOCK, 44) == 0x0c4763f2 && W(BLOCK, 45) == 0x840abf27
    ensures W(BLOCK, 46) == 0x7a290d5d && W(BLOCK, 47) == 0x065c43da
  {
    hide BigEndian;
    Words0();
    Words16();
    Words24();
    Words32();
  }

  lemma Words48()
    ensures |BLOCK| == 64
    ensures W(BLOCK, 48) == 0xfb3e89cb && W(BLOCK, 49) == 0xcc7617db
    ensures W(BLOCK, 50) == 0xb9e66c34 && W(BLOCK, 51) == 0xa9993667
    ensures W(BLOCK, 52) == 0x84badedd && W(BLOCK, 53) == 0xc21462bc
    ensures W(BLOCK, 54) == 0x1487472c && W(BLOCK, 55) == 0xb20f7a99
  {
    hide BigEndian;
    Words0();
    Words16();
    Words24();
    Words32();
    Words40();
  }

  lemma Words56()
    ensures |BLOCK| == 64
    ensures W(BLOCK, 56) == 0xef57b9cd && W(BLOCK, 57) == 0xebe6b238
    ensures W(BLOCK, 58) == 0x9fe3095e && W(BLOCK, 59) == 0x78bc8d4b
    ensures W(BLOCK, 60) == 0xa43fcf15 && W(BLOCK, 61) == 0x668b2ff8
    ensures W(BLOCK, 62) == 0xeeaba2cc && W(BLOCK, 63) == 0x12b1edeb
  {
    hide BigEndian;
    Words0();
    Words16();
    Words24();
    Words32();
    Words40();
    Words48();
  }

  // ---- The rounds ----

  /** The new a and e of a round, from a to h, its constant and its word. */
  function Step(a: Bits32, b: Bits32, c: Bits32, d: Bits32, e: Bits32, f: Bits32, g: Bits32, h: Bits32,
                k: Bits32, w: Bits32): (Bits32, Bits32) {
    var v := Round(Vars(a, b, c, d, e, f, g, h), k, w);
    (v.a, v.e)
  }

  lemma OneRound(t: nat)
    requires |BLOCK| == 64 && t < 64
    ensures var p := Rounds(IV, BLOCK, t);
            var s := Step(p.a, p.b, p.c, p.d, p.e, p.f, p.g, p.h, K[t], W(BLOCK, t));
            Rounds(IV, BLOCK, t + 1) == Vars(s.0, p.a, p.b, p.c, s.1, p.e, p.f, p.g)
  {
    hide Add, Add4, BigSigma0, BigSigma1, Ch, Maj, W, K;
  }

  lemma Table0()
    ensures Step(0x6a09e667, 0xbb67ae85, 0x3c6ef372, 0xa54ff53a, 0x510e527f, 0x9b05688c, 0x1f83d9ab, 0x5be0cd19,
                 0x428a2f98, 0x61626380) == (0x5d6aebcd, 0xfa2a4622)
    ensures Step(0x5d6aebcd, 0x6a09e667, 0xbb67ae85, 0x3c6ef372, 0xfa2a4622, 0x510e527f, 0x9b05688c, 0x1f83d9ab,
                 0x71374491, 0x00000000) == (0x5a6ad9ad, 0x78ce7989)
    ensures Step(0x5a6ad9ad, 0x5d6aebcd, 0x6a09e667, 0xbb67ae85, 0x78ce7989, 0xfa2a4622, 0x510e527f, 0x9b05688c,
                 0xb5c0fbcf, 0x00000000) == (0xc8c347a7, 0xf92939eb)
    ensures Step(0xc8c347a7, 0x5a6ad9ad, 0x5d6aebcd, 0x6a09e667, 0xf92939eb, 0x78ce7989, 0xfa2a4622, 0x510e527f,
                 0xe9b5dba5, 0x00000000) == (0xd550f666, 0x24e00850)
    ensures Step(0xd550f666, 0xc8c347a7, 0x5a6ad9ad, 0x5d6aebcd, 0x24e00850, 0xf92939eb, 0x78ce7989, 0xfa2a4622,
                 0x3956c25b, 0x00000000) == (0x04409a6a, 0x43ada245)
    ensures Step(0x04409a6a, 0xd550f666, 0xc8c347a7, 0x5a6ad9ad, 0x43ada245, 0x24e00850, 0xf92939eb, 0x78ce7989,
                 0x59f111f1, 0x00000000) == (0x2b4209f5, 0x714260ad)
    ensures Step(0x2b4209f5, 0x04409a6a, 0xd550f666, 0xc8c347a7, 0x714260ad, 0x43ada245, 0x24e00850, 0xf92939eb,
                 0x923f82a4, 0x00000000) == (0xe5030380, 0x9b27a401)
    ensures Step(0xe5030380, 0x2b4209f5, 0x04409a6a, 0xd550f666, 0x9b27a401, 0x714260ad, 0x43ada245, 0x24e00850,
                 0xab1c5ed5, 0x00000000) == (0x85a07b5f, 0x0c657a79)
  {
  }

  lemma Table8()
    ensures Step(0x85a07b5f, 0xe5030380, 0x2b4209f5, 0x04409a6a, 0x0c657a79, 0x9b27a401, 0x714260ad, 0x43ada245,
                 0xd807aa98, 0x00000000) == (0x8e04ecb9, 0x32ca2d8c)
    ensures Step(0x8e04ecb9, 0x85a07b5f, 0xe5030380, 0x2b4209f5, 0x32ca2d8c, 0x0c657a79, 0x9b27a401, 0x714260ad,
                 0x12835b01, 0x00000000) == (0x8c87346b, 0x1cc92596)
    ensures Step(0x8c87346b, 0x8e04ecb9, 0x85a07b5f, 0xe5030380, 0x1cc92596, 0x32ca2d8c, 0x0c657a79, 0x9b27a401,
                 0x243185be, 0x00000000) == (0x4798a3f4, 0x436b23e8)
    ensures Step(0x4798a3f4, 0x8c87346b, 0x8e04ecb9, 0x85a07b5f, 0x436b23e8, 0x1cc92596, 0x32ca2d8c, 0x0c657a79,
                 0x550c7dc3, 0x00000000) == (0xf71fc5a9, 0x816fd6e9)
    ensures Step(0xf71fc5a9, 0x4798a3f4, 0x8c87346b, 0x8e04ecb9, 0x816fd6e9, 0x436b23e8, 0x1cc92596, 0x32ca2d8c,
                 0x72be5d74, 0x00000000) == (0x87912990, 0x1e578218)
    ensures Step(0x87912990, 0xf71fc5a9, 0x4798a3f4, 0x8c87346b, 0x1e578218, 0x816fd6e9, 0x436b23e8, 0x1cc92596,
                 0x80deb1fe, 0x00000000) == (0xd932eb16, 0x745a48de)
    ensures Step(0xd932eb16, 0x87912990, 0xf71fc5a9, 0x4798a3f4, 0x745a48de, 0x1e578218, 0x816fd6e9, 0x436b23e8,
                 0x9bdc06a7, 0x00000000) == (0xc0645fde, 0x0b92f20c)
    ensures Step(0xc0645fde, 0xd932eb16, 0x87912990, 0xf71fc5a9, 0x0b92f20c, 0x745a48de, 0x1e578218, 0x816fd6e9,
                 0xc19bf174, 0x00000018) == (0xb0fa238e, 0x07590dcd)
  {
  }

  lemma Constants0()
    ensures |K| == 64
    ensures K[0] == 0x428a2f98 && K[1] == 0x71374491 && K[2] == 0xb5c0fbcf && K[3] == 0xe9b5dba5
    ensures K[4] == 0x3956c25b && K[5] == 0x59f111f1 && K[6] == 0x923f82a4 && K[7] == 0xab1c5ed5
    ensures K[8] == 0xd807aa98 && K[9] == 0x12835b01 && K[10] == 0x243185be && K[11] == 0x550c7dc3
    ensures K[12] == 0x72be5d74 && K[13] == 0x80deb1fe && K[14] == 0x9bdc06a7 && K[15] == 0xc19bf174
  {
  }

  lemma After16()
    ensures |BLOCK| == 64 && Rounds(IV, BLOCK, 16) ==
        Vars(0xb0fa238e, 0xc0645fde, 0xd932eb16, 0x87912990, 0x07590dcd, 0x0b92f20c, 0x745a48de, 0x1e578218)
  {
    hide Step, Rounds, W, K;
    Words0();
    NoRounds();
    Constants0();
    Table0();
    Table8();
    OneRound(0);
    OneRound(1);
    OneRound(2);
    OneRound(3);
    OneRound(4);
    OneRound(5);
    OneRound(6);
    OneRound(7);
    OneRound(8);
    OneRound(9);
    OneRound(10);
    OneRound(11);
    OneRound(12);
    OneRound(13);
    OneRound(14);
    OneRound(15);
  }

  lemma Table16()
    ensures Step(0xb0fa238e, 0xc0645fde, 0xd932eb16, 0x87912990, 0x07590dcd, 0x0b92f20c, 0x745a48de, 0x1e578218,
                 0xe49b69c1, 0x61626380) == (0x21da9a9b, 0x8034229c)
    ensures Step(0x21da9a9b, 0xb0fa238e, 0xc0645fde, 0xd932eb16, 0x8034229c, 0x07590dcd, 0x0b92f20c, 0x745a48de,
                 0xefbe4786, 0x000f0000) == (0xc2fbd9d1, 0x846ee454)
    ensures Step(0xc2fbd9d1, 0x21da9a9b, 0xb0fa238e, 0xc0645fde, 0x846ee454, 0x8034229c, 0x07590dcd, 0x0b92f20c,
                 0x0fc19dc6, 0x7da86405) == (0xfe777bbf, 0xcc899961)
    ensures Step(0xfe777bbf, 0xc2fbd9d1, 0x21da9a9b, 0xb0fa238e, 0xcc899961, 0x846ee454, 0x8034229c, 0x07590dcd,
                 0x240ca1cc, 0x600003c6) == (0xe1f20c33, 0xb0638179)
    ensures Step(0xe1f20c33, 0xfe777bbf, 0xc2fbd9d1, 0x21da9a9b, 0xb0638179, 0xcc899961, 0x846ee454, 0x8034229c,
                 0x2de92c6f, 0x3e9d7b78) == (0x9dc68b63, 0x8ada8930)
    ensures Step(0x9dc68b63, 0xe1f20c33, 0xfe777bbf, 0xc2fbd9d1, 0x8ada8930, 0xb0638179, 0xcc899961, 0x846ee454,
                 0x4a7484aa, 0x0183fc00) == (0xc2606d6d, 0xe1257970)
    ensures Step(0xc2606d6d, 0x9dc68b63, 0xe1f20c33, 0xfe777bbf, 0xe1257970, 0x8ada8930, 0xb0638179, 0xcc899961,
                 0x5cb0a9dc, 0x12dcbfdb) == (0xa7a3623f, 0x49f5114a)
    ensures Step(0xa7a3623f, 0xc2606d6d, 0x9dc68b63, 0xe1f20c33, 0x49f5114a, 0xe1257970, 0x8ada8930, 0xb0638179,
                 0x76f988da, 0xe2e2c38e) == (0xc5d53d8d, 0xaa47c347)
  {
  }

  lemma Table24()
    ensures Step(0xc5d53d8d, 0xa7a3623f, 0xc2606d6d, 0x9dc68b63, 0xaa47c347, 0x49f5114a, 0xe1257970, 0x8ada8930,
                 0x983e5152, 0xc8215c1a) == (0x1c2c2838, 0x2823ef91)
    ensures Step(0x1c2c2838, 0xc5d53d8d, 0xa7a3623f, 0xc2606d6d, 0x2823ef91, 0xaa47c347, 0x49f5114a, 0xe1257970,
                 0xa831c66d, 0xb73679a2) == (0xcde8037d, 0x14383d8e)
    ensures Step(0xcde8037d, 0x1c2c2838, 0xc5d53d8d, 0xa7a3623f, 0x14383d8e, 0x2823ef91, 0xaa47c347, 0x49f5114a,
                 0xb00327c8, 0xe5bc3909) == (0xb62ec4bc, 0xc74c6516)
    ensures Step(0xb62ec4bc, 0xcde8037d, 0x1c2c2838, 0xc5d53d8d, 0xc74c6516, 0x14383d8e, 0x2823ef91, 0xaa47c347,
                 0xbf597fc7, 0x32663c5b) == (0x77d37528, 0xedffbff8)
    ensures Step(0x77d37528, 0xb62ec4bc, 0xcde8037d, 0x1c2c2838, 0xedffbff8, 0xc74c6516, 0x14383d8e, 0x2823ef91,
                 0xc6e00bf3, 0x9d209d67) == (0x363482c9, 0x6112a3b7)
    ensures Step(0x363482c9, 0x77d37528, 0xb62ec4bc, 0xcde8037d, 0x6112a3b7, 0xedffbff8, 0xc74c6516, 0x14383d8e,
                 0xd5a79147, 0xec8726cb) == (0xa0060b30, 0xade79437)
    ensures Step(0xa0060b30, 0x363482c9, 0x77d37528, 0xb62ec4bc, 0xade79437, 0x6112a3b7, 0xedffbff8, 0xc74c6516,
                 0x06ca6351, 0x702138a4) == (0xea992a22, 0x0109ab3a)
    ensures Step(0xea992a22, 0xa0060b30, 0x363482c9, 0x77d37528, 0x0109ab3a, 0xade79437, 0x6112a3b7, 0xedffbff8,
                 0x14292967, 0xd3b7973b) == (0x73b33bf5, 0xba591112)
  {
  }

  lemma Constants16()
    ensures |K| == 64
    ensures K[16] == 0xe49b69c1 && K[17] == 0xefbe4786 && K[18] == 0x0fc19dc6 && K[19] == 0x240ca1cc
    ensures K[20] == 0x2de92c6f && K[21] == 0x4a7484aa && K[22] == 0x5cb0a9dc && K[23] == 0x76f988da
    ensures K[24] == 0x983e5152 && K[25] == 0xa831c66d && K[26] == 0xb00327c8 && K[27] == 0xbf597fc7
    ensures K[28] == 0xc6e00bf3 && K[29] == 0xd5a79147 && K[30] == 0x06ca6351 && K[31] == 0x14292967
  {
  }

  lemma After32()
    ensures |BLOCK| == 64 && Rounds(IV, BLOCK, 32) ==
        Vars(0x73b33bf5, 0xea992a22, 0xa0060b30, 0x363482c9, 0xba591112, 0x0109ab3a, 0xade79437, 0x6112a3b7)
  {
    hide Step, Rounds, W, K;
    After16();
    Words16();
    Words24();
    Constants16();
    Table16();
    Table24();
    OneRound(16);
    OneRound(17);
    OneRound(18);
    OneRound(19);
    OneRound(20);
    OneRound(21);
    OneRound(22);
    OneRound(23);
    OneRound(24);
    OneRound(25);
    OneRound(26);
    OneRound(27);
    OneRound(28);
    OneRound(29);
    OneRound(30);
    OneRound(31);
  }

  lemma Table32()
    ensures Step(0x73b33bf5, 0xea992a22, 0xa0060b30, 0x363482c9, 0xba591112, 0x0109ab3a, 0xade79437, 0x6112a3b7,
                 0x27b70a85, 0x93f5997f) == (0x98e12507, 0x9cd9f5f6)
    ensures Step(0x98e12507, 0x73b33bf5, 0xea992a22, 0xa0060b30, 0x9cd9f5f6, 0xba591112, 0x0109ab3a, 0xade79437,
                 0x2e1b2138, 0x3b68ba73) == (0xfe604df5, 0x59249dd3)
    ensures Step(0xfe604df5, 0x98e12507, 0x73b33bf5, 0xea992a22, 0x59249dd3, 0x9cd9f5f6, 0xba591112, 0x0109ab3a,
                 0x4d2c6dfc, 0xaff4ffc1) == (0xa9a7738c, 0x085f3833)
    ensures Step(0xa9a7738c, 0xfe604df5, 0x98e12507, 0x73b33bf5, 0x085f3833, 0x59249dd3, 0x9cd9f5f6, 0xba591112,
                 0x53380d13, 0xf10a5c62) == (0x65a0cfe4, 0xf4b002d6)
    ensures Step(0x65a0cfe4, 0xa9a7738c, 0xfe604df5, 0x98e12507, 0xf4b002d6, 0x085f3833, 0x59249dd3, 0x9cd9f5f6,
                 0x650a7354, 0x0a8b3996) == (0x41a65cb1, 0x0772a26b)
    ensures Step(0x41a65cb1, 0x65a0cfe4, 0xa9a7738c, 0xfe604df5, 0x0772a26b, 0xf4b002d6, 0x085f3833, 0x59249dd3,
                 0x766a0abb, 0x72af830a) == (0x34df1604, 0xa507a53d)
    ensures Step(0x34df1604, 0x41a65cb1, 0x65a0cfe4, 0xa9a7738c, 0xa507a53d, 0x0772a26b, 0xf4b002d6, 0x085f3833,
                 0x81c2c92e, 0x9409e33e) == (0x6dc57a8a, 0xf0781bc8)
    ensures Step(0x6dc57a8a, 0x34df1604, 0x41a65cb1, 0x65a0cfe4, 0xf0781bc8, 0xa507a53d, 0x0772a26b, 0xf4b002d6,
                 0x92722c85, 0x24641522) == (0x79ea687a, 0x1efbc0a0)
  {
  }

  lemma Table40()
    ensures Step(0x79ea687a, 0x6dc57a8a, 0x34df1604, 0x41a65cb1, 0x1efbc0a0, 0xf0781bc8, 0xa507a53d, 0x0772a26b,
                 0xa2bfe8a1, 0x9f47bf94) == (0xd6670766, 0x26352d63)
    ensures Step(0xd6670766, 0x79ea687a, 0x6dc57a8a, 0x34df1604, 0x26352d63, 0x1efbc0a0, 0xf0781bc8, 0xa507a53d,
                 0xa81a664b, 0xf0a64f5a) == (0xdf46652f, 0x838b2711)
    ensures Step(0xdf46652f, 0xd6670766, 0x79ea687a, 0x6dc57a8a, 0x838b2711, 0x26352d63, 0x1efbc0a0, 0xf0781bc8,
                 0xc24b8b70, 0x3e246a79) == (0x17aa0dfe, 0xdecd4715)
    ensures Step(0x17aa0dfe, 0xdf46652f, 0xd6670766, 0x79ea687a, 0xdecd4715, 0x838b2711, 0x26352d63, 0x1efbc0a0,
                 0xc76c51a3, 0x27333ba3) == (0x9d4baf93, 0xfda24c2e)
    ensures Step(0x9d4baf93, 0x17aa0dfe, 0xdf46652f, 0xd6670766, 0xfda24c2e, 0xdecd4715, 0x838b2711, 0x26352d63,
                 0xd192e819, 0x0c4763f2) == (0x26628815, 0xa80f11f0)
    ensures Step(0x26628815, 0x9d4baf93, 0x17aa0dfe, 0xdf46652f, 0xa80f11f0, 0xfda24c2e, 0xdecd4715, 0x838b2711,
                 0xd6990624, 0x840abf27) == (0x72ab4b91, 0xb7755da1)
    ensures Step(0x72ab4b91, 0x26628815, 0x9d4baf93, 0x17aa0dfe, 0xb7755da1, 0xa80f11f0, 0xfda24c2e, 0xdecd4715,
                 0xf40e3585, 0x7a290d5d) == (0xa14c14b0, 0xd57b94a9)
    ensures Step(0xa14c14b0, 0x72ab4b91, 0x26628815, 0x9d4baf93, 0xd57b94a9, 0xb7755da1, 0xa80f11f0, 0xfda24c2e,
                 0x106aa070, 0x065c43da) == (0x4172328d, 0xfecf0bc6)
  {
  }

  lemma Constants32()
    ensures |K| == 64
    ensures K[32] == 0x27b70a85 && K[33] == 0x2e1b2138 && K[34] == 0x4d2c6dfc && K[35] == 0x53380d13
    ensures K[36] == 0x650a7354 && K[37] == 0x766a0abb && K[38] == 0x81c2c92e && K[39] == 0x92722c85
    ensures K[40] == 0xa2bfe8a1 && K[41] == 0xa81a664b && K[42] == 0xc24b8b70 && K[43] == 0xc76c51a3
    ensures K[44] == 0xd192e819 && K[45] == 0xd6990624 && K[46] == 0xf40e3585 && K[47] == 0x106aa070
  {
  }

  lemma After48()
    ensures |BLOCK| == 64 && Rounds(IV, BLOCK, 48) ==
        Vars(0x4172328d, 0xa14c14b0, 0x72ab4b91, 0x26628815, 0xfecf0bc6, 0xd57b94a9, 0xb7755da1, 0xa80f11f0)
  {
    hide Step, Rounds, W, K;
    After32();
    Words32();
    Words40();
    Constants32();
    Table32();
    Table40();
    OneRound(32);
    OneRound(33);
    OneRound(34);
    OneRound(35);
    OneRound(36);
    OneRound(37);
    OneRound(38);
    OneRound(39);
    OneRound(40);
    OneRound(41);
    OneRound(42);
    OneRound(43);
    OneRound(44);
    OneRound(45);
    OneRound(46);
    OneRound(47);
  }

  lemma Table48()
    ensures Step(0x4172328d, 0xa14c14b0, 0x72ab4b91, 0x26628815, 0xfecf0bc6, 0xd57b94a9, 0xb7755da1, 0xa80f11f0,
                 0x19a4c116, 0xfb3e89cb) == (0x05757ceb, 0xbd714038)
    ensures Step(0x05757ceb, 0x4172328d, 0xa14c14b0, 0x72ab4b91, 0xbd714038, 0xfecf0bc6, 0xd57b94a9, 0xb7755da1,
                 0x1e376c08, 0xcc7617db) == (0xf11bfaa8, 0x6e5c390c)
    ensures Step(0xf11bfaa8, 0x05757ceb, 0x4172328d, 0xa14c14b0, 0x6e5c390c, 0xbd714038, 0xfecf0bc6, 0xd57b94a9,
                 0x2748774c, 0xb9e66c34) == (0x7a0508a1, 0x52f1ccf7)
    ensures Step(0x7a0508a1, 0xf11bfaa8, 0x05757ceb, 0x4172328d, 0x52f1ccf7, 0x6e5c390c, 0xbd714038, 0xfecf0bc6,
                 0x34b0bcb5, 0xa9993667) == (0x886e7a22, 0x49231c1e)
    ensures Step(0x886e7a22, 0x7a0508a1, 0xf11bfaa8, 0x05757ceb, 0x49231c1e, 0x52f1ccf7, 0x6e5c390c, 0xbd714038,
                 0x391c0cb3, 0x84badedd) == (0x101fd28f, 0x529e7d00)
    ensures Step(0x101fd28f, 0x886e7a22, 0x7a0508a1, 0xf11bfaa8, 0x529e7d00, 0x49231c1e, 0x52f1ccf7, 0x6e5c390c,
                 0x4ed8aa4a, 0xc21462bc) == (0xf5702fdb, 0x9f4787c3)
    ensures Step(0xf5702fdb, 0x101fd28f, 0x886e7a22, 0x7a0508a1, 0x9f4787c3, 0x529e7d00, 0x49231c1e, 0x52f1ccf7,
                 0x5b9cca4f, 0x1487472c) == (0x3ec45cdb, 0xe50e1b4f)
    ensures Step(0x3ec45cdb, 0xf5702fdb, 0x101fd28f, 0x886e7a22, 0xe50e1b4f, 0x9f4787c3, 0x529e7d00, 0x49231c1e,
                 0x682e6ff3, 0xb20f7a99) == (0x38cc9913, 0x54cb266b)
  {
  }

  lemma Table56()
    ensures Step(0x38cc9913, 0x3ec45cdb, 0xf5702fdb, 0x101fd28f, 0x54cb266b, 0xe50e1b4f, 0x9f4787c3, 0x529e7d00,
                 0x748f82ee, 0xef57b9cd) == (0xfcd1887b, 0x9b5e906c)
    ensures Step(0xfcd1887b, 0x38cc9913, 0x3ec45cdb, 0xf5702fdb, 0x9b5e906c, 0x54cb266b, 0xe50e1b4f, 0x9f4787c3,
                 0x78a5636f, 0xebe6b238) == (0xc062d46f, 0x7e44008e)
    ensures Step(0xc062d46f, 0xfcd1887b, 0x38cc9913, 0x3ec45cdb, 0x7e44008e, 0x9b5e906c, 0x54cb266b, 0xe50e1b4f,
                 0x84c87814, 0x9fe3095e) == (0xffb70472, 0x6d83bfc6)
    ensures Step(0xffb70472, 0xc062d46f, 0xfcd1887b, 0x38cc9913, 0x6d83bfc6, 0x7e44008e, 0x9b5e906c, 0x54cb266b,
                 0x8cc70208, 0x78bc8d4b) == (0xb6ae8fff, 0xb21bad3d)
    ensures Step(0xb6ae8fff, 0xffb70472, 0xc062d46f, 0xfcd1887b, 0xb21bad3d, 0x6d83bfc6, 0x7e44008e, 0x9b5e906c,
                 0x90befffa, 0xa43fcf15) == (0xb85e2ce9, 0x961f4894)
    ensures Step(0xb85e2ce9, 0xb6ae8fff, 0xffb70472, 0xc062d46f, 0x961f4894, 0xb21bad3d, 0x6d83bfc6, 0x7e44008e,
                 0xa4506ceb, 0x668b2ff8) == (0x04d24d6c, 0x948d25b6)
    ensures Step(0x04d24d6c, 0xb85e2ce9, 0xb6ae8fff, 0xffb70472, 0x948d25b6, 0x961f4894, 0xb21bad3d, 0x6d83bfc6,
                 0xbef9a3f7, 0xeeaba2cc) == (0xd39a2165, 0xfb121210)
    ensures Step(0xd39a2165, 0x04d24d6c, 0xb85e2ce9, 0xb6ae8fff, 0xfb121210, 0x948d25b6, 0x961f4894, 0xb21bad3d,
                 0xc67178f2, 0x12b1edeb) == (0x506e3058, 0x5ef50f24)
  {
  }

  lemma Constants48()
    ensures |K| == 64
    ensures K[48] == 0x19a4c116 && K[49] == 0x1e376c08 && K[50] == 0x2748774c && K[51] == 0x34b0bcb5
    ensures K[52] == 0x391c0cb3 && K[53] == 0x4ed8aa4a && K[54] == 0x5b9cca4f && K[55] == 0x682e6ff3
    ensures K[56] == 0x748f82ee && K[57] == 0x78a5636f && K[58] == 0x84c87814 && K[59] == 0x8cc70208
    ensures K[60] == 0x90befffa && K[61] == 0xa4506ceb && K[62] == 0xbef9a3f7 && K[63] == 0xc67178f2
  {
  }

  lemma After64()
    ensures |BLOCK| == 64 && Rounds(IV, BLOCK, 64) ==
        Vars(0x506e3058, 0xd39a2165, 0x04d24d6c, 0xb85e2ce9, 0x5ef50f24, 0xfb121210, 0x948d25b6, 0x961f4894)
  {
    hide Step, Rounds, W, K;
    After48();
    Words48();
    Words56();
    Constants48();
    Table48();
    Table56();
    OneRound(48);
    OneRound(49);
    OneRound(50);
    OneRound(51);
    OneRound(52);
    OneRound(53);
    OneRound(54);
    OneRound(55);
    OneRound(56);
    OneRound(57);
    OneRound(58);
    OneRound(59);
    OneRound(60);
    OneRound(61);
    OneRound(62);
    OneRound(63);
  }

  lemma NoRounds()
    ensures |BLOCK| == 64 && Rounds(IV, BLOCK, 0) ==
        Vars(0x6a09e667, 0xbb67ae85, 0x3c6ef372, 0xa54ff53a, 0x510e527f, 0x9b05688c, 0x1f83d9ab, 0x5be0cd19)
  {
  }

  // ---- The digest ----

  lemma BlockCompressed()
    ensures |BLOCK| == 64 && |K| == 64 && Compress(IV, BLOCK) == DIGEST
  {
    hide W, Rounds;
    After64();
    Constants0();
  }

  /** The hash of "abc". */
  lemma AbcDigest()
    ensures Digest(ABC) ==
        [0xba, 0x78, 0x16, 0xbf, 0x8f, 0x01, 0xcf, 0xea, 0x41, 0x41, 0x40, 0xde, 0x5d, 0xae, 0x22, 0x23,
         0xb0, 0x03, 0x61, 0xa3, 0x96, 0x17, 0x7a, 0x9c, 0xb4, 0x10, 0xff, 0x61, 0xf2, 0x00, 0x15, 0xad]
  {
    hide Compress, WordByte;
    Padded();
    BlockCompressed();
    assert BLOCK[..0] == [] && BLOCK[0..] == BLOCK;
    FirstBytes();
    LastBytes();
  }

  lemma FirstBytes()
    ensures WordByte(0xba7816bf, 0) == 0xba && WordByte(0xba7816bf, 1) == 0x78
    ensures WordByte(0xba7816bf, 2) == 0x16 && WordByte(0xba7816bf, 3) == 0xbf
    ensures WordByte(0x8f01cfea, 0) == 0x8f && WordByte(0x8f01cfea, 1) == 0x01
    ensures WordByte(0x8f01cfea, 2) == 0xcf && WordByte(0x8f01cfea, 3) == 0xea
    ensures WordByte(0x414140de, 0) == 0x41 && WordByte(0x414140de, 1) == 0x41
    ensures WordByte(0x414140de, 2) == 0x40 && WordByte(0x414140de, 3) == 0xde
    ensures WordByte(0x5dae2223, 0) == 0x5d && WordByte(0x5dae2223, 1) == 0xae
    ensures WordByte(0x5dae2223, 2) == 0x22 && WordByte(0x5dae2223, 3) == 0x23
  {
  }

  lemma LastBytes()
    ensures WordByte(0xb00361a3, 0) == 0xb0 && WordByte(0xb00361a3, 1) == 0x03
    ensures WordByte(0xb00361a3, 2) == 0x61 && WordByte(0xb00361a3, 3) == 0xa3
    ensures WordByte(0x96177a9c, 0) == 0x96 && WordByte(0x96177a9c, 1) == 0x17
    ensures WordByte(0x96177a9c, 2) == 0x7a && WordByte(0x96177a9c, 3) == 0x9c
    ensures WordByte(0xb410ff61, 0) == 0xb4 && WordByte(0xb410ff61, 1) == 0x10
    ensures WordByte(0xb410ff61, 2) == 0xff && WordByte(0xb410ff61, 3) == 0x61
    ensures WordByte(0xf20015ad, 0) == 0xf2 && WordByte(0xf20015ad, 1) == 0x00
    ensures WordByte(0xf20015ad, 2) == 0x15 && WordByte(0xf20015ad, 3) == 0xad
  {
  }
}
