/** What the numbers and functions of FIPS 180-4 are, in terms that do not mention them: section 4.2.2 takes
    its constants from the cube roots of the first 64 primes, section 5.3.3 the initial value from the
    square roots of the first eight, and section 4.1.2 defines its functions bit by bit. */
module FipsMeaning {
  import opened Common
  import opened Fips180
  import Arith

  // ---- The first 64 primes ----

  ghost predicate IsPrime(n: nat) { 2 <= n && forall d | 2 <= d < n :: n % d != 0 }

  const P0: seq<nat> := [2, 3, 5, 7, 11, 13, 17, 19]
  const P1: seq<nat> := [23, 29, 31, 37, 41, 43, 47, 53]
  const P2: seq<nat> := [59, 61, 67, 71, 73, 79, 83, 89]
  const P3: seq<nat> := [97, 101, 103, 107, 109, 113, 127, 131]
  const P4: seq<nat> := [137, 139, 149, 151, 157, 163, 167, 173]
  const P5: seq<nat> := [179, 181, 191, 193, 197, 199, 211, 223]
  const P6: seq<nat> := [227, 229, 233, 239, 241, 251, 257, 263]
  const P7: seq<nat> := [269, 271, 277, 281, 283, 293, 307, 311]
  const PRIMES := P0 + P1 + P2 + P3 + P4 + P5 + P6 + P7

  /** No prime up to 17 divides n, unless it is n: enough for numbers below 19 squared. */
  predicate Sieved(n: nat) {
    && 2 <= n && (n % 2 != 0 || n == 2) && (n % 3 != 0 || n == 3) && (n % 5 != 0 || n == 5) && (n % 7 != 0 || n == 7)
    && (n % 11 != 0 || n == 11) && (n % 13 != 0 || n == 13) && (n % 17 != 0 || n == 17)
  }

  lemma Transitive(n: nat, d: nat, q: nat)
    requires 0 < d && 0 < q && n % d == 0 && d % q == 0
    ensures n % q == 0
  {
    var a, b := n / d, d / q;
    assert n == a * (b * q) == (a * b) * q;
    Arith.DivUnique(n, q, a * b, 0);
  }

  lemma SmallDivisor(n: nat, d: nat)
    requires 2 <= d < 19 && d < n && n % d == 0
    ensures !Sieved(n)
  {
    if d % 2 == 0 {
      Transitive(n, d, 2);
    } else if d % 3 == 0 {
      Transitive(n, d, 3);
    } else if d == 15 {
      Transitive(n, d, 5);
    }
  }

  lemma SieveDecides(n: nat)
    requires n < 361
    ensures Sieved(n) <==> IsPrime(n)
  {
    hide Sieved, IsPrime;
    if 2 <= n {
      PrimeIsSieved(n);
      CompositeIsNot(n);
    } else {
      TooSmall(n);
    }
  }

  lemma TooSmall(n: nat)
    requires n < 2
    ensures !Sieved(n) && !IsPrime(n)
  {
  }

  lemma PrimeIsSieved(n: nat)
    ensures IsPrime(n) ==> Sieved(n)
  {
    if IsPrime(n) {
      NotDivisible(n, 2);
      NotDivisible(n, 3);
      NotDivisible(n, 5);
      NotDivisible(n, 7);
      NotDivisible(n, 11);
      NotDivisible(n, 13);
      NotDivisible(n, 17);
    }
    hide IsPrime;
  }

  lemma NotDivisible(n: nat, q: nat)
    requires IsPrime(n) && 2 <= q
    ensures n % q != 0 || n == q
  {
    if n < q {
      Arith.DivUnique(n, q, 0, n);
    }
  }

  lemma CompositeIsNot(n: nat)
    requires 2 <= n < 361
    ensures !IsPrime(n) ==> !Sieved(n)
  {
    hide Sieved;
    if d :| 2 <= d < n && n % d == 0 {
      if d < 19 {
        SmallDivisor(n, d);
      } else {
        Cofactor(n, d);
        SmallDivisor(n, n / d);
      }
    }
  }

  lemma Cofactor(n: nat, d: nat)
    requires 19 <= d < n < 361 && n % d == 0
    ensures 2 <= n / d < 19 && n / d < n && n % (n / d) == 0
  {
    var e := n / d;
    assert n == e * d;
    if e >= 19 {
      Arith.MulMonotone(19, 19, d);
      Arith.MulMonotone(d, 19, e);
    }
    if e <= 1 {
      Arith.MulMonotone(d, e, 1);
    }
    Arith.DivUnique(n, e, d, 0);
  }

  /** The numbers from `lo` up to `hi` that pass. */
  function Between(lo: nat, hi: nat): seq<nat> {
    if hi <= lo then [] else if Sieved(hi - 1) then Between(lo, hi - 1) + [hi - 1] else Between(lo, hi - 1)
  }

  lemma Primes0()
    ensures Between(0, 23) == P0
  {
    assert Between(0, 8) == [2, 3, 5, 7];
    assert Between(0, 16) == [2, 3, 5, 7, 11, 13];
  }

  lemma Primes1()
    ensures Between(23, 59) == P1
  {
    assert Between(23, 31) == [23, 29];
    assert Between(23, 39) == [23, 29, 31, 37];
    assert Between(23, 47) == [23, 29, 31, 37, 41, 43];
    assert Between(23, 55) == [23, 29, 31, 37, 41, 43, 47, 53];
  }

  lemma Primes2()
    ensures Between(59, 97) == P2
  {
    assert Between(59, 67) == [59, 61];
    assert Between(59, 75) == [59, 61, 67, 71, 73];
    assert Between(59, 83) == [59, 61, 67, 71, 73, 79];
    assert Between(59, 91) == [59, 61, 67, 71, 73, 79, 83, 89];
  }

  lemma Primes3()
    ensures Between(97, 137) == P3
  {
    assert Between(97, 105) == [97, 101, 103];
    assert Between(97, 113) == [97, 101, 103, 107, 109];
    assert Between(97, 121) == [97, 101, 103, 107, 109, 113];
    assert Between(97, 129) == [97, 101, 103, 107, 109, 113, 127];
  }

  lemma Primes4()
    ensures Between(137, 179) == P4
  {
    assert Between(137, 145) == [137, 139];
    assert Between(137, 153) == [137, 139, 149, 151];
    assert Between(137, 161) == [137, 139, 149, 151, 157];
    assert Between(137, 169) == [137, 139, 149, 151, 157, 163, 167];
  }

  lemma Primes5()
    ensures Between(179, 227) == P5
  {
    assert Between(179, 187) == [179, 181];
    assert Between(179, 195) == [179, 181, 191, 193];
    assert Between(179, 203) == [179, 181, 191, 193, 197, 199];
    assert Between(179, 211) == [179, 181, 191, 193, 197, 199];
    assert Between(179, 219) == [179, 181, 191, 193, 197, 199, 211];
  }

  lemma Primes6()
    ensures Between(227, 269) == P6
  {
    assert Between(227, 235) == [227, 229, 233];
    assert Between(227, 243) == [227, 229, 233, 239, 241];
    assert Between(227, 251) == [227, 229, 233, 239, 241];
    assert Between(227, 259) == [227, 229, 233, 239, 241, 251, 257];
  }

  lemma Primes7()
    ensures Between(269, 312) == P7
  {
    assert Between(269, 277) == [269, 271];
    assert Between(269, 285) == [269, 271, 277, 281, 283];
    assert Between(269, 293) == [269, 271, 277, 281, 283];
    assert Between(269, 301) == [269, 271, 277, 281, 283, 293];
    assert Between(269, 309) == [269, 271, 277, 281, 283, 293, 307];
  }

  lemma {:induction false} BetweenIs(lo: nat, hi: nat)
    ensures forall n: nat :: n in Between(lo, hi) <==> lo <= n < hi && Sieved(n)
    ensures forall i, j | 0 <= i < j < |Between(lo, hi)| :: Between(lo, hi)[i] < Between(lo, hi)[j]
  {
    hide Sieved;
    if lo < hi {
      BetweenIs(lo, hi - 1);
      var init := Between(lo, hi - 1);
      assert forall i | 0 <= i < |init| :: init[i] in init;
    }
  }

  lemma {:induction false} BetweenSplit(lo: nat, mid: nat, hi: nat)
    requires lo <= mid <= hi
    ensures Between(lo, hi) == Between(lo, mid) + Between(mid, hi)
  {
    hide Sieved;
    if mid < hi {
      BetweenSplit(lo, mid, hi - 1);
    }
  }

  /** PRIMES lists the primes up to 311, in order. */
  lemma PrimesInOrder()
    ensures |PRIMES| == 64
    ensures forall n: nat :: n in PRIMES <==> n < 312 && IsPrime(n)
    ensures forall i, j | 0 <= i < j < 64 :: PRIMES[i] < PRIMES[j]
  {
    hide Between, Sieved, IsPrime;
    Primes0();
    Primes1();
    Primes2();
    Primes3();
    Primes4();
    Primes5();
    Primes6();
    Primes7();
    BetweenSplit(0, 23, 312);
    BetweenSplit(23, 59, 312);
    BetweenSplit(59, 97, 312);
    BetweenSplit(97, 137, 312);
    BetweenSplit(137, 179, 312);
    BetweenSplit(179, 227, 312);
    BetweenSplit(227, 269, 312);
    assert PRIMES == Between(0, 312);
    BetweenIs(0, 312);
    forall n: nat | n < 312
      ensures Sieved(n) <==> IsPrime(n)
    {
      SieveDecides(n);
    }
  }

  // ---- The constants ----

  /** `n` is the cube root of `p` to 32 binary places. */
  ghost predicate CubeRoot(n: nat, p: nat) {
    n * n * n <= p * 0x1_0000_0000_0000_0000_0000_0000 < (n + 1) * (n + 1) * (n + 1)
  }

  ghost predicate SquareRoot(n: nat, p: nat) {
    n * n <= p * 0x1_0000_0000_0000_0000 < (n + 1) * (n + 1)
  }

  /** `k` is the first 32 bits of the fraction. */
  ghost predicate FromCubeRoot(k: Bits32, p: nat) {
    exists n: nat :: CubeRoot(n, p) && k as nat == n % TWO32
  }

  ghost predicate FromSquareRoot(k: Bits32, p: nat) {
    exists n: nat :: SquareRoot(n, p) && k as nat == n % TWO32
  }

  lemma Cube(k: Bits32, p: nat, whole: nat)
    requires CubeRoot(whole * TWO32 + k as nat, p)
    ensures FromCubeRoot(k, p)
  {
    Arith.DivUnique(whole * TWO32 + k as nat, TWO32, whole, k as nat);
  }

  lemma Square(k: Bits32, p: nat, whole: nat)
    requires SquareRoot(whole * TWO32 + k as nat, p)
    ensures FromSquareRoot(k, p)
  {
    Arith.DivUnique(whole * TWO32 + k as nat, TWO32, whole, k as nat);
  }

  lemma Cubes0()
    ensures FromCubeRoots(K0, P0)
  {
    hide FromCubeRoot;
    Cube(0x428a2f98, 2, 1);
    Cube(0x71374491, 3, 1);
    Cube(0xb5c0fbcf, 5, 1);
    Cube(0xe9b5dba5, 7, 1);
    Cube(0x3956c25b, 11, 2);
    Cube(0x59f111f1, 13, 2);
    Cube(0x923f82a4, 17, 2);
    Cube(0xab1c5ed5, 19, 2);
  }

  lemma Cubes1()
    ensures FromCubeRoots(K1, P1)
  {
    hide FromCubeRoot;
    Cube(0xd807aa98, 23, 2);
    Cube(0x12835b01, 29, 3);
    Cube(0x243185be, 31, 3);
    Cube(0x550c7dc3, 37, 3);
    Cube(0x72be5d74, 41, 3);
    Cube(0x80deb1fe, 43, 3);
    Cube(0x9bdc06a7, 47, 3);
    Cube(0xc19bf174, 53, 3);
  }

  lemma Cubes2()
    ensures FromCubeRoots(K2, P2)
  {
    hide FromCubeRoot;
    Cube(0xe49b69c1, 59, 3);
    Cube(0xefbe4786, 61, 3);
    Cube(0x0fc19dc6, 67, 4);
    Cube(0x240ca1cc, 71, 4);
    Cube(0x2de92c6f, 73, 4);
    Cube(0x4a7484aa, 79, 4);
    Cube(0x5cb0a9dc, 83, 4);
    Cube(0x76f988da, 89, 4);
  }

  lemma Cubes3()
    ensures FromCubeRoots(K3, P3)
  {
    hide FromCubeRoot;
    Cube(0x983e5152, 97, 4);
    Cube(0xa831c66d, 101, 4);
    Cube(0xb00327c8, 103, 4);
    Cube(0xbf597fc7, 107, 4);
    Cube(0xc6e00bf3, 109, 4);
    Cube(0xd5a79147, 113, 4);
    Cube(0x06ca6351, 127, 5);
    Cube(0x14292967, 131, 5);
  }

  lemma Cubes4()
    ensures FromCubeRoots(K4, P4)
  {
    hide FromCubeRoot;
    Cube(0x27b70a85, 137, 5);
    Cube(0x2e1b2138, 139, 5);
    Cube(0x4d2c6dfc, 149, 5);
    Cube(0x53380d13, 151, 5);
    Cube(0x650a7354, 157, 5);
    Cube(0x766a0abb, 163, 5);
    Cube(0x81c2c92e, 167, 5);
    Cube(0x92722c85, 173, 5);
  }

  lemma Cubes5()
    ensures FromCubeRoots(K5, P5)
  {
    hide FromCubeRoot;
    Cube(0xa2bfe8a1, 179, 5);
    Cube(0xa81a664b, 181, 5);
    Cube(0xc24b8b70, 191, 5);
    Cube(0xc76c51a3, 193, 5);
    Cube(0xd192e819, 197, 5);
    Cube(0xd6990624, 199, 5);
    Cube(0xf40e3585, 211, 5);
    Cube(0x106aa070, 223, 6);
  }

  lemma Cubes6()
    ensures FromCubeRoots(K6, P6)
  {
    hide FromCubeRoot;
    Cube(0x19a4c116, 227, 6);
    Cube(0x1e376c08, 229, 6);
    Cube(0x2748774c, 233, 6);
    Cube(0x34b0bcb5, 239, 6);
    Cube(0x391c0cb3, 241, 6);
    Cube(0x4ed8aa4a, 251, 6);
    Cube(0x5b9cca4f, 257, 6);
    Cube(0x682e6ff3, 263, 6);
  }

  lemma Cubes7()
    ensures FromCubeRoots(K7, P7)
  {
    hide FromCubeRoot;
    Cube(0x748f82ee, 269, 6);
    Cube(0x78a5636f, 271, 6);
    Cube(0x84c87814, 277, 6);
    Cube(0x8cc70208, 281, 6);
    Cube(0x90befffa, 283, 6);
    Cube(0xa4506ceb, 293, 6);
    Cube(0xbef9a3f7, 307, 6);
    Cube(0xc67178f2, 311, 6);
  }

  ghost predicate FromCubeRoots(ks: seq<Bits32>, ps: seq<nat>) {
    |ks| == |ps| && forall i | 0 <= i < |ks| :: FromCubeRoot(ks[i], ps[i])
  }

  lemma Join(ks: seq<Bits32>, ps: seq<nat>, ks': seq<Bits32>, ps': seq<nat>)
    requires FromCubeRoots(ks, ps) && FromCubeRoots(ks', ps')
    ensures FromCubeRoots(ks + ks', ps + ps')
  {
    hide FromCubeRoot;
  }

  lemma AllCubes()
    ensures FromCubeRoots(K, PRIMES)
  {
    hide FromCubeRoots, K0, K1, K2, K3, K4, K5, K6, K7, P0, P1, P2, P3, P4, P5, P6, P7;
    Cubes0();
    Cubes1();
    Join(K0, P0, K1, P1);
    Cubes2();
    Join(K0 + K1, P0 + P1, K2, P2);
    Cubes3();
    Join(K0 + K1 + K2, P0 + P1 + P2, K3, P3);
    Cubes4();
    Join(K0 + K1 + K2 + K3, P0 + P1 + P2 + P3, K4, P4);
    Cubes5();
    Join(K0 + K1 + K2 + K3 + K4, P0 + P1 + P2 + P3 + P4, K5, P5);
    Cubes6();
    Join(K0 + K1 + K2 + K3 + K4 + K5, P0 + P1 + P2 + P3 + P4 + P5, K6, P6);
    Cubes7();
    Join(K0 + K1 + K2 + K3 + K4 + K5 + K6, P0 + P1 + P2 + P3 + P4 + P5 + P6, K7, P7);
  }

  /** Section 4.2.2: each constant is the first 32 bits of the fractional part of the cube root of its prime. */
  lemma ConstantsAreCubeRoots(i: nat)
    requires i < 64
    ensures |K| == |PRIMES| == 64 && FromCubeRoot(K[i], PRIMES[i]) && IsPrime(PRIMES[i])
    ensures forall q: nat | q < PRIMES[i] :: IsPrime(q) <==> q in PRIMES[..i]
  {
    hide FromCubeRoot, IsPrime;
    PrimesInOrder();
    AllCubes();
    hide K, PRIMES;
    assert PRIMES[i] in PRIMES;
  }

  /** Section 5.3.3: the initial value comes from the square roots of the first eight in the same way. */
  lemma InitialValueIsSquareRoots(i: nat)
    requires i < 8
    ensures |PRIMES| == 64 && FromSquareRoot(Nth(IV, i), PRIMES[i])
  {
    hide FromSquareRoot;
    assert P0[0] == 2 && P0[1] == 3 && P0[2] == 5 && P0[3] == 7 && P0[4] == 11;
    assert P0[5] == 13 && P0[6] == 17 && P0[7] == 19;
    assert PRIMES[i] == P0[i];
    hide PRIMES;
    Square(0x6a09e667, 2, 1);
    Square(0xbb67ae85, 3, 1);
    Square(0x3c6ef372, 5, 2);
    Square(0xa54ff53a, 7, 2);
    Square(0x510e527f, 11, 3);
    Square(0x9b05688c, 13, 3);
    Square(0x1f83d9ab, 17, 4);
    Square(0x5be0cd19, 19, 4);
  }

  // ---- The functions ----

  /** Bit `k` of a word, counted from the low end. */
  predicate Bit(x: Bits32, k: Place)
    requires k < 32
  {
    (x >> k) & 1 == 1
  }

  function Up(k: Place, n: Place): (p: Place)
    ensures k < 32 && n < 32 ==> p < 32
  {
    (k + n) % 32
  }

  /** The bits that go out at the low end, at the high end. */
  function Wrapped(x: Bits32, n: Place): Bits32
    requires 0 < n < 32
  {
    x << (32 - n)
  }

  lemma RotRParts(x: Bits32, n: Place)
    requires 0 < n < 32
    ensures RotR(x, n) == ShR(x, n) | Wrapped(x, n)
  {
  }

  lemma RotRRotates(x: Bits32, n: Place, k: Place)
    requires 0 < n < 32 && k < 32
    ensures Bit(RotR(x, n), k) == Bit(x, Up(k, n))
  {
    hide Bit, Up, RotR, ShR, Wrapped;
    RotRParts(x, n);
    ShiftBit(x, n, k);
    WrappedBit(x, n, k);
    OrBit(ShR(x, n), Wrapped(x, n), k);
    Around(k, n);
  }

  /** Upwards by `n`, around the word. */
  lemma Around(k: Place, n: Place)
    requires k < 32 && n < 32
    ensures Up(k, n) == if k + n < 32 then k + n else k + n - 32
  {
  }

  lemma OrBit(x: Bits32, y: Bits32, k: Place)
    requires k < 32
    ensures Bit(x | y, k) == (Bit(x, k) || Bit(y, k))
  {
  }

  lemma WrappedBit(x: Bits32, n: Place, k: Place)
    requires 0 < n < 32 && k < 32
    ensures Bit(Wrapped(x, n), k) == (32 <= k + n && Bit(x, k + n - 32))
  {
  }

  lemma XorBits(a: Bits32, b: Bits32, c: Bits32, k: Place)
    requires k < 32
    ensures Bit(a ^ b ^ c, k) == Odd3(Bit(a, k), Bit(b, k), Bit(c, k))
  {
  }

  lemma ShiftBit(x: Bits32, n: Place, k: Place)
    requires n < 32 && k < 32
    ensures Bit(ShR(x, n), k) == (k + n < 32 && Bit(x, k + n))
  {
  }

  predicate Odd3(a: bool, b: bool, c: bool) { (a != b) != c }

  lemma BigSigma0Bit(x: Bits32, k: Place)
    requires k < 32
    ensures Bit(BigSigma0(x), k) == Odd3(Bit(x, Up(k, 2)), Bit(x, Up(k, 13)), Bit(x, Up(k, 22)))
  {
    hide Bit, RotR, Up;
    RotRRotates(x, 2, k);
    RotRRotates(x, 13, k);
    RotRRotates(x, 22, k);
    XorBits(RotR(x, 2), RotR(x, 13), RotR(x, 22), k);
  }

  lemma BigSigma1Bit(x: Bits32, k: Place)
    requires k < 32
    ensures Bit(BigSigma1(x), k) == Odd3(Bit(x, Up(k, 6)), Bit(x, Up(k, 11)), Bit(x, Up(k, 25)))
  {
    hide Bit, RotR, Up;
    RotRRotates(x, 6, k);
    RotRRotates(x, 11, k);
    RotRRotates(x, 25, k);
    XorBits(RotR(x, 6), RotR(x, 11), RotR(x, 25), k);
  }

  lemma SmallSigma0Bit(x: Bits32, k: Place)
    requires k < 32
    ensures Bit(SmallSigma0(x), k) == Odd3(Bit(x, Up(k, 7)), Bit(x, Up(k, 18)), (k + 3 < 32 && Bit(x, k + 3)))
  {
    hide Bit, RotR, ShR, Up;
    RotRRotates(x, 7, k);
    RotRRotates(x, 18, k);
    ShiftBit(x, 3, k);
    XorBits(RotR(x, 7), RotR(x, 18), ShR(x, 3), k);
  }

  lemma SmallSigma1Bit(x: Bits32, k: Place)
    requires k < 32
    ensures Bit(SmallSigma1(x), k) == Odd3(Bit(x, Up(k, 17)), Bit(x, Up(k, 19)), (k + 10 < 32 && Bit(x, k + 10)))
  {
    hide Bit, RotR, ShR, Up;
    RotRRotates(x, 17, k);
    RotRRotates(x, 19, k);
    ShiftBit(x, 10, k);
    XorBits(RotR(x, 17), RotR(x, 19), ShR(x, 10), k);
  }

  lemma LogicBits(x: Bits32, y: Bits32, k: Place)
    requires k < 32
    ensures Bit(x & y, k) == (Bit(x, k) && Bit(y, k))
    ensures Bit(!x, k) == !Bit(x, k)
    ensures Bit(x ^ y, k) == (Bit(x, k) != Bit(y, k))
  {
  }

  /** Where `x` has ones Ch is `y`, where it has zeros it is `z`. */
  lemma ChSelects(x: Bits32, y: Bits32, z: Bits32)
    ensures Ch(x, y, z) & x == y & x && Ch(x, y, z) & !x == z & !x
  {
  }

  /** Where `x` and `y` agree Maj is theirs, elsewhere `z` decides. */
  lemma MajTakesMajority(x: Bits32, y: Bits32, z: Bits32)
    ensures Maj(x, y, z) & !(x ^ y) == x & !(x ^ y) && Maj(x, y, z) & (x ^ y) == z & (x ^ y)
  {
  }

  // ---- The length field ----

  function BigEndianValue(b: seq<Byte>): nat {
    if b == [] then 0 else 256 * BigEndianValue(b[..|b| - 1]) + b[|b| - 1]
  }


  /** The length field is the number of bits, as a big-endian number of 64 bits. */
  lemma LengthFieldValue(bits: nat)
    ensures BigEndianValue(Length64(bits)) == bits % 0x1_0000_0000_0000_0000
  {
    hide BigEndianValue, LengthByte, Above;
    var b := Length64(bits);
    Prefix(b, 1, bits, 0x100_0000_0000_0000, 1);
    Prefix(b, 2, bits, 0x1_0000_0000_0000, 0x100);
    Prefix(b, 3, bits, 0x100_0000_0000, 0x1_0000);
    Prefix(b, 4, bits, 0x1_0000_0000, 0x100_0000);
    Prefix(b, 5, bits, 0x100_0000, 0x1_0000_0000);
    Prefix(b, 6, bits, 0x1_0000, 0x100_0000_0000);
    Prefix(b, 7, bits, 0x100, 0x1_0000_0000_0000);
    Prefix(b, 8, bits, 1, 0x100_0000_0000_0000);
    assert b[..8] == b;
    AboveOne(bits);
  }

  function Above(bits: nat, unit: nat): nat
    requires 0 < unit
  {
    bits / unit
  }

  lemma AboveOne(bits: nat)
    ensures Above(bits, 1) == bits
  {
  }

  /** One byte more of a big-endian number. */
  lemma Prefix(b: seq<Byte>, k: nat, bits: nat, unit: nat, m: nat)
    requires 0 < k <= |b| && 0 < m && 0 < unit && b[k - 1] == LengthByte(bits, unit)
    requires if k == 1 then m == 1 else BigEndianValue(b[..k - 1]) == Above(bits, 256 * unit) % m
    ensures BigEndianValue(b[..k]) == Above(bits, unit) % (256 * m)
  {
    assert b[..k][..k - 1] == b[..k - 1];
    if k > 1 {
      NextUnit(bits, unit);
      Higher(Above(bits, unit), m);
    }
  }

  lemma NextUnit(bits: nat, unit: nat)
    requires 0 < unit
    ensures Above(bits, 256 * unit) == Above(bits, unit) / 256
  {
    var q, r := bits / unit, bits % unit;
    Scaled(q, unit, q / 256, q % 256);
    Arith.MulMonotone(unit, q % 256, 255);
    Arith.DivUnique(bits, 256 * unit, q / 256, (q % 256) * unit + r);
  }

  /** n == q * unit + r in larger units. */
  lemma Scaled(q: nat, unit: nat, a: nat, s: nat)
    requires q == a * 256 + s
    ensures q * unit == a * (256 * unit) + s * unit && 0 <= s * unit
  {
  }

  lemma Higher(n: nat, m: nat)
    requires 0 < m
    ensures 256 * (n / 256 % m) + n % 256 == n % (256 * m)
  {
    var q, r := n / 256, n % 256;
    var a, s := q / m, q % m;
    Times256(a, m, s);
    assert n == a * (256 * m) + (256 * s + r);
    Arith.DivUnique(n, 256 * m, a, 256 * s + r);
  }

  lemma Times256(a: nat, m: nat, s: nat)
    ensures 256 * (a * m + s) == a * (256 * m) + 256 * s
  {
  }
}
