/** The few facts about division that several modules need. */
module Arith {

  lemma DivUnique(x: nat, d: nat, q: nat, r: nat)
    requires 0 < d && r < d && x == q * d + r
    ensures x / d == q && x % d == r
  {
    var k := q - x / d;
    assert k * d == x % d - r by {
      assert x == x / d * d + x % d && k * d == q * d - x / d * d;
    }
  }

  lemma DivFloor(x: nat, d: nat)
    requires 0 < d
    ensures x / d * d <= x < x / d * d + d
  {
  }

  lemma MulMonotone(a: nat, b: nat, c: nat)
    requires b <= c
    ensures a * b <= a * c
  {
  }

  lemma AddMod(a: nat, b: nat, m: nat)
    requires 0 < m
    ensures (a % m + b) % m == (a + b) % m
  {
    var q, x := a / m, a % m + b;
    assert a + b == q * m + x == (q + x / m) * m + x % m;
    DivUnique(a + b, m, q + x / m, x % m);
  }
}
