/** Quotients and remainders of variable divisors. */
module Arith {
  function Quot(a: nat, d: nat): nat
    requires d > 0
  {
    a / d
  }

  function Rem(a: nat, d: nat): (r: nat)
    requires d > 0
    ensures r < d
  {
    a % d
  }

  lemma Assoc(x: nat, y: nat, z: nat)
    ensures x * (y * z) == x * y * z
  { }

  lemma DivUnique(a: nat, d: nat, q: nat, r: nat)
    requires a == q * d + r && r < d
    ensures a / d == q && a % d == r
  {
    var p := a / d;
    assert a == p * d + a % d;
    Between(p, q, d, a % d, r);
  }

  lemma Between(p: nat, q: nat, d: nat, x: nat, y: nat)
    requires p * d + x == q * d + y && x < d && y < d
    ensures p == q && x == y
  {
    Above(p, q, d);
    Above(q, p, d);
  }

  lemma Above(p: nat, q: nat, d: nat)
    ensures p < q ==> p * d + d <= q * d
  {
    if p < q {
      var k := q - p - 1;
      assert q * d == (p + 1 + k) * d == p * d + d + k * d;
    }
  }

  /** Moving on inside one block changes the offset only. */
  lemma SameBlock(a: nat, i: nat, c: nat)
    requires c > 0 && Rem(a, c) + i < c
    ensures Quot(a + i, c) == Quot(a, c) && Rem(a + i, c) == Rem(a, c) + i
  {
    DivUnique(a + i, c, a / c, a % c + i);
  }
}
