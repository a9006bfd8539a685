/** Division, multiplication and powers of two. */
module Arithmetic {

  lemma DivMod(x: nat, d: nat)
    requires d > 0
    ensures x == d * (x / d) + x % d && 0 <= x % d < d && x / d >= 0
  {
  }

  lemma Product(d: nat, a: nat, b: nat)
    ensures a < b ==> d * a + d <= d * b
    ensures d * a == a * d
  {
    if a < b {
      var c: nat := b - a - 1;
      assert d * (a + 1 + c) == d * a + d + d * c;
    }
  }

  lemma QuotientUnique(x: nat, d: nat, q: nat)
    requires d > 0
    requires d * q <= x < d * q + d
    ensures x / d == q
  {
    DivMod(x, d);
    Product(d, x / d, q);
    Product(d, q, x / d);
  }

  function Pow2(k: nat): (p: nat)
    ensures p >= 1
  {
    if k == 0 then 1 else 2 * Pow2(k - 1)
  }

  lemma {:induction false} Pow2Add(j: nat, k: nat)
    ensures Pow2(j + k) == Pow2(j) * Pow2(k)
  {
    if j > 0 {
      Pow2Add(j - 1, k);
      assert Pow2(j + k) == 2 * (Pow2(j - 1) * Pow2(k)) == (2 * Pow2(j - 1)) * Pow2(k);
    }
  }

  lemma Pow2Monotone(j: nat, k: nat)
    requires j <= k
    ensures Pow2(j) <= Pow2(k)
    decreases k - j
  {
    if j < k {
      Pow2Monotone(j, k - 1);
    }
  }

  lemma Pow2Is64()
    ensures Pow2(64) == 0x1_0000_0000_0000_0000
  {
    Pow2Is16();
    hide Pow2;
    Pow2Add(16, 16);
    Pow2Add(32, 32);
  }

  lemma Pow2Is16()
    ensures Pow2(16) == 65536
  {
    assert Pow2(4) == 16;
    Pow2Add(4, 4);
    Pow2Add(8, 8);
  }
}
