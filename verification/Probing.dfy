/** The probe sequence of the hash table: triangular steps modulo a power of two. */
module Probing {
  import opened Arithmetic

  /** `x & (size - 1)`, for a size that is a power of two. */
  function Masked(x: nat, size: nat): (y: nat)
    requires size > 0
    ensures y < size
  {
    x % size
  }

  /** The slot after `t` probes from `start`: the step grows by one each time. */
  function Probe(start: nat, t: nat, size: nat): (i: nat)
    requires start < size
    ensures i < size
  {
    if t == 0 then start else Masked(Probe(start, t - 1, size) + t, size)
  }

  function Triangle(t: nat): nat {
    if t == 0 then 0 else Triangle(t - 1) + t
  }

  lemma MaskedSmall(a: nat, m: nat)
    requires a < m
    ensures Masked(a, m) == a
  {
    QuotientUnique(a, m, 0);
    DivMod(a, m);
  }

  lemma MaskedAdd(a: nat, b: nat, m: nat)
    requires m > 0
    ensures Masked(Masked(a, m) + b, m) == Masked(a + b, m)
  {
    DivMod(a, m);
    DivMod(a % m + b, m);
    var q := a / m + (a % m + b) / m;
    var r := (a % m + b) % m;
    assert m * q == m * (a / m) + m * ((a % m + b) / m);
    assert a + b == m * q + r;
    QuotientUnique(a + b, m, q);
    DivMod(a + b, m);
  }

  lemma {:induction false} ProbeIsTriangle(start: nat, t: nat, size: nat)
    requires start < size
    ensures Probe(start, t, size) == Masked(start + Triangle(t), size)
  {
    hide Masked;
    if t == 0 {
      MaskedSmall(start, size);
    } else {
      ProbeIsTriangle(start, t - 1, size);
      MaskedAdd(start + Triangle(t - 1), t, size);
    }
  }

  lemma {:induction false} TriangleDouble(t: nat)
    ensures 2 * Triangle(t) == t * (t + 1)
  {
    if t > 0 {
      TriangleDouble(t - 1);
      assert t * (t + 1) == (t - 1) * t + 2 * t;
    }
  }

  /** The slot after `t` probes, without recursion. */
  lemma ProbeIs(start: nat, t: nat, size: nat)
    requires start < size
    ensures Probe(start, t, size) == (start + t * (t + 1) / 2) % size
  {
    ProbeIsTriangle(start, t, size);
    TriangleDouble(t);
  }

  /** Equal remainders: the difference is a multiple. */
  lemma SameRemainder(a: nat, b: nat, m: nat) returns (q: nat)
    requires m > 0 && a <= b && a % m == b % m
    ensures b - a == m * q
  {
    DivMod(a, m);
    DivMod(b, m);
    Product(m, b / m, a / m);
    q := b / m - a / m;
    assert m * q == m * (b / m) - m * (a / m);
  }

  /** If an odd number times `n` is a multiple of 2^k, then so is `n`. */
  lemma {:induction false} OddFactor(k: nat, m: nat, n: nat, q: nat) returns (r: nat)
    requires m % 2 == 1 && m * n == Pow2(k) * q
    ensures n == Pow2(k) * r
  {
    if k == 0 {
      r := n;
    } else {
      var p := Pow2(k - 1);
      assert Pow2(k) == 2 * p;
      hide Pow2;
      OddHalf(m, n, p, q);
      r := OddFactor(k - 1, m, n / 2, q);
      DoubleProduct(p, r);
    }
  }

  lemma OddHalf(m: nat, n: nat, p: nat, q: nat)
    requires m % 2 == 1 && m * n == (2 * p) * q
    ensures n % 2 == 0 && m * (n / 2) == p * q
  {
    DoubleProduct(p, q);
    OddTimes(m, n);
    assert m * (2 * (n / 2)) == 2 * (m * (n / 2));
  }

  lemma OddTimes(m: nat, n: nat)
    requires m % 2 == 1
    ensures (m * n) % 2 == n % 2
  {
    assert m * n == 2 * ((m / 2) * n) + n;
  }

  /** Different probes below 2^k hit different slots. */
  lemma ProbeInjective(start: nat, a: nat, b: nat, k: nat)
    requires start < Pow2(k) && a < b < Pow2(k)
    ensures Probe(start, a, Pow2(k)) != Probe(start, b, Pow2(k))
  {
    var size := Pow2(k);
    if Probe(start, a, size) == Probe(start, b, size) {
      ProbeIsTriangle(start, a, size);
      ProbeIsTriangle(start, b, size);
      TriangleMonotone(a, b);
      var q := SameRemainder(start + Triangle(a), start + Triangle(b), size);
      NotMultiple(a, b, k, q);
    }
  }

  lemma {:induction false} TriangleMonotone(a: nat, b: nat)
    requires a <= b
    ensures Triangle(a) <= Triangle(b)
    decreases b
  {
    if a < b {
      TriangleMonotone(a, b - 1);
    }
  }

  lemma TriangleDifference(a: nat, b: nat)
    requires a <= b
    ensures (b - a) * (b + a + 1) == 2 * (Triangle(b) - Triangle(a))
  {
    TriangleDouble(a);
    TriangleDouble(b);
    assert (b - a) * (b + a + 1) == b * (b + 1) - a * (a + 1);
  }

  lemma NoSmallMultiple(n: nat, m: nat, r: nat)
    requires 0 < n < m
    ensures n != m * r
  {
    Product(m, 0, r);
  }

  /** Of two numbers below 2^k, one of them odd, the product is no multiple of 2^k. */
  lemma OddAndSmall(k: nat, d: nat, e: nat, q: nat)
    requires d % 2 == 1 && 0 < e < Pow2(k)
    ensures d * e != Pow2(k) * q
  {
    hide Pow2;
    if d * e == Pow2(k) * q {
      var r := OddFactor(k, d, e, q);
      NoSmallMultiple(e, Pow2(k), r);
    }
  }

  lemma HalfProduct(k: nat, d: nat, e: nat, half: nat, q: nat)
    requires d * e == 2 * half && 0 < d < Pow2(k + 1) && 0 < e < Pow2(k + 1) && (d % 2 == 1 || e % 2 == 1)
    ensures half != Pow2(k) * q
  {
    DoubleProduct(Pow2(k), q);
    assert Pow2(k + 1) == 2 * Pow2(k);
    hide Pow2;
    if d % 2 == 1 {
      OddAndSmall(k + 1, d, e, q);
    } else {
      Product(d, e, 0);
      OddAndSmall(k + 1, e, d, q);
    }
  }

  /** Triangle(b) - Triangle(a) = (b - a)(b + a + 1) / 2: one factor is odd, the other below 2^(k+1). */
  lemma NotMultiple(a: nat, b: nat, k: nat, q: nat)
    requires a < b < Pow2(k)
    ensures Triangle(b) - Triangle(a) != Pow2(k) * q
  {
    TriangleDifference(a, b);
    TriangleMonotone(a, b);
    Parity(a, b);
    assert Pow2(k + 1) == 2 * Pow2(k);
    hide Triangle, Pow2;
    HalfProduct(k, b - a, b + a + 1, Triangle(b) - Triangle(a), q);
  }

  lemma Parity(a: nat, b: nat)
    requires a < b
    ensures (b - a) % 2 == 1 || (b + a + 1) % 2 == 1
  {
  }

  lemma DoubleProduct(p: nat, q: nat)
    ensures (2 * p) * q == 2 * (p * q)
  {
  }

  // ---------------------------------------------------------------- every slot is visited

  ghost function UpTo(n: nat): (s: set<nat>)
    ensures |s| == n && forall i: nat :: i in s <==> i < n
  {
    if n == 0 then {} else UpTo(n - 1) + {n - 1}
  }

  lemma SubsetSize(a: set<nat>, b: set<nat>)
    requires a <= b
    ensures |a| <= |b| && (|a| == |b| ==> a == b)
  {
    assert b == a + (b - a);
  }

  ghost function Visited(start: nat, n: nat, size: nat): set<nat>
    requires start < size
  {
    set t: nat | t < n :: Probe(start, t, size)
  }

  lemma {:induction false} VisitedSize(start: nat, n: nat, k: nat)
    requires start < Pow2(k) && n <= Pow2(k)
    ensures |Visited(start, n, Pow2(k))| == n
  {
    hide Probe, Pow2;
    if n > 0 {
      VisitedSize(start, n - 1, k);
      var size := Pow2(k);
      forall t: nat | t < n - 1
        ensures Probe(start, t, size) != Probe(start, n - 1, size)
      {
        ProbeInjective(start, t, n - 1, k);
      }
      assert Visited(start, n, size) == Visited(start, n - 1, size) + {Probe(start, n - 1, size)};
    }
  }

  /** Within 2^k probes every one of the 2^k slots is visited. */
  lemma EverySlotVisited(start: nat, j: nat, k: nat) returns (t: nat)
    requires start < Pow2(k) && j < Pow2(k)
    ensures t < Pow2(k) && Probe(start, t, Pow2(k)) == j
  {
    hide Probe, Pow2;
    var size := Pow2(k);
    VisitedSize(start, size, k);
    SubsetSize(Visited(start, size, size), UpTo(size));
    assert j in Visited(start, size, size);
    t :| t < size && Probe(start, t, size) == j;
  }
}
