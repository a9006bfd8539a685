/** How many bytes go to a device at once: memory_access_size. */
module AccessSizes {
  import opened Arithmetic

  const TWO31: nat := 0x8000_0000
  const TWO32: nat := 0x1_0000_0000

  /** What memory_access_size looks at in a region's operations. */
  datatype Ops = Ops(maxAccessSize: nat, unaligned: bool)

  predicate IsPow2(n: nat) {
    n == 1 || (n > 1 && n % 2 == 0 && IsPow2(n / 2))
  }

  /** The largest power of two that is at most `n`, 0 for 0. */
  function Pow2Floor(n: nat): (p: nat)
    ensures n > 0 ==> IsPow2(p) && p <= n < 2 * p
    ensures n == 0 ==> p == 0
  {
    if n <= 1 then n else 2 * Pow2Floor(n / 2)
  }

  /** The lowest set bit: `n & -n`. */
  function LowBit(n: nat): (b: nat)
    ensures n > 0 ==> b > 0 && IsPow2(b) && n % b == 0
  {
    if n == 0 then 0 else if n % 2 == 1 then 1 else
      var h := LowBit(n / 2);
      LowBitDouble(n, h);
      2 * h
  }

  lemma LowBitDouble(n: nat, h: nat)
    requires h > 0 && n % 2 == 0 && (n / 2) % h == 0
    ensures n % (2 * h) == 0
  {
    DivMod(n / 2, h);
    assert n == (2 * h) * ((n / 2) / h);
    QuotientUnique(n, 2 * h, (n / 2) / h);
    DivMod(n, 2 * h);
  }

  lemma {:induction false} Pow2Divides(p: nat, q: nat)
    requires IsPow2(p) && IsPow2(q) && p <= q
    ensures q % p == 0
  {
    if p > 1 {
      Pow2Divides(p / 2, q / 2);
      LowBitDouble(q, p / 2);
    }
  }

  lemma DividesTrans(a: nat, q: nat, p: nat)
    requires p > 0 && q > 0 && a % q == 0 && q % p == 0
    ensures a % p == 0
  {
    DivMod(a, q);
    DivMod(q, p);
    var m, n := a / q, q / p;
    assert a == p * (n * m) by {
      assert a == (p * n) * m;
    }
    QuotientUnique(a, p, n * m);
    DivMod(a, p);
  }

  /** A length cut to 32 bits. */
  function Low32(n: nat): (r: nat)
    ensures r < TWO32 && r <= n && (n < TWO32 ==> r == n)
  {
    n % TWO32
  }

  /** The largest access that a region takes: 4 bytes unless it says otherwise. */
  function MaxSize(ops: Ops): nat {
    if ops.maxAccessSize == 0 then 4 else ops.maxAccessSize
  }

  /** memory_access_size. The length and the alignment are truncated to 32 bits on the way, and the
      size is returned as an int. */
  function AccessSize(ops: Ops, l: nat, addr: nat): (size: nat)
    requires ops.maxAccessSize < TWO31
    ensures size < TWO31
  {
    var align := Low32(LowBit(addr));
    var max := if !ops.unaligned && align != 0 && align < MaxSize(ops) then align else MaxSize(ops);
    Pow2Floor(if Low32(l) > max then max else Low32(l))
  }

  lemma AccessBounds(ops: Ops, l: nat, addr: nat)
    requires Low32(l) > 0 && ops.maxAccessSize < TWO31
    ensures var size := AccessSize(ops, l, addr);
            0 < size <= Low32(l) && IsPow2(size) && size <= MaxSize(ops) && (!ops.unaligned && addr > 0 ==> size <= LowBit(addr))
  {
    hide IsPow2, LowBit, Pow2Floor, Low32;
  }

  /** Unless the length is a multiple of 2^32, an access is a power of two, no longer than the
      truncated length and than the region allows, and unless the region takes unaligned accesses
      it is naturally aligned. */
  lemma AccessSizeOk(ops: Ops, l: nat, addr: nat)
    requires Low32(l) > 0 && ops.maxAccessSize < TWO31
    ensures var size := AccessSize(ops, l, addr);
            0 < size <= Low32(l) && IsPow2(size) && size <= MaxSize(ops) && (!ops.unaligned ==> Aligned(addr, size))
  {
    AccessBounds(ops, l, addr);
    hide AccessSize, IsPow2, LowBit;
    var size := AccessSize(ops, l, addr);
    if addr == 0 {
      QuotientUnique(0, size, 0);
      DivMod(0, size);
    } else if !ops.unaligned {
      Pow2Divides(size, LowBit(addr));
      DividesTrans(addr, LowBit(addr), size);
    }
  }

  /** At a multiple of 2^32 the access does nothing. */
  lemma NoAccess(ops: Ops, l: nat, addr: nat)
    requires Low32(l) == 0 && ops.maxAccessSize < TWO31
    ensures AccessSize(ops, l, addr) == 0
  {
    hide LowBit;
  }

  lemma {:induction false} Pow2FloorLargest(n: nat, p: nat)
    requires IsPow2(p) && p <= n
    ensures p <= Pow2Floor(n)
  {
    if p > 1 {
      Pow2FloorLargest(n / 2, p / 2);
    }
  }

  lemma HalfDivides(n: nat, p: nat)
    requires p > 1 && p % 2 == 0 && n % p == 0
    ensures n % 2 == 0 && (n / 2) % (p / 2) == 0
  {
    DivMod(n, p);
    assert n == 2 * ((p / 2) * (n / p));
    QuotientUnique(n / 2, p / 2, n / p);
    DivMod(n / 2, p / 2);
  }

  lemma {:induction false} LowBitLargest(n: nat, p: nat)
    requires IsPow2(p) && n > 0 && n % p == 0
    ensures p <= LowBit(n)
  {
    if p > 1 {
      HalfDivides(n, p);
      LowBitLargest(n / 2, p / 2);
    }
  }

  lemma {:induction false} PowersAre(k: nat)
    ensures IsPow2(Pow2(k))
  {
    if k > 0 {
      PowersAre(k - 1);
    }
  }

  /** A lowest bit above the 32nd is cut off, and then sets no bound. */
  lemma HighBitCut(b: nat)
    requires IsPow2(b) && b >= TWO32
    ensures b % TWO32 == 0
  {
    assert Pow2(32) == TWO32 by {
      Pow2Is16();
      hide Pow2;
      Pow2Add(16, 16);
    }
    PowersAre(32);
    hide Pow2;
    Pow2Divides(TWO32, b);
  }

  predicate Aligned(addr: nat, p: nat) {
    p > 0 && addr % p == 0
  }

  /** The truncated lowest bit of an address allows every power of two that the address is aligned to. */
  lemma AlignAllows(addr: nat, p: nat)
    requires IsPow2(p) && Aligned(addr, p)
    ensures Low32(LowBit(addr)) != 0 ==> p <= Low32(LowBit(addr))
  {
    if addr > 0 {
      LowBitLargest(addr, p);
      hide IsPow2, LowBit, Aligned;
      if LowBit(addr) >= TWO32 {
        HighBitCut(LowBit(addr));
      }
    }
  }

  /** ... and it is the largest such access. */
  lemma AccessLargest(ops: Ops, l: nat, addr: nat, p: nat)
    requires Low32(l) > 0 && ops.maxAccessSize < TWO31
    requires IsPow2(p) && p <= Low32(l) && p <= MaxSize(ops) && (!ops.unaligned ==> Aligned(addr, p))
    ensures p <= AccessSize(ops, l, addr)
  {
    hide IsPow2, LowBit, Pow2Floor, Aligned, Low32;
    if !ops.unaligned {
      AlignAllows(addr, p);
    }
    var align := Low32(LowBit(addr));
    var max := if !ops.unaligned && align != 0 && align < MaxSize(ops) then align else MaxSize(ops);
    Pow2FloorLargest(if Low32(l) > max then max else Low32(l), p);
  }

  // ---------------------------------------------------------------- in numbers

  /** The powers of two are 1, 2, 4 and so on. */
  lemma {:induction false} IsPow2Is(n: nat)
    ensures IsPow2(n) <==> exists k: nat :: n == Pow2(k)
  {
    if IsPow2(n) {
      if n == 1 {
        assert n == Pow2(0);
      } else {
        IsPow2Is(n / 2);
        var k: nat :| n / 2 == Pow2(k);
        assert n == Pow2(k + 1);
      }
    }
    if k: nat :| n == Pow2(k) {
      PowersAre(k);
    }
  }

  /** A region that says nothing takes accesses of up to 4 bytes, and of 4 where length and address
      allow it. */
  lemma DefaultAccess(ops: Ops, l: nat, addr: nat)
    requires ops.maxAccessSize == 0
    ensures AccessSize(ops, l, addr) <= 4
    ensures l % 0x1_0000_0000 >= 4 && (ops.unaligned || addr % 4 == 0) ==> AccessSize(ops, l, addr) == 4
  {
    if l % 0x1_0000_0000 > 0 {
      AccessSizeOk(ops, l, addr);
    }
    if l % 0x1_0000_0000 >= 4 && (ops.unaligned || addr % 4 == 0) {
      AccessLargest(ops, l, addr, 4);
    }
  }

  /** A region that allows `m` bytes takes the largest power of two up to `m` where length and address
      allow it, and never more than `m`. */
  lemma MaximumAccess(ops: Ops, l: nat, addr: nat, k: nat)
    requires 0 < ops.maxAccessSize < TWO31 && Pow2(k) <= ops.maxAccessSize < 2 * Pow2(k)
    ensures AccessSize(ops, l, addr) <= ops.maxAccessSize
    ensures l % 0x1_0000_0000 >= Pow2(k) && (ops.unaligned || addr % Pow2(k) == 0) ==> AccessSize(ops, l, addr) == Pow2(k)
  {
    PowersAre(k);
    hide Pow2;
    if l % 0x1_0000_0000 > 0 {
      AccessSizeOk(ops, l, addr);
    }
    if l % 0x1_0000_0000 >= Pow2(k) && (ops.unaligned || addr % Pow2(k) == 0) {
      AccessLargest(ops, l, addr, Pow2(k));
      OnePower(AccessSize(ops, l, addr), Pow2(k));
    }
  }

  /** Between a power of two and its double there is no other. */
  lemma {:induction false} OnePower(p: nat, q: nat)
    requires IsPow2(p) && IsPow2(q) && q <= p < 2 * q
    ensures p == q
  {
    if q > 1 {
      OnePower(p / 2, q / 2);
    }
  }

  /** A shorter length, or an address that is not aligned, takes the largest power of two that they allow. */
  lemma SmallAccess(ops: Ops, l: nat, addr: nat, k: nat)
    requires ops.maxAccessSize < TWO31 && Pow2(k) <= l % 0x1_0000_0000 && Pow2(k) <= (if ops.maxAccessSize == 0 then 4 else ops.maxAccessSize)
    requires ops.unaligned || addr % Pow2(k) == 0
    requires l % 0x1_0000_0000 < 2 * Pow2(k) || (!ops.unaligned && addr % (2 * Pow2(k)) != 0)
    ensures AccessSize(ops, l, addr) == Pow2(k)
  {
    PowersAre(k);
    PowersAre(k + 1);
    var p, q, size := Pow2(k), Pow2(k + 1), AccessSize(ops, l, addr);
    assert q == 2 * p;
    hide Pow2, AccessSize, IsPow2, Aligned;
    AccessSizeOk(ops, l, addr);
    assert (!ops.unaligned ==> Aligned(addr, p)) by { AlignedIs(addr, p); }
    AccessLargest(ops, l, addr, p);
    if size < q {
      OnePower(size, p);
    } else {
      assert !ops.unaligned;
      SmallerAligned(addr, size, q);
    }
  }

  lemma AlignedIs(addr: nat, p: nat)
    requires p > 0
    ensures Aligned(addr, p) <==> addr % p == 0
  {
  }

  lemma SmallerAligned(addr: nat, p: nat, q: nat)
    requires IsPow2(p) && IsPow2(q) && q <= p && Aligned(addr, p)
    ensures addr % q == 0
  {
    Pow2Divides(q, p);
    DividesTrans(addr, p, q);
  }
}
