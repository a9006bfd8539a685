/** Ranges of addresses over a list of regions: overlap, coverage, and cutting regions apart. */
module MemoryRanges {
  import opened Arithmetic
  import opened Regions

  /** The array of region pointers grows by this many slots. */
  const MEM_BLOCK_INCR: nat := 32

  /** `n` rounded up to whole increments. */
  ghost function RoundedUp(n: nat): nat {
    (n + 31) / 32 * 32
  }

  /** Address `a` is one of the `size` addresses from `address` on, where the last address is
      followed by 0. */
  ghost predicate InRange(a: int, address: nat, size: nat) {
    address <= a < address + size || (0 <= a && a + U64 < address + size)
  }

  /** The range is the addresses that counting from `address` on reaches, modulo 2^64. */
  lemma RangeIs(address: nat, size: nat, k: nat)
    requires address < U64 && k < size < U64
    ensures InRange((address + k) % 0x1_0000_0000_0000_0000, address, size)
  {
    NextAddress(address, k);
  }

  lemma RangeOnly(address: nat, size: nat, a: nat) returns (k: nat)
    requires address < U64 && size < U64 && a < U64 && InRange(a, address, size)
    ensures k < size && a == (address + k) % 0x1_0000_0000_0000_0000
  {
    k := if a >= address then a - address else a + U64 - address;
    NextAddress(address, k);
  }

  /** Where `address` goes among the regions: all before it end at or below the address, and the
      region there, if any, ends above it. */
  ghost predicate IsPlace(bs: seq<Region>, address: nat, pos: nat) {
    && pos <= |bs|
    && (forall i :: 0 <= i < pos ==> bs[i].Limit() <= address)
    && (forall i :: pos <= i < |bs| ==> address < bs[i].Limit())
  }

  lemma PlaceUnique(bs: seq<Region>, address: nat, p: nat, q: nat)
    requires IsPlace(bs, address, p) && IsPlace(bs, address, q)
    ensures p == q
  {
    assert p < |bs| ==> address < bs[p].Limit();
    assert q < |bs| ==> address < bs[q].Limit();
  }

  /** An address that has a place is mapped exactly when the region there starts at or below it. */
  lemma PlaceView(bs: seq<Region>, page: nat, address: nat, pos: nat)
    requires AllOk(bs, page) && Ordered(bs) && IsPlace(bs, address, pos)
    ensures View(bs, page, address) != Unmapped <==> pos < |bs| && bs[pos].addr <= address
    ensures pos < |bs| && bs[pos].addr <= address ==> bs[pos].Has(address)
  {
    hide OnPage, View;
    ViewNone(bs, page, address);
    if pos < |bs| && bs[pos].addr <= address {
      assert bs[pos].Has(address);
    } else {
      assert forall i :: pos < i < |bs| ==> bs[pos].Limit() <= bs[i].addr;
    }
  }

  function Zeros(n: nat): (s: seq<bv8>)
    ensures |s| == n && forall i :: 0 <= i < n ==> s[i] == 0
  {
    seq(n, _ => 0)
  }

  /** The new list has exactly one more region, and every address outside it sees what it saw. */
  ghost predicate MappedAs(bs: seq<Region>, cs: seq<Region>, page: nat, r: Region) {
    && AllOk(bs, page) && AllOk(cs, page) && RegionOk(r, page) && |cs| == |bs| + 1
    && (forall a :: View(cs, page, a) == if r.Has(a) then CellOf(r, a) else View(bs, page, a))
    && TopAddr(cs) == (if r.Top() then r.addr else TopAddr(bs))
    && r in cs && forall x :: x in bs ==> x in cs
  }

  ghost predicate AllMapped(bs: seq<Region>, page: nat, address: nat, size: nat)
    requires AllOk(bs, page)
  {
    forall a :: 0 <= a < U64 && InRange(a, address, size) ==> View(bs, page, a) != Unmapped
  }

  /** memory_region_len, for a region without containers. */
  function RegionLen(mr: Region, address: nat, count: nat): nat {
    var rest := (mr.End() + U64 - address % U64) % U64;
    if count < rest then count else rest
  }

  /** What a new region does to every address. */
  lemma MappedMeans(bs: seq<Region>, cs: seq<Region>, page: nat, r: Region)
    requires MappedAs(bs, cs, page, r)
    ensures forall a :: !(r.addr <= a < r.addr + r.size) ==> View(cs, page, a) == View(bs, page, a)
    ensures forall a :: r.addr <= a < r.addr + r.size ==> View(cs, page, a).Mapped? && View(cs, page, a).perms == r.perms
    ensures r.backing.Host? ==> forall a :: r.addr <= a < r.addr + r.size ==> View(cs, page, a).source == HostByte(r.backing.ptr + (a - r.addr))
    ensures r.backing == Own(Zeros(r.size)) ==> forall a :: r.addr <= a < r.addr + r.size ==> View(cs, page, a).source == Byte(0)
  {
    hide View, OnPage, AllOk;
  }

  lemma RegionLenIs(mr: Region, page: nat, address: nat, count: nat)
    requires RegionOk(mr, page) && mr.Has(address)
    ensures RegionLen(mr, address, count) == if count < mr.Limit() - address then count else mr.Limit() - address
  {
    hide OnPage;
    if mr.Top() {
      assert mr.End() == 0;
    } else {
      assert mr.End() == mr.Limit();
      assert (mr.End() + U64 - address) % U64 == mr.End() - address;
    }
  }

  lemma RangeStart(bs: seq<Region>, page: nat, address: nat)
    requires AllOk(bs, page) && address < U64
    ensures AllMapped(bs, page, address, 0)
  {
  }

  /** The address after the first `count` of the range. */
  lemma NextAddress(address: nat, count: nat)
    requires address < U64 && count < U64
    ensures (address + count) % U64 == if address + count < U64 then address + count else address + count - U64
  {
  }

  lemma Advance(address: nat, count: nat, len: nat)
    requires address < U64 && count + len < U64
    ensures ((address + count) % U64 + len) % U64 == (address + count + len) % U64
  {
    NextAddress(address, count);
    NextAddress(address, count + len);
    if address + count >= U64 {
      NextAddress(address + count - U64, len);
    }
  }

  lemma NotAllMapped(bs: seq<Region>, page: nat, address: nat, count: nat, size: nat)
    requires AllOk(bs, page) && address < U64 && count < size < U64 && View(bs, page, (address + count) % U64) == Unmapped
    ensures !AllMapped(bs, page, address, size)
  {
    NextAddress(address, count);
    assert InRange((address + count) % U64, address, size);
  }

  lemma RangeMore(bs: seq<Region>, page: nat, address: nat, count: nat, len: nat, i: nat)
    requires AllOk(bs, page) && Ordered(bs) && address < U64 && count + len < U64 && AllMapped(bs, page, address, count)
    requires i < |bs| && bs[i].Has((address + count) % U64) && (address + count) % U64 + len <= bs[i].Limit()
    ensures AllMapped(bs, page, address, count + len)
  {
    hide OnPage, View;
    NextAddress(address, count);
    forall a | 0 <= a < U64 && InRange(a, address, count + len)
      ensures View(bs, page, a) != Unmapped
    {
      if !InRange(a, address, count) {
        assert bs[i].Has(a);
        ViewNone(bs, page, a);
      }
    }
  }

  lemma NoWrap(address: nat, size: nat)
    requires address < U64 && 0 < size < U64
    ensures (address + size - 1) % U64 < address <==> address + size > U64
  {
    if address + size > U64 {
      assert (address + size - 1) % U64 == address + size - 1 - U64;
    } else {
      assert (address + size - 1) % U64 == address + size - 1;
    }
  }

  lemma RoundedStep(n: nat)
    ensures n <= RoundedUp(n) < n + 32 && RoundedUp(n) % 32 == 0
    ensures n % MEM_BLOCK_INCR == 0 ==> RoundedUp(n + 1) == n + MEM_BLOCK_INCR
    ensures n % MEM_BLOCK_INCR != 0 ==> RoundedUp(n + 1) == RoundedUp(n) && n < RoundedUp(n)
  {
  }

  lemma RoundedLess(n: nat, k: nat)
    requires n <= k
    ensures RoundedUp(n) <= RoundedUp(k)
  {
  }

  /** Some address from `begin` up to `begin + size` is mapped. */
  ghost predicate Overlaps(bs: seq<Region>, page: nat, begin: nat, size: nat)
    requires AllOk(bs, page)
  {
    exists a :: begin <= a < begin + size && View(bs, page, a) != Unmapped
  }

  /** Among sorted regions only the one at the place of `begin` need be looked at. */
  lemma OverlapAt(bs: seq<Region>, page: nat, begin: nat, size: nat, pos: nat)
    requires AllOk(bs, page) && Ordered(bs) && IsPlace(bs, begin, pos) && size > 0
    ensures Overlaps(bs, page, begin, size) <==> pos < |bs| && bs[pos].addr < begin + size
  {
    hide OnPage, View;
    if pos < |bs| && bs[pos].addr < begin + size {
      var a := if bs[pos].addr <= begin then begin else bs[pos].addr;
      assert bs[pos].Has(a);
      ViewNone(bs, page, a);
    } else {
      forall a | begin <= a < begin + size
        ensures View(bs, page, a) == Unmapped
      {
        ViewNone(bs, page, a);
        assert forall i :: pos < i < |bs| ==> bs[pos].Limit() <= bs[i].addr;
      }
    }
  }

  /** The regions from the place of a free block on lie beyond it. */
  lemma FreeBeyond(bs: seq<Region>, page: nat, block: Region, pos: nat)
    requires AllOk(bs, page) && Ordered(bs) && RegionOk(block, page) && IsPlace(bs, block.addr, pos)
    requires forall a :: block.Has(a) ==> View(bs, page, a) == Unmapped
    ensures forall i :: pos <= i < |bs| ==> block.Limit() <= bs[i].addr
  {
    hide OnPage, View;
    OverlapAt(bs, page, block.addr, block.size, pos);
    assert forall i :: pos < i < |bs| ==> bs[pos].Limit() <= bs[i].addr;
  }

  /** `end - 1` in 64 bits is the last address of the region, also at the end of the address space. */
  lemma LastAddress(r: Region, page: nat)
    requires RegionOk(r, page)
    ensures (r.End() + U64 - 1) % U64 == r.addr + r.size - 1
    ensures r.End() == if r.Top() then 0 else r.Limit()
  {
  }
}
