/** Cutting a region apart, and what unmapping or protecting a range does to every address. */
module RegionSplits {
  import opened Arithmetic
  import opened Regions
  import opened MemoryRanges

  // ------------------------------------------------------- pages

  lemma OnPageSum(x: int, y: int, page: nat)
    requires page > 0 && OnPage(x, page) && OnPage(y, page)
    ensures OnPage(x + y, page) && OnPage(x - y, page)
  {
    var p, q := x / page, y / page;
    assert x == page * p && y == page * q;
    assert x + y == page * (p + q) && x - y == page * (p - q);
    Multiple(page, p + q);
    Multiple(page, p - q);
  }

  lemma Multiple(page: nat, k: int)
    requires page > 0
    ensures (page * k) % page == 0
  {
    var r, q := (page * k) % page, (page * k) / page;
    assert page * (k - q) == r;
    AtLeastOne(page, k - q);
  }

  lemma AtLeastOne(page: nat, d: int)
    ensures d >= 1 ==> page * d >= page
    ensures d <= -1 ==> page * d + page <= 0
    ensures d == 0 ==> page * d == 0
  {
  }

  // ------------------------------------------------------- pieces of a region

  function Slice(b: Backing, off: nat, n: nat): Backing
    requires b.Own? ==> off + n <= |b.bytes|
  {
    if b.Own? then Own(b.bytes[off..off + n]) else Host(b.ptr + off)
  }

  /** The part of a region from `x` up to `y`. */
  ghost function Piece(mr: Region, page: nat, x: nat, y: nat): Region
    requires RegionOk(mr, page) && mr.addr <= x <= y <= mr.Limit()
  {
    Region(x, y - x, mr.perms, Slice(mr.backing, x - mr.addr, y - x))
  }

  lemma PieceOk(mr: Region, page: nat, x: nat, y: nat)
    requires RegionOk(mr, page) && mr.addr <= x < y <= mr.Limit() && OnPage(x, page) && OnPage(y, page)
    ensures RegionOk(Piece(mr, page, x, y), page)
  {
    OnPageSum(y, x, page);
  }

  lemma PieceCell(mr: Region, page: nat, x: nat, y: nat, a: int)
    requires RegionOk(mr, page) && mr.addr <= x <= a < y <= mr.Limit()
    ensures Piece(mr, page, x, y).Has(a) && CellOf(Piece(mr, page, x, y), a) == CellOf(mr, a)
  {
    hide OnPage;
  }

  /** Every address sees what it saw, except that those from `lo` up to `hi` see nothing. */
  ghost predicate Hole(bs: seq<Region>, cs: seq<Region>, page: nat, lo: int, hi: int) {
    && AllOk(bs, page) && AllOk(cs, page)
    && (forall a :: View(cs, page, a) == if lo <= a < hi then Unmapped else View(bs, page, a))
    && TopAddr(cs) == TopAddr(bs)
  }

  /** A piece of the old region, put back at either end of the hole, makes it smaller. */
  lemma FillLow(bs: seq<Region>, i: nat, cs: seq<Region>, ds: seq<Region>, page: nat, lo: nat, mid: nat, hi: nat)
    requires Hole(bs, cs, page, lo, hi) && Ordered(bs) && i < |bs| && !bs[i].Top()
    requires bs[i].addr <= lo < mid <= hi <= bs[i].Limit()
    requires MappedAs(cs, ds, page, Piece(bs[i], page, lo, mid))
    ensures Hole(bs, ds, page, mid, hi)
  {
    hide OnPage, View, CellOf, Slice, TopAddr;
    forall a
      ensures View(ds, page, a) == if mid <= a < hi then Unmapped else View(bs, page, a)
    {
      if lo <= a < mid {
        PieceCell(bs[i], page, lo, mid, a);
        ViewAt(bs, page, i, a);
      }
    }
  }

  lemma FillHigh(bs: seq<Region>, i: nat, cs: seq<Region>, ds: seq<Region>, page: nat, lo: nat, mid: nat, hi: nat)
    requires Hole(bs, cs, page, lo, hi) && Ordered(bs) && i < |bs| && !bs[i].Top()
    requires bs[i].addr <= lo <= mid < hi <= bs[i].Limit()
    requires MappedAs(cs, ds, page, Piece(bs[i], page, mid, hi))
    ensures Hole(bs, ds, page, lo, mid)
  {
    hide OnPage, View, CellOf, Slice, TopAddr;
    assert !Piece(bs[i], page, mid, hi).Top();
    forall a
      ensures View(ds, page, a) == if lo <= a < mid then Unmapped else View(bs, page, a)
    {
      if mid <= a < hi {
        PieceCell(bs[i], page, mid, hi, a);
        ViewAt(bs, page, i, a);
      }
    }
  }

  // ------------------------------------------------------- the branches of split_region

  /** The region lies within the range, as split_region computes it, or there is nothing to do. */
  predicate Kept(mr: Region, address: nat, size: nat) {
    (address <= mr.addr && (address + size) % U64 >= mr.End()) || size == 0
  }

  /** The range misses the region, as split_region computes it. */
  predicate Missed(mr: Region, address: nat, size: nat) {
    address >= mr.End() || (address + size) % U64 <= mr.addr
  }

  ghost function CutLow(mr: Region, address: nat): nat {
    if address < mr.addr then mr.addr else address
  }

  ghost function CutHigh(mr: Region, address: nat, size: nat): nat {
    if address + size > mr.Limit() then mr.Limit() else address + size
  }

  /** What split_region does for a range that does not wrap around and whose region ends below the
      end of the address space. */
  lemma CutIs(mr: Region, page: nat, address: nat, size: nat)
    requires RegionOk(mr, page) && address < U64 && address + size <= U64
    ensures !Kept(mr, address, size) && !Missed(mr, address, size) ==>
      !mr.Top() && mr.addr <= CutLow(mr, address) < CutHigh(mr, address, size) <= mr.Limit() && address + size < U64
  {
    hide OnPage;
    if address + size < U64 {
      assert (address + size) % U64 == address + size;
    }
  }

  /** For a range that starts in the region and does not reach beyond it. */
  lemma SplitInside(mr: Region, page: nat, address: nat, size: nat)
    requires RegionOk(mr, page) && mr.Has(address) && 0 < size && address + size <= mr.Limit()
    ensures mr.Top() ==> (Kept(mr, address, size) <==> address == mr.addr)
    ensures mr.Top() ==> Missed(mr, address, size)
    ensures !mr.Top() ==> (Kept(mr, address, size) <==> address == mr.addr && size == mr.size) && !Missed(mr, address, size)
    ensures CutLow(mr, address) == address && CutHigh(mr, address, size) == address + size
  {
    hide OnPage;
    if address + size < U64 {
      assert (address + size) % U64 == address + size;
    }
  }

  // ------------------------------------------------------- ranges and the last region

  /** The range starts strictly inside the region at the end of the address space. */
  ghost predicate StartsInsideTop(bs: seq<Region>, address: nat) {
    TopAddr(bs) < address
  }

  /** The range starts at or below the last region and reaches into it. */
  ghost predicate TouchesTop(bs: seq<Region>, address: nat, size: nat) {
    address <= TopAddr(bs) < address + size && TopAddr(bs) < U64
  }

  /** The addresses that unmapping or protecting the range changes. */
  ghost predicate Affected(bs: seq<Region>, address: nat, size: nat, a: int) {
    InRange(a, address, size) || (TouchesTop(bs, address, size) && TopAddr(bs) <= a < U64)
  }

  ghost predicate UnmappedAs(bs: seq<Region>, cs: seq<Region>, page: nat, address: nat, size: nat) {
    && AllOk(bs, page) && AllOk(cs, page)
    && (forall a :: 0 <= a < U64 ==> View(cs, page, a) == if Affected(bs, address, size, a) then Unmapped else View(bs, page, a))
    && TopAddr(cs) == (if TouchesTop(bs, address, size) then U64 else TopAddr(bs))
  }

  ghost predicate ProtectedAs(bs: seq<Region>, cs: seq<Region>, page: nat, address: nat, size: nat, perms: nat) {
    && AllOk(bs, page) && AllOk(cs, page)
    && (forall a :: 0 <= a < U64 ==> View(cs, page, a) == if Affected(bs, address, size, a) then WithPerms(View(bs, page, a), perms) else View(bs, page, a))
    && TopAddr(cs) == TopAddr(bs)
  }

  /** Which addresses those are: the range, and all of the last region when that one reaches the end
      of the address space and the range reaches its start. */
  lemma AffectedIs(bs: seq<Region>, address: nat, size: nat, a: int)
    requires 0 <= a < U64
    ensures Affected(bs, address, size, a) <==>
              || address <= a < address + size
              || a + 0x1_0000_0000_0000_0000 < address + size
              || (&& bs != [] && bs[|bs| - 1].addr + bs[|bs| - 1].size == 0x1_0000_0000_0000_0000
                  && address <= bs[|bs| - 1].addr < address + size && bs[|bs| - 1].addr <= a)
  {
  }

  lemma UnmappedMeans(bs: seq<Region>, cs: seq<Region>, page: nat, address: nat, size: nat)
    requires UnmappedAs(bs, cs, page, address, size)
    ensures AllOk(bs, page) && AllOk(cs, page)
    ensures forall a :: 0 <= a < U64 ==> View(cs, page, a) == if Affected(bs, address, size, a) then Unmapped else View(bs, page, a)
  {
    hide View, OnPage, TopAddr, Affected, AllOk;
  }

  /** The bytes stay, and the permissions change at those addresses only. */
  lemma ProtectedMeans(bs: seq<Region>, cs: seq<Region>, page: nat, address: nat, size: nat, perms: nat)
    requires ProtectedAs(bs, cs, page, address, size, perms)
    ensures forall a :: 0 <= a < 0x1_0000_0000_0000_0000 ==>
              && (View(cs, page, a).Mapped? <==> View(bs, page, a).Mapped?)
              && (View(bs, page, a).Mapped? ==> View(cs, page, a).source == View(bs, page, a).source)
              && (View(bs, page, a).Mapped? ==> View(cs, page, a).perms == if Affected(bs, address, size, a) then perms else View(bs, page, a).perms)
  {
    hide View, OnPage, TopAddr, Affected;
  }

  /** The next `len` addresses after the first `count` of a range. */
  lemma RangeStep(address: nat, count: nat, len: nat, a: int)
    requires address < U64 && count + len < U64 && 0 <= a < U64
    requires (address + count) % U64 + len <= U64
    ensures var addr := (address + count) % U64; InRange(a, address, count + len) <==> InRange(a, address, count) || addr <= a < addr + len
  {
    NextAddress(address, count);
  }

  /** How far a loop over the range has got: when it passed the start of the last region, it has
      passed all of it or the range ended there. */
  ghost predicate TopPassed(bs: seq<Region>, address: nat, count: nat, size: nat) {
    TouchesTop(bs, address, count) ==> count == size || address + count >= U64
  }

  /** What one step of such a loop covers: the rest of the range in region `mr`, or all of `mr`
      when it is the last region. */
  ghost predicate Stepped(mr: Region, addr: nat, len: nat, a: int) {
    if mr.Top() then mr.Has(a) else addr <= a < addr + len
  }

  /** The region that the loop reaches next. `top` is where the last region starts now. */
  ghost predicate AtRegion(bs: seq<Region>, top: nat, mr: Region, address: nat, count: nat, len: nat, size: nat) {
    && address < U64 && count + len <= size < U64 && 0 < len
    && address <= TopAddr(bs) <= U64 && TopPassed(bs, address, count, size)
    && mr.Has((address + count) % U64) && mr.Limit() <= U64
    && len == (if size - count < mr.Limit() - (address + count) % U64 then size - count else mr.Limit() - (address + count) % U64)
    && (mr.Top() ==> top == mr.addr)
    && (!mr.Top() ==> mr.Limit() <= top)
    && (top == TopAddr(bs) || (TouchesTop(bs, address, count) && top == U64))
  }

  lemma AffectedStep(bs: seq<Region>, top: nat, mr: Region, address: nat, count: nat, len: nat, size: nat, a: int)
    requires AtRegion(bs, top, mr, address, count, len, size) && 0 <= a < U64
    requires TouchesTop(bs, address, count) ==> !mr.Top()
    ensures Affected(bs, address, count + len, a) <==> Affected(bs, address, count, a) || Stepped(mr, (address + count) % U64, len, a)
    ensures TouchesTop(bs, address, count + len) <==> TouchesTop(bs, address, count) || mr.Top()
    ensures TopPassed(bs, address, count + len, size)
    ensures mr.Top() ==> (address + count) % U64 == mr.addr
  {
    hide TopAddr;
    NextAddress(address, count);
    RangeStep(address, count, len, a);
  }

  lemma UnmapStep(bs: seq<Region>, cs: seq<Region>, ds: seq<Region>, page: nat, mr: Region, address: nat, count: nat, len: nat, size: nat)
    requires UnmappedAs(bs, cs, page, address, count) && AllOk(ds, page)
    requires AtRegion(bs, TopAddr(cs), mr, address, count, len, size)
    requires forall a :: View(ds, page, a) == if Stepped(mr, (address + count) % U64, len, a) then Unmapped else View(cs, page, a)
    requires TopAddr(ds) == if mr.Top() then U64 else TopAddr(cs)
    ensures UnmappedAs(bs, ds, page, address, count + len) && TopPassed(bs, address, count + len, size)
  {
    hide View, OnPage, TopAddr, Affected, Stepped;
    forall a | 0 <= a < U64
      ensures View(ds, page, a) == if Affected(bs, address, count + len, a) then Unmapped else View(bs, page, a)
    {
      AffectedStep(bs, TopAddr(cs), mr, address, count, len, size, a);
    }
    AffectedStep(bs, TopAddr(cs), mr, address, count, len, size, 0);
  }

  lemma ProtectStep(bs: seq<Region>, cs: seq<Region>, ds: seq<Region>, page: nat, mr: Region, address: nat, count: nat, len: nat, size: nat, perms: nat)
    requires ProtectedAs(bs, cs, page, address, count, perms) && AllOk(ds, page)
    requires AtRegion(bs, TopAddr(cs), mr, address, count, len, size) && (TouchesTop(bs, address, count) ==> !mr.Top())
    requires forall a :: View(ds, page, a) == if Stepped(mr, (address + count) % U64, len, a) then WithPerms(View(cs, page, a), perms) else View(cs, page, a)
    requires TopAddr(ds) == TopAddr(cs)
    ensures ProtectedAs(bs, ds, page, address, count + len, perms) && TopPassed(bs, address, count + len, size)
  {
    hide View, OnPage, TopAddr, Affected, Stepped;
    forall a | 0 <= a < U64
      ensures View(ds, page, a) == if Affected(bs, address, count + len, a) then WithPerms(View(bs, page, a), perms) else View(bs, page, a)
    {
      AffectedStep(bs, TopAddr(cs), mr, address, count, len, size, a);
    }
    AffectedStep(bs, TopAddr(cs), mr, address, count, len, size, 0);
  }

  // ------------------------------------------------------- what the operations rely on

  /** After a cut, the range is unmapped, or is a region of its own and every address sees what it
      saw before. */
  ghost predicate SplitAs(bs: seq<Region>, cs: seq<Region>, page: nat, i: nat, address: nat, size: nat, doDelete: bool) {
    && i < |bs|
    && var lo, hi := CutLow(bs[i], address), CutHigh(bs[i], address, size);
    && Hole(bs, cs, page, lo, if doDelete then hi else lo)
    && (!doDelete ==> exists r :: r in cs && r.addr == lo && r.Limit() == hi)
  }

  /** The range is exactly one region. */
  ghost predicate IsWhole(bs: seq<Region>, address: nat, size: nat) {
    exists i :: 0 <= i < |bs| && bs[i].addr == address && bs[i].size == size
  }

  /** `chunk_end` and `end` as computed are the true ones when there is something to cut. */
  lemma CutBounds(mr: Region, page: nat, address: nat, size: nat, chunkEnd: nat, end: nat)
    requires RegionOk(mr, page) && address < U64 && address + size <= U64 && !Kept(mr, address, size) && !Missed(mr, address, size)
    requires chunkEnd == (address + size) % U64 && end == mr.End()
    ensures end == mr.Limit() < U64 && chunkEnd == address + size
  {
    CutIs(mr, page, address, size);
    LastAddress(mr, page);
  }

  /** A region can be unmapped as a whole. */
  lemma WholeRegion(bs: seq<Region>, page: nat, i: nat)
    requires AllOk(bs, page) && Ordered(bs) && i < |bs|
    ensures IsWhole(bs, bs[i].addr, bs[i].size) && AllMapped(bs, page, bs[i].addr, bs[i].size) && !StartsInsideTop(bs, bs[i].addr)
    ensures OnPage(bs[i].addr, page) && OnPage(bs[i].size, page)
  {
    hide View, OnPage;
    assert RegionOk(bs[i], page);
    TopIs(bs, page, i);
    forall a | 0 <= a < U64 && InRange(a, bs[i].addr, bs[i].size)
      ensures View(bs, page, a) != Unmapped
    {
      assert bs[i].Has(a);
      ViewNone(bs, page, a);
    }
  }

  lemma WholeHole(bs: seq<Region>, cs: seq<Region>, page: nat, i: nat)
    requires AllOk(bs, page) && Ordered(bs) && i < |bs| && !bs[i].Top() && UnmappedAs(bs, cs, page, bs[i].addr, bs[i].size)
    ensures Hole(bs, cs, page, bs[i].addr, bs[i].Limit())
  {
    hide View, OnPage, TopAddr;
    TopIs(bs, page, i);
    assert RegionOk(bs[i], page);
    forall a
      ensures View(cs, page, a) == if bs[i].addr <= a < bs[i].Limit() then Unmapped else View(bs, page, a)
    {
      if a < 0 || a >= U64 {
        Outside(bs, page, a);
        Outside(cs, page, a);
      }
    }
  }

  lemma Outside(bs: seq<Region>, page: nat, a: int)
    requires AllOk(bs, page) && (a < 0 || a >= U64)
    ensures View(bs, page, a) == Unmapped
  {
    ViewNone(bs, page, a);
  }

  lemma NothingAffected(bs: seq<Region>, page: nat, address: nat, size: nat)
    requires AllOk(bs, page) && address < U64
    ensures UnmappedAs(bs, bs, page, address, 0) && TopPassed(bs, address, 0, size)
  {
    hide View, OnPage, TopAddr;
  }

  /** The loop over a mapped range has not yet affected the address it has reached. */
  lemma NotYet(bs: seq<Region>, address: nat, count: nat, size: nat)
    requires address < U64 && count < size < U64 && TopPassed(bs, address, count, size)
    ensures !Affected(bs, address, count, (address + count) % U64) && InRange((address + count) % U64, address, size)
  {
    hide TopAddr;
    NextAddress(address, count);
  }

  lemma SameBlock(bs: seq<Region>, i: nat, j: nat, a: int)
    requires Ordered(bs) && i < |bs| && j < |bs| && bs[i].Has(a) && bs[j].Has(a)
    ensures i == j
  {
  }

  /** Starts, lengths and positions of a page-aligned range stay on page boundaries. */
  lemma LenOnPage(mr: Region, page: nat, address: nat, count: nat, size: nat, len: nat)
    requires RegionOk(mr, page) && address < U64 && count < size < U64 && mr.Has((address + count) % U64)
    requires OnPage(address, page) && OnPage(size, page) && OnPage(count, page) && OnPage(U64, page)
    requires len == size - count || len == mr.Limit() - (address + count) % U64
    ensures OnPage((address + count) % U64, page) && OnPage(len, page) && OnPage(count + len, page)
  {
    hide OnPage;
    NextAddress(address, count);
    OnPageSum(address, count, page);
    OnPageSum(address + count, U64, page);
    OnPageSum(size, count, page);
    OnPageSum(mr.addr, mr.size, page);
    OnPageSum(mr.Limit(), (address + count) % U64, page);
    OnPageSum(count, len, page);
  }

  lemma EstablishAtRegion(bs: seq<Region>, cs: seq<Region>, page: nat, i: nat, address: nat, count: nat, len: nat, size: nat)
    requires AllOk(cs, page) && Ordered(cs) && i < |cs| && address < U64 && count < size < U64
    requires !StartsInsideTop(bs, address) && TopAddr(bs) <= U64 && TopPassed(bs, address, count, size)
    requires cs[i].Has((address + count) % U64)
    requires len == if size - count < cs[i].Limit() - (address + count) % U64 then size - count else cs[i].Limit() - (address + count) % U64
    requires TopAddr(cs) == TopAddr(bs) || (TouchesTop(bs, address, count) && TopAddr(cs) == U64)
    ensures AtRegion(bs, TopAddr(cs), cs[i], address, count, len, size)
    ensures TouchesTop(bs, address, count) ==> !cs[i].Top()
  {
    hide OnPage, TopAddr;
    assert RegionOk(cs[i], page);
    TopIs(cs, page, i);
    NextAddress(address, count);
  }

  lemma TopAddrMax(bs: seq<Region>, page: nat)
    requires AllOk(bs, page)
    ensures TopAddr(bs) <= U64
  {
    hide OnPage;
    assert bs != [] ==> RegionOk(bs[|bs| - 1], page);
  }

  /** A range that starts strictly inside the last region starts at a place where nothing is cut. */
  lemma InsideTop(bs: seq<Region>, page: nat, i: nat, address: nat)
    requires AllOk(bs, page) && Ordered(bs) && i < |bs| && bs[i].Has(address) && StartsInsideTop(bs, address)
    ensures bs[i].Top() && address != bs[i].addr
  {
    hide OnPage, TopAddr;
    TopIs(bs, page, i);
  }

  lemma WholeFirst(bs: seq<Region>, page: nat, i: nat, address: nat, size: nat, len: nat)
    requires AllOk(bs, page) && Ordered(bs) && i < |bs| && bs[i].Has(address) && IsWhole(bs, address, size)
    requires len == if size < bs[i].Limit() - address then size else bs[i].Limit() - address
    ensures len == size && Kept(bs[i], address, len)
  {
    hide OnPage;
    var k :| 0 <= k < |bs| && bs[k].addr == address && bs[k].size == size;
    assert RegionOk(bs[k], page) && bs[k].Has(address);
    SameBlock(bs, i, k, address);
    SplitInside(bs[i], page, address, len);
  }

  lemma CutOnPage(mr: Region, page: nat, address: nat, size: nat)
    requires RegionOk(mr, page) && OnPage(address, page) && OnPage(size, page)
    ensures OnPage(CutLow(mr, address), page) && OnPage(CutHigh(mr, address, size), page) && OnPage(mr.Limit(), page)
  {
    hide OnPage;
    OnPageSum(mr.addr, mr.size, page);
    OnPageSum(address, size, page);
  }

  lemma FreeInHole(bs: seq<Region>, cs: seq<Region>, page: nat, lo: nat, hi: nat, x: nat, y: nat)
    requires Hole(bs, cs, page, lo, hi) && lo <= x <= y <= hi
    ensures !Overlaps(cs, page, x, y - x)
  {
    hide View, OnPage;
  }

  /** A non-empty page-aligned range inside a region. */
  ghost predicate InsideOf(mr: Region, page: nat, addr: nat, len: nat) {
    && RegionOk(mr, page) && mr.Has(addr) && 0 < len && addr + len <= mr.Limit()
    && OnPage(addr, page) && OnPage(len, page)
  }

  /** Inside the last region, only a range from its start is accepted. */
  ghost predicate CutsTop(mr: Region, addr: nat) {
    mr.Top() && addr != mr.addr
  }

  ghost predicate StepRemoved(cs: seq<Region>, ds: seq<Region>, page: nat, mr: Region, addr: nat, len: nat) {
    && AllOk(cs, page) && AllOk(ds, page)
    && (forall a :: View(ds, page, a) == if Stepped(mr, addr, len, a) then Unmapped else View(cs, page, a))
    && TopAddr(ds) == if mr.Top() then U64 else TopAddr(cs)
  }

  lemma StepCut(cs: seq<Region>, ds: seq<Region>, page: nat, i: nat, addr: nat, len: nat)
    requires SplitAs(cs, ds, page, i, addr, len, true) && InsideOf(cs[i], page, addr, len) && !cs[i].Top()
    ensures StepRemoved(cs, ds, page, cs[i], addr, len) && View(ds, page, addr) == Unmapped
  {
    hide View, OnPage, TopAddr;
  }

  lemma StepWhole(cs: seq<Region>, ds: seq<Region>, page: nat, i: nat, addr: nat, len: nat)
    requires AllOk(cs, page) && AllOk(ds, page) && i < |cs| && InsideOf(cs[i], page, addr, len)
    requires !cs[i].Top() ==> addr == cs[i].addr && len == cs[i].size
    requires forall a :: View(ds, page, a) == if cs[i].Has(a) then Unmapped else View(cs, page, a)
    requires TopAddr(ds) == if cs[i].Top() then U64 else TopAddr(cs)
    ensures StepRemoved(cs, ds, page, cs[i], addr, len)
  {
    hide View, OnPage, TopAddr;
  }

  lemma EmptyHole(bs: seq<Region>, cs: seq<Region>, page: nat, x: int, y: int)
    requires Hole(bs, cs, page, x, x)
    ensures Hole(bs, cs, page, y, y)
  {
    hide View, OnPage, TopAddr;
  }

  lemma MappedHas(bs: seq<Region>, cs: seq<Region>, page: nat, r: Region, x: Region)
    requires MappedAs(bs, cs, page, r)
    ensures r in cs && (x in bs ==> x in cs)
  {
    hide View, OnPage, TopAddr;
  }

  lemma StillMapped(bs: seq<Region>, page: nat, i: nat, a: int)
    requires AllOk(bs, page) && i < |bs| && bs[i].Has(a)
    ensures View(bs, page, a) != Unmapped
  {
    ViewNone(bs, page, a);
  }

  /** The loop of uc_mem_unmap after the first `count` addresses of the range. */
  ghost predicate Unmapping(bs: seq<Region>, cs: seq<Region>, page: nat, address: nat, count: nat, size: nat) {
    && page > 0 && AllOk(bs, page) && Ordered(bs) && AllMapped(bs, page, address, size) && address < U64 && size < U64
    && OnPage(address, page) && OnPage(size, page) && OnPage(count, page) && OnPage(U64, page)
    && UnmappedAs(bs, cs, page, address, count) && TopPassed(bs, address, count, size)
    && (count == 0 ==> cs == bs)
    && (StartsInsideTop(bs, address) ==> count == 0)
    && (IsWhole(bs, address, size) ==> count == 0 || count == size)
  }

  lemma UnmappingStart(bs: seq<Region>, page: nat, address: nat, size: nat)
    requires page > 0 && AllOk(bs, page) && Ordered(bs) && AllMapped(bs, page, address, size) && address < U64 && size < U64
    requires OnPage(address, page) && OnPage(size, page) && OnPage(U64, page)
    ensures Unmapping(bs, bs, page, address, 0, size)
  {
    hide View, TopAddr;
    NothingAffected(bs, page, address, size);
    ZeroOnPage(page);
  }

  lemma ZeroOnPage(page: nat)
    requires page > 0
    ensures OnPage(0, page)
  {
  }

  lemma NextMapped(bs: seq<Region>, cs: seq<Region>, page: nat, address: nat, count: nat, size: nat)
    requires Unmapping(bs, cs, page, address, count, size) && count < size
    ensures View(cs, page, (address + count) % U64) != Unmapped
  {
    hide View, TopAddr, OnPage, Affected;
    NotYet(bs, address, count, size);
  }

  lemma UnmappingNext(bs: seq<Region>, cs: seq<Region>, page: nat, i: nat, address: nat, count: nat, size: nat, len: nat)
    requires Unmapping(bs, cs, page, address, count, size) && count < size && AllOk(cs, page) && Ordered(cs) && i < |cs|
    requires cs[i].Has((address + count) % U64) && len == RegionLen(cs[i], (address + count) % U64, size - count)
    ensures InsideOf(cs[i], page, (address + count) % U64, len) && count + len <= size
    ensures IsWhole(bs, address, size) ==> Kept(cs[i], (address + count) % U64, len) && len == size
    ensures CutsTop(cs[i], (address + count) % U64) <==> StartsInsideTop(bs, address)
    ensures !StartsInsideTop(bs, address) ==> AtRegion(bs, TopAddr(cs), cs[i], address, count, len, size) && (TouchesTop(bs, address, count) ==> !cs[i].Top())
    ensures StartsInsideTop(bs, address) ==> cs == bs
  {
    hide View, TopAddr, OnPage, Kept, RegionLen, TouchesTop;
    var addr := (address + count) % U64;
    assert RegionOk(cs[i], page);
    RegionLenIs(cs[i], page, addr, size - count);
    LenOnPage(cs[i], page, address, count, size, len);
    TopAddrMax(bs, page);
    if IsWhole(bs, address, size) {
      WholeFirst(bs, page, i, address, size, len);
    }
    if StartsInsideTop(bs, address) {
      InsideTop(bs, page, i, address);
    } else {
      EstablishAtRegion(bs, cs, page, i, address, count, len, size);
      AffectedStep(bs, TopAddr(cs), cs[i], address, count, len, size, 0);
    }
  }

  lemma UnmappingStep(bs: seq<Region>, cs: seq<Region>, ds: seq<Region>, page: nat, i: nat, address: nat, count: nat, size: nat, len: nat)
    requires Unmapping(bs, cs, page, address, count, size) && count < size && AllOk(cs, page) && Ordered(cs) && i < |cs|
    requires cs[i].Has((address + count) % U64) && len == RegionLen(cs[i], (address + count) % U64, size - count)
    requires StepRemoved(cs, ds, page, cs[i], (address + count) % U64, len) && !CutsTop(cs[i], (address + count) % U64)
    ensures Unmapping(bs, ds, page, address, count + len, size) && count + len <= size
  {
    hide View, TopAddr, OnPage, Kept, RegionLen, TouchesTop, UnmappedAs, AllMapped, IsWhole;
    UnmappingNext(bs, cs, page, i, address, count, size, len);
    var addr := (address + count) % U64;
    RegionLenIs(cs[i], page, addr, size - count);
    LenOnPage(cs[i], page, address, count, size, len);
    UnmapStep(bs, cs, ds, page, cs[i], address, count, len, size);
  }

  lemma UnmappingDone(bs: seq<Region>, cs: seq<Region>, page: nat, address: nat, size: nat)
    requires Unmapping(bs, cs, page, address, size, size) && size > 0
    ensures UnmappedAs(bs, cs, page, address, size) && !StartsInsideTop(bs, address)
  {
  }

  // ------------------------------------------------------- protecting

  ghost predicate StepProtected(cs: seq<Region>, ds: seq<Region>, page: nat, mr: Region, addr: nat, len: nat, perms: nat) {
    && AllOk(cs, page) && AllOk(ds, page)
    && (forall a :: View(ds, page, a) == if Stepped(mr, addr, len, a) then WithPerms(View(cs, page, a), perms) else View(cs, page, a))
    && TopAddr(ds) == TopAddr(cs)
  }

  /** What one step does to every address. */
  lemma StepMeans(cs: seq<Region>, ds: seq<Region>, page: nat, mr: Region, addr: nat, len: nat, perms: nat)
    requires StepProtected(cs, ds, page, mr, addr, len, perms)
    ensures forall a ::
              && (View(ds, page, a).Mapped? <==> View(cs, page, a).Mapped?)
              && (View(cs, page, a).Mapped? ==> View(ds, page, a).source == View(cs, page, a).source)
              && (View(cs, page, a).Mapped? ==>
                    View(ds, page, a).perms == if (if mr.addr + mr.size == 0x1_0000_0000_0000_0000 then mr.addr <= a < mr.addr + mr.size else addr <= a < addr + len) then perms else View(cs, page, a).perms)
  {
    hide View, OnPage, TopAddr;
  }

  lemma CutMapped(cs: seq<Region>, ds: seq<Region>, page: nat, i: nat, addr: nat, len: nat)
    requires SplitAs(cs, ds, page, i, addr, len, false) && AllOk(cs, page) && InsideOf(cs[i], page, addr, len)
    ensures View(ds, page, addr) != Unmapped
  {
    hide View, OnPage, TopAddr;
    StillMapped(cs, page, i, addr);
  }

  lemma ProtectedTop(bs: seq<Region>, i: nat, perms: nat)
    requires i < |bs|
    ensures TopAddr(Protected(bs, i, perms)) == TopAddr(bs)
  {
  }

  lemma WholeProtected(cs: seq<Region>, page: nat, i: nat, addr: nat, len: nat, perms: nat)
    requires AllOk(cs, page) && Ordered(cs) && i < |cs| && InsideOf(cs[i], page, addr, len) && perms <= PROT_ALL
    requires !cs[i].Top() ==> addr == cs[i].addr && len == cs[i].size
    ensures StepProtected(cs, Protected(cs, i, perms), page, cs[i], addr, len, perms)
  {
    hide View, OnPage, TopAddr, Protected;
    ProtectedOk(cs, page, i, perms);
    ProtectedTop(cs, i, perms);
    forall a { ProtectedView(cs, page, i, perms, a); }
  }

  /** After a cut the region found at the start of the range is the range. */
  lemma PieceProtected(cs: seq<Region>, ds: seq<Region>, page: nat, i: nat, j: nat, addr: nat, len: nat, perms: nat)
    requires SplitAs(cs, ds, page, i, addr, len, false) && InsideOf(cs[i], page, addr, len) && !cs[i].Top() && perms <= PROT_ALL
    requires AllOk(ds, page) && Ordered(ds) && j < |ds| && ds[j].Has(addr)
    ensures StepProtected(cs, Protected(ds, j, perms), page, cs[i], addr, len, perms)
  {
    hide View, OnPage, TopAddr, Protected;
    var r :| r in ds && r.addr == addr && r.Limit() == addr + len;
    var k :| 0 <= k < |ds| && ds[k] == r;
    SameBlock(ds, j, k, addr);
    ProtectedOk(ds, page, j, perms);
    ProtectedTop(ds, j, perms);
    forall a { ProtectedView(ds, page, j, perms, a); }
  }

  lemma PiecePerms(cs: seq<Region>, ds: seq<Region>, page: nat, i: nat, j: nat, addr: nat, len: nat)
    requires SplitAs(cs, ds, page, i, addr, len, false) && InsideOf(cs[i], page, addr, len) && Ordered(cs)
    requires AllOk(ds, page) && Ordered(ds) && j < |ds| && ds[j].Has(addr)
    ensures ds[j].perms == cs[i].perms
  {
    hide View, OnPage, TopAddr;
    ViewAt(cs, page, i, addr);
    ViewAt(ds, page, j, addr);
  }

  lemma NothingProtected(bs: seq<Region>, page: nat, address: nat, size: nat, perms: nat)
    requires AllOk(bs, page) && address < U64
    ensures ProtectedAs(bs, bs, page, address, 0, perms) && TopPassed(bs, address, 0, size)
  {
    hide View, OnPage, TopAddr;
  }

  /** The loop of uc_mem_protect after the first `count` addresses of the range. */
  ghost predicate Protecting(bs: seq<Region>, cs: seq<Region>, page: nat, address: nat, count: nat, size: nat, perms: nat) {
    && page > 0 && AllOk(bs, page) && Ordered(bs) && AllMapped(bs, page, address, size) && address < U64 && size < U64
    && OnPage(address, page) && OnPage(size, page) && OnPage(count, page) && OnPage(U64, page)
    && ProtectedAs(bs, cs, page, address, count, perms) && TopPassed(bs, address, count, size)
    && (count == 0 ==> cs == bs)
    && (StartsInsideTop(bs, address) ==> count == 0)
  }

  lemma ProtectingStart(bs: seq<Region>, page: nat, address: nat, size: nat, perms: nat)
    requires page > 0 && AllOk(bs, page) && Ordered(bs) && AllMapped(bs, page, address, size) && address < U64 && size < U64
    requires OnPage(address, page) && OnPage(size, page) && OnPage(U64, page)
    ensures Protecting(bs, bs, page, address, 0, size, perms)
  {
    hide View, TopAddr;
    NothingProtected(bs, page, address, size, perms);
    ZeroOnPage(page);
  }

  lemma NextProtected(bs: seq<Region>, cs: seq<Region>, page: nat, address: nat, count: nat, size: nat, perms: nat)
    requires Protecting(bs, cs, page, address, count, size, perms) && count < size
    ensures View(cs, page, (address + count) % U64) != Unmapped
  {
    hide View, TopAddr, OnPage, Affected;
    NotYet(bs, address, count, size);
  }

  lemma ProtectingNext(bs: seq<Region>, cs: seq<Region>, page: nat, i: nat, address: nat, count: nat, size: nat, len: nat, perms: nat)
    requires Protecting(bs, cs, page, address, count, size, perms) && count < size && AllOk(cs, page) && Ordered(cs) && i < |cs|
    requires cs[i].Has((address + count) % U64) && len == RegionLen(cs[i], (address + count) % U64, size - count)
    ensures InsideOf(cs[i], page, (address + count) % U64, len) && 0 < len && count + len <= size
    ensures CutsTop(cs[i], (address + count) % U64) <==> StartsInsideTop(bs, address)
    ensures !StartsInsideTop(bs, address) ==> AtRegion(bs, TopAddr(cs), cs[i], address, count, len, size) && (TouchesTop(bs, address, count) ==> !cs[i].Top())
    ensures StartsInsideTop(bs, address) ==> cs == bs
  {
    hide View, TopAddr, OnPage, Kept, RegionLen, TouchesTop;
    var addr := (address + count) % U64;
    assert RegionOk(cs[i], page);
    RegionLenIs(cs[i], page, addr, size - count);
    LenOnPage(cs[i], page, address, count, size, len);
    TopAddrMax(bs, page);
    if StartsInsideTop(bs, address) {
      InsideTop(bs, page, i, address);
    } else {
      EstablishAtRegion(bs, cs, page, i, address, count, len, size);
      AffectedStep(bs, TopAddr(cs), cs[i], address, count, len, size, 0);
    }
  }

  lemma ProtectingStep(bs: seq<Region>, cs: seq<Region>, ds: seq<Region>, page: nat, i: nat, address: nat, count: nat, size: nat, len: nat, perms: nat)
    requires Protecting(bs, cs, page, address, count, size, perms) && count < size && AllOk(cs, page) && Ordered(cs) && i < |cs|
    requires cs[i].Has((address + count) % U64) && len == RegionLen(cs[i], (address + count) % U64, size - count)
    requires StepProtected(cs, ds, page, cs[i], (address + count) % U64, len, perms) && !CutsTop(cs[i], (address + count) % U64)
    ensures Protecting(bs, ds, page, address, count + len, size, perms) && count + len <= size
  {
    hide View, TopAddr, OnPage, Kept, RegionLen, TouchesTop, ProtectedAs, AllMapped;
    ProtectingNext(bs, cs, page, i, address, count, size, len, perms);
    var addr := (address + count) % U64;
    RegionLenIs(cs[i], page, addr, size - count);
    LenOnPage(cs[i], page, address, count, size, len);
    ProtectStep(bs, cs, ds, page, cs[i], address, count, len, size, perms);
  }

  lemma ProtectingDone(bs: seq<Region>, cs: seq<Region>, page: nat, address: nat, size: nat, perms: nat)
    requires Protecting(bs, cs, page, address, size, size, perms) && size > 0
    ensures ProtectedAs(bs, cs, page, address, size, perms) && !StartsInsideTop(bs, address)
  {
  }

  // ------------------------------------------------------- exactly the range

  /** The region at the end of the address space is left alone or is covered by the range. */
  ghost predicate TopSafe(bs: seq<Region>, address: nat, size: nat) {
    || (forall a :: TopAddr(bs) <= a < U64 ==> !InRange(a, address, size))
    || (forall a :: TopAddr(bs) <= a < U64 ==> InRange(a, address, size))
  }

  lemma TopSafeIs(bs: seq<Region>, address: nat, size: nat)
    requires address < U64 && 0 < size < U64 && TopAddr(bs) <= U64
    ensures TopSafe(bs, address, size) <==> !StartsInsideTop(bs, address) && (TouchesTop(bs, address, size) ==> address + size >= U64)
  {
    hide TopAddr;
    var t := TopAddr(bs);
    if t < address {
      assert InRange(address, address, size) && !InRange(address - 1, address, size);
    } else if t < U64 && t < address + size {
      assert InRange(t, address, size);
      assert InRange(U64 - 1, address, size) <==> address + size >= U64;
    }
  }

  /** Exactly the range changes if and only if the last region is not cut by the end of the range. */
  lemma AffectedIsRange(bs: seq<Region>, address: nat, size: nat)
    requires address < U64 && 0 < size < U64 && !StartsInsideTop(bs, address)
    ensures (TouchesTop(bs, address, size) ==> address + size >= U64) ==> forall a :: 0 <= a < U64 ==> (Affected(bs, address, size, a) <==> InRange(a, address, size))
    ensures TouchesTop(bs, address, size) && address + size < U64 ==> Affected(bs, address, size, U64 - 1) && !InRange(U64 - 1, address, size)
    ensures forall a :: InRange(a, address, size) ==> Affected(bs, address, size, a)
  {
    hide TopAddr;
  }

  lemma LastMapped(bs: seq<Region>, page: nat)
    requires AllOk(bs, page) && Ordered(bs) && TopAddr(bs) < U64
    ensures bs != [] && View(bs, page, U64 - 1) == CellOf(bs[|bs| - 1], U64 - 1) && View(bs, page, U64 - 1) != Unmapped
  {
    hide OnPage;
    assert RegionOk(bs[|bs| - 1], page);
    ViewAt(bs, page, |bs| - 1, U64 - 1);
  }

  /** A request that is aligned, not empty, and asks for mapped memory. */
  ghost predicate Requested(bs: seq<Region>, page: nat, address: nat, size: nat)
    requires page > 0 && AllOk(bs, page)
  {
    size > 0 && OnPage(address, page) && OnPage(size, page) && AllMapped(bs, page, address, size)
  }

  ghost predicate RangeUnmapped(bs: seq<Region>, cs: seq<Region>, page: nat, address: nat, size: nat)
    requires AllOk(bs, page) && AllOk(cs, page)
  {
    forall a :: 0 <= a < U64 ==> View(cs, page, a) == if InRange(a, address, size) then Unmapped else View(bs, page, a)
  }

  /** uc_mem_unmap of a mapped range removes exactly the range if and only if the last region is
      left alone or covered; otherwise it either is refused or removes all of the last region. */
  lemma UnmapExact(bs: seq<Region>, cs: seq<Region>, page: nat, address: nat, size: nat)
    requires AllOk(bs, page) && Ordered(bs) && AllOk(cs, page) && address < U64 && 0 < size < U64
    requires StartsInsideTop(bs, address) || UnmappedAs(bs, cs, page, address, size)
    ensures TopSafe(bs, address, size) <==> !StartsInsideTop(bs, address) && RangeUnmapped(bs, cs, page, address, size)
  {
    hide OnPage, View, TopAddr, Affected, InRange, TopSafe;
    TopAddrMax(bs, page);
    TopSafeIs(bs, address, size);
    if !StartsInsideTop(bs, address) {
      AffectedIsRange(bs, address, size);
    }
    if TouchesTop(bs, address, size) {
      LastMapped(bs, page);
    }
  }

  ghost predicate RangeProtected(bs: seq<Region>, cs: seq<Region>, page: nat, address: nat, size: nat, perms: nat)
    requires AllOk(bs, page) && AllOk(cs, page)
  {
    forall a :: 0 <= a < U64 ==> View(cs, page, a) == if InRange(a, address, size) then WithPerms(View(bs, page, a), perms) else View(bs, page, a)
  }

  /** uc_mem_protect of a mapped range changes exactly the range if and only if the last region is
      left alone or covered, or had the new permissions anyway. */
  lemma ProtectExact(bs: seq<Region>, cs: seq<Region>, page: nat, address: nat, size: nat, perms: nat)
    requires AllOk(bs, page) && Ordered(bs) && AllOk(cs, page) && address < U64 && 0 < size < U64
    requires StartsInsideTop(bs, address) || ProtectedAs(bs, cs, page, address, size, perms)
    ensures !StartsInsideTop(bs, address) && RangeProtected(bs, cs, page, address, size, perms) <==>
      TopSafe(bs, address, size) || (!StartsInsideTop(bs, address) && bs != [] && bs[|bs| - 1].perms == perms)
  {
    hide OnPage, View, TopAddr, Affected, InRange, TopSafe;
    TopAddrMax(bs, page);
    TopSafeIs(bs, address, size);
    if !StartsInsideTop(bs, address) {
      AffectedIsRange(bs, address, size);
    }
    if TouchesTop(bs, address, size) && address + size < U64 {
      LastMapped(bs, page);
      if bs[|bs| - 1].perms == perms {
        forall a | 0 <= a < U64 && Affected(bs, address, size, a) && !InRange(a, address, size)
          ensures View(bs, page, a) == WithPerms(View(bs, page, a), perms)
        {
          TopPerms(bs, page, address, size, a);
        }
      }
    }
  }

  lemma TopPerms(bs: seq<Region>, page: nat, address: nat, size: nat, a: int)
    requires AllOk(bs, page) && Ordered(bs) && 0 <= a < U64 && Affected(bs, address, size, a) && !InRange(a, address, size)
    ensures bs != [] && View(bs, page, a).Mapped? && View(bs, page, a).perms == bs[|bs| - 1].perms
  {
    hide OnPage;
    ViewAt(bs, page, |bs| - 1, a);
  }

  // ------------------------------------------------------- taking execute permission away

  predicate HasExec(perms: nat) {
    perms / PROT_EXEC % 2 == 1
  }

  lemma HasExecIs(perms: nat)
    requires perms <= 7
    ensures HasExec(perms) <==> perms >= 4
  {
  }

  /** Some address that the request changes could be executed. */
  ghost predicate TakesExec(bs: seq<Region>, page: nat, address: nat, size: nat)
    requires AllOk(bs, page)
  {
    exists a :: 0 <= a < U64 && Affected(bs, address, size, a) && View(bs, page, a).Mapped? && HasExec(View(bs, page, a).perms)
  }

  lemma NothingTaken(bs: seq<Region>, page: nat, address: nat)
    requires AllOk(bs, page) && address < U64
    ensures !TakesExec(bs, page, address, 0)
  {
    hide View;
  }

  /** One more region: its permissions are those that its addresses had at first. */
  lemma TakesExecStep(bs: seq<Region>, cs: seq<Region>, page: nat, i: nat, address: nat, count: nat, size: nat, len: nat, perms: nat)
    requires Protecting(bs, cs, page, address, count, size, perms) && count < size && AllOk(cs, page) && Ordered(cs) && i < |cs|
    requires cs[i].Has((address + count) % U64) && !StartsInsideTop(bs, address)
    requires AtRegion(bs, TopAddr(cs), cs[i], address, count, len, size) && (TouchesTop(bs, address, count) ==> !cs[i].Top())
    ensures TakesExec(bs, page, address, count + len) <==> TakesExec(bs, page, address, count) || HasExec(cs[i].perms)
  {
    hide View, OnPage, TopAddr, Affected, HasExec, AllMapped, Stepped;
    var addr := (address + count) % U64;
    forall a | 0 <= a < U64
      ensures Affected(bs, address, count + len, a) <==> Affected(bs, address, count, a) || Stepped(cs[i], addr, len, a)
      ensures Stepped(cs[i], addr, len, a) ==> cs[i].Has(a) && View(cs, page, a) == CellOf(cs[i], a)
    {
      AffectedStep(bs, TopAddr(cs), cs[i], address, count, len, size, a);
      if Stepped(cs[i], addr, len, a) {
        SteppedHas(cs[i], addr, len, a);
        ViewAt(cs, page, i, a);
      }
    }
    NotYet(bs, address, count, size);
    SteppedHas(cs[i], addr, len, addr);
  }

  lemma SteppedHas(mr: Region, addr: nat, len: nat, a: int)
    requires mr.Has(addr) && 0 < len && addr + len <= mr.Limit()
    ensures Stepped(mr, addr, len, a) ==> mr.Has(a)
    ensures Stepped(mr, addr, len, addr)
  {
  }
}
