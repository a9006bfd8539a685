/** Mapped memory as a sorted list of regions, and what each address sees of it. */
module Regions {
  /** Addresses and sizes are 64 bits wide. */
  const U64: nat := 0x1_0000_0000_0000_0000

  const PROT_EXEC: nat := 4
  const PROT_ALL: nat := 7

  /** The bytes of a region: its own, or memory of the host that the caller supplied. */
  datatype Backing = Own(bytes: seq<bv8>) | Host(ptr: nat)

  /** A MemoryRegion. */
  datatype Region = Region(addr: nat, size: nat, perms: nat, backing: Backing) {
    /** The field `end`, which is 0 for a region that reaches the end of the address space. */
    function End(): nat {
      (addr + size) % U64
    }

    ghost function Limit(): nat {
      addr + size
    }

    ghost predicate Has(a: int) {
      addr <= a < addr + size
    }

    ghost predicate Top() {
      addr + size == U64
    }
  }

  /** What an address sees: where its byte comes from and with which permissions. */
  datatype Source = Byte(b: bv8) | HostByte(p: nat)
  datatype Cell = Unmapped | Mapped(perms: nat, source: Source)

  /** The bits of `n` below the page size are all zero. */
  predicate OnPage(n: int, page: nat)
    requires page > 0
  {
    n % page == 0
  }

  lemma OnPageIs(n: int, page: nat)
    requires page > 0
    ensures OnPage(n, page) <==> n % page == 0
  {
  }

  ghost predicate RegionOk(r: Region, page: nat) {
    && 0 < page && 0 < r.size < U64 && r.addr + r.size <= U64 && r.perms <= PROT_ALL
    && OnPage(r.addr, page) && OnPage(r.size, page)
    && (r.backing.Own? ==> |r.backing.bytes| == r.size)
    && (r.backing.Host? ==> r.backing.ptr != 0)
  }

  ghost predicate AllOk(bs: seq<Region>, page: nat) {
    forall i :: 0 <= i < |bs| ==> RegionOk(bs[i], page)
  }

  /** Sorted by address, and disjoint. */
  ghost predicate Ordered(bs: seq<Region>) {
    forall i, j :: 0 <= i < j < |bs| ==> bs[i].Limit() <= bs[j].addr
  }

  ghost function CellOf(r: Region, a: int): Cell
    requires r.Has(a) && (r.backing.Own? ==> |r.backing.bytes| == r.size)
  {
    Mapped(r.perms, if r.backing.Own? then Byte(r.backing.bytes[a - r.addr]) else HostByte(r.backing.ptr + (a - r.addr)))
  }

  ghost function View(bs: seq<Region>, page: nat, a: int): Cell
    requires AllOk(bs, page)
  {
    if bs == [] then Unmapped
    else if bs[0].Has(a) then CellOf(bs[0], a)
    else View(bs[1..], page, a)
  }

  lemma {:induction false} ViewAt(bs: seq<Region>, page: nat, i: nat, a: int)
    requires AllOk(bs, page) && Ordered(bs) && i < |bs| && bs[i].Has(a)
    ensures View(bs, page, a) == CellOf(bs[i], a)
  {
    if i > 0 {
      assert bs[0].Limit() <= bs[i].addr;
      ViewAt(bs[1..], page, i - 1, a);
    }
  }

  /** No region from the list has the address. */
  ghost predicate NoneHas(bs: seq<Region>, a: int) {
    forall i :: 0 <= i < |bs| ==> !bs[i].Has(a)
  }

  lemma {:induction false} ViewNone(bs: seq<Region>, page: nat, a: int)
    requires AllOk(bs, page)
    ensures View(bs, page, a) == Unmapped <==> NoneHas(bs, a)
  {
    if bs != [] {
      ViewNone(bs[1..], page, a);
      assert NoneHas(bs, a) <==> !bs[0].Has(a) && NoneHas(bs[1..], a);
    }
  }

  /** A mapped address is in some region, and sees that region. */
  lemma ViewSome(bs: seq<Region>, page: nat, a: int) returns (i: nat)
    requires AllOk(bs, page) && Ordered(bs) && View(bs, page, a) != Unmapped
    ensures i < |bs| && bs[i].Has(a) && View(bs, page, a) == CellOf(bs[i], a)
  {
    ViewNone(bs, page, a);
    i :| 0 <= i < |bs| && bs[i].Has(a);
    ViewAt(bs, page, i, a);
  }

  /** What an address sees, by the fields of the region that contains it. */
  lemma ViewIs(bs: seq<Region>, page: nat, a: int)
    requires AllOk(bs, page) && Ordered(bs)
    ensures View(bs, page, a).Mapped? <==> exists i :: 0 <= i < |bs| && bs[i].addr <= a < bs[i].addr + bs[i].size
    ensures forall i :: 0 <= i < |bs| && bs[i].addr <= a < bs[i].addr + bs[i].size ==>
              && View(bs, page, a).perms == bs[i].perms
              && match bs[i].backing {
                   case Own(bytes) => |bytes| == bs[i].size && View(bs, page, a).source == Byte(bytes[a - bs[i].addr])
                   case Host(ptr) => View(bs, page, a).source == HostByte(ptr + (a - bs[i].addr))
                 }
  {
    hide View, OnPage;
    ViewNone(bs, page, a);
    forall i | 0 <= i < |bs| && bs[i].Has(a)
      ensures RegionOk(bs[i], page) && View(bs, page, a) == CellOf(bs[i], a)
    {
      ViewAt(bs, page, i, a);
    }
  }

  ghost function Inserted(bs: seq<Region>, pos: nat, r: Region): seq<Region>
    requires pos <= |bs|
  {
    bs[..pos] + [r] + bs[pos..]
  }

  ghost function Removed(bs: seq<Region>, i: nat): seq<Region>
    requires i < |bs|
  {
    bs[..i] + bs[i + 1..]
  }

  lemma InsertedOk(bs: seq<Region>, page: nat, pos: nat, r: Region)
    requires AllOk(bs, page) && Ordered(bs) && RegionOk(r, page) && pos <= |bs|
    requires forall i :: 0 <= i < pos ==> bs[i].Limit() <= r.addr
    requires forall i :: pos <= i < |bs| ==> r.Limit() <= bs[i].addr
    ensures AllOk(Inserted(bs, pos, r), page) && Ordered(Inserted(bs, pos, r))
  {
  }

  lemma InsertedAt(bs: seq<Region>, pos: nat, r: Region, j: nat)
    requires pos <= |bs| && j <= |bs|
    ensures Inserted(bs, pos, r)[j] == if j < pos then bs[j] else if j == pos then r else bs[j - 1]
  {
  }

  lemma InsertedView(bs: seq<Region>, page: nat, pos: nat, r: Region, a: int)
    requires pos <= |bs| && AllOk(bs, page) && Ordered(bs) && AllOk(Inserted(bs, pos, r), page) && Ordered(Inserted(bs, pos, r)) && RegionOk(r, page)
    ensures View(Inserted(bs, pos, r), page, a) == if r.Has(a) then CellOf(r, a) else View(bs, page, a)
  {
    hide View, AllOk, Ordered, OnPage;
    var cs := Inserted(bs, pos, r);
    if r.Has(a) {
      InsertedAt(bs, pos, r, pos);
      ViewAt(cs, page, pos, a);
    } else if View(bs, page, a) != Unmapped {
      var i := ViewSome(bs, page, a);
      var j := if i < pos then i else i + 1;
      InsertedAt(bs, pos, r, j);
      ViewAt(cs, page, j, a);
    } else if View(cs, page, a) != Unmapped {
      var j := ViewSome(cs, page, a);
      InsertedAt(bs, pos, r, j);
      ViewAt(bs, page, if j < pos then j else j - 1, a);
    }
  }

  lemma RemovedView(bs: seq<Region>, page: nat, i: nat, a: int)
    requires i < |bs| && AllOk(bs, page) && Ordered(bs)
    ensures AllOk(Removed(bs, i), page) && Ordered(Removed(bs, i))
    ensures View(Removed(bs, i), page, a) == if bs[i].Has(a) then Unmapped else View(bs, page, a)
  {
    var cs := Removed(bs, i);
    assert Inserted(cs, i, bs[i]) == bs;
    hide View;
    InsertedView(cs, page, i, bs[i], a);
    if bs[i].Has(a) {
      ViewNone(cs, page, a);
    }
  }

  ghost function WithPerms(c: Cell, perms: nat): Cell {
    if c.Mapped? then c.(perms := perms) else c
  }

  /** Changing the permissions of one region. */
  ghost function Protected(bs: seq<Region>, i: nat, perms: nat): seq<Region>
    requires i < |bs|
  {
    bs[i := bs[i].(perms := perms)]
  }

  lemma ProtectedOk(bs: seq<Region>, page: nat, i: nat, perms: nat)
    requires i < |bs| && AllOk(bs, page) && Ordered(bs) && perms <= PROT_ALL
    ensures AllOk(Protected(bs, i, perms), page) && Ordered(Protected(bs, i, perms))
  {
  }

  lemma ProtectedView(bs: seq<Region>, page: nat, i: nat, perms: nat, a: int)
    requires i < |bs| && AllOk(bs, page) && Ordered(bs) && perms <= PROT_ALL
    requires AllOk(Protected(bs, i, perms), page) && Ordered(Protected(bs, i, perms))
    ensures View(Protected(bs, i, perms), page, a) == if bs[i].Has(a) then WithPerms(View(bs, page, a), perms) else View(bs, page, a)
  {
    hide View, AllOk, Ordered, OnPage;
    var cs := Protected(bs, i, perms);
    if bs[i].Has(a) {
      ViewAt(bs, page, i, a);
      ViewAt(cs, page, i, a);
    } else if View(bs, page, a) != Unmapped {
      var j := ViewSome(bs, page, a);
      ViewAt(cs, page, j, a);
    } else if View(cs, page, a) != Unmapped {
      var j := ViewSome(cs, page, a);
      ViewAt(bs, page, j, a);
    }
  }

  // ------------------------------------------------------- the region at the end of the address space

  /** Where the region starts that reaches the end of the address space; U64 if there is none. */
  ghost function TopAddr(bs: seq<Region>): nat {
    if bs != [] && bs[|bs| - 1].Top() then bs[|bs| - 1].addr else U64
  }

  lemma TopIs(bs: seq<Region>, page: nat, i: nat)
    requires AllOk(bs, page) && Ordered(bs) && i < |bs|
    ensures bs[i].Top() ==> TopAddr(bs) == bs[i].addr
    ensures !bs[i].Top() ==> bs[i].Limit() <= TopAddr(bs)
    ensures TopAddr(bs) <= U64
  {
    hide OnPage;
    assert RegionOk(bs[i], page) && RegionOk(bs[|bs| - 1], page);
    if i < |bs| - 1 {
      assert bs[i].Limit() <= bs[|bs| - 1].addr;
    }
  }

  lemma InsertedTop(bs: seq<Region>, page: nat, pos: nat, r: Region)
    requires AllOk(bs, page) && Ordered(bs) && RegionOk(r, page) && pos <= |bs|
    requires AllOk(Inserted(bs, pos, r), page) && Ordered(Inserted(bs, pos, r))
    ensures TopAddr(Inserted(bs, pos, r)) == if r.Top() then r.addr else TopAddr(bs)
  {
    hide OnPage;
    var cs := Inserted(bs, pos, r);
    assert cs[pos] == r;
    TopIs(cs, page, pos);
    if pos < |bs| {
      assert cs[|bs|] == bs[|bs| - 1];
    } else if pos > 0 {
      assert cs[pos - 1] == bs[pos - 1] && cs[pos - 1].Limit() <= cs[pos].addr;
    }
  }

  lemma RemovedTop(bs: seq<Region>, page: nat, i: nat)
    requires i < |bs| && AllOk(bs, page) && Ordered(bs)
    ensures AllOk(Removed(bs, i), page) && Ordered(Removed(bs, i))
    ensures TopAddr(Removed(bs, i)) == if bs[i].Top() then U64 else TopAddr(bs)
  {
    var cs := Removed(bs, i);
    assert Inserted(cs, i, bs[i]) == bs;
    assert AllOk(cs, page) && Ordered(cs);
    hide AllOk, Ordered, Inserted;
    InsertedTop(cs, page, i, bs[i]);
    if bs[i].Top() {
      RemovedOther(bs, page, i);
    }
  }

  /** Only one region can be at the end. */
  lemma RemovedOther(bs: seq<Region>, page: nat, i: nat)
    requires i < |bs| && AllOk(bs, page) && Ordered(bs) && bs[i].Top()
    ensures i == |bs| - 1 && TopAddr(Removed(bs, i)) == U64
  {
    hide OnPage;
    assert RegionOk(bs[|bs| - 1], page);
    if i > 0 {
      assert RegionOk(bs[i - 1], page) && RegionOk(bs[i], page);
      assert bs[i - 1].Limit() <= bs[i].addr;
    }
  }
}
