/** Writing to and reading from mapped regions, byte by byte. */
module RegionWrites {
  import opened Regions
  import opened MemoryRanges

  /** Which byte of a range an address takes; the last address is followed by 0. */
  ghost function Nth(a: int, address: nat): int {
    if a >= address then a - address else a + U64 - address
  }

  /** What an address sees after the byte was stored there; memory of the host is not the map's. */
  ghost function WithByte(c: Cell, b: bv8): Cell {
    if c.Mapped? && c.source.Byte? then c.(source := Byte(b)) else c
  }

  /** The same regions, with other bytes. */
  ghost predicate SameShape(bs: seq<Region>, cs: seq<Region>) {
    && |cs| == |bs|
    && forall i :: 0 <= i < |bs| ==> cs[i].addr == bs[i].addr && cs[i].size == bs[i].size && cs[i].perms == bs[i].perms && (bs[i].backing.Own? <==> cs[i].backing.Own?)
  }

  /** The first `count` bytes are stored from `address` on, and nothing else changed. */
  ghost predicate WrittenAs(bs: seq<Region>, cs: seq<Region>, page: nat, address: nat, bytes: seq<bv8>, count: nat) {
    && AllOk(bs, page) && AllOk(cs, page) && SameShape(bs, cs) && count <= |bytes| < U64 && address < U64
    && (forall a :: 0 <= a < U64 ==>
          View(cs, page, a) == if InRange(a, address, count) && 0 <= Nth(a, address) < count then WithByte(View(bs, page, a), bytes[Nth(a, address)]) else View(bs, page, a))
    && (forall i :: 0 <= i < |bs| ==> cs[i] != bs[i] ==> exists a :: bs[i].Has(a) && InRange(a, address, count))
  }

  /** One region after `bytes` were copied into it at `addr`. */
  function Stored(r: Region, addr: nat, bytes: seq<bv8>): Region
    requires r.addr <= addr && addr + |bytes| <= r.addr + r.size && (r.backing.Own? ==> |r.backing.bytes| == r.size)
  {
    if r.backing.Host? then r else
      var off := addr - r.addr;
      r.(backing := Own(r.backing.bytes[..off] + bytes + r.backing.bytes[off + |bytes|..]))
  }

  lemma StoredOk(bs: seq<Region>, page: nat, i: nat, addr: nat, bytes: seq<bv8>)
    requires AllOk(bs, page) && Ordered(bs) && i < |bs| && bs[i].addr <= addr && addr + |bytes| <= bs[i].Limit()
    ensures RegionOk(bs[i], page) && RegionOk(Stored(bs[i], addr, bytes), page)
    ensures var cs := bs[i := Stored(bs[i], addr, bytes)]; AllOk(cs, page) && Ordered(cs) && SameShape(bs, cs)
  {
    hide OnPage;
    assert RegionOk(bs[i], page);
  }

  lemma StoredView(bs: seq<Region>, cs: seq<Region>, page: nat, i: nat, addr: nat, bytes: seq<bv8>, a: int)
    requires AllOk(bs, page) && Ordered(bs) && i < |bs| && bs[i].addr <= addr && addr + |bytes| <= bs[i].Limit() && RegionOk(bs[i], page)
    requires cs == bs[i := Stored(bs[i], addr, bytes)] && AllOk(cs, page) && Ordered(cs)
    ensures View(cs, page, a) == if addr <= a < addr + |bytes| then WithByte(View(bs, page, a), bytes[a - addr]) else View(bs, page, a)
  {
    hide View, OnPage, AllOk, Ordered;
    if bs[i].Has(a) {
      ViewAt(bs, page, i, a);
      ViewAt(cs, page, i, a);
    } else if View(bs, page, a) != Unmapped {
      var j := ViewSome(bs, page, a);
      ViewAt(cs, page, j, a);
    } else if View(cs, page, a) != Unmapped {
      var j := ViewSome(cs, page, a);
      ViewAt(bs, page, j, a);
    }
  }

  lemma NthNext(address: nat, count: nat, len: nat, a: int)
    requires address < U64 && count + len < U64 && 0 <= a < U64 && (address + count) % U64 + len <= U64
    ensures var addr := (address + count) % U64;
            && (InRange(a, address, count + len) && 0 <= Nth(a, address) < count + len <==>
                  (InRange(a, address, count) && 0 <= Nth(a, address) < count) || addr <= a < addr + len)
            && (addr <= a < addr + len ==> Nth(a, address) == count + (a - addr) && !InRange(a, address, count))
  {
    NextAddress(address, count);
  }

  /** What a write does to every address: byte `k` goes to address `address + k` modulo 2^64, where that is
      memory of the map; permissions and all other bytes stay. */
  lemma WrittenMeans(bs: seq<Region>, cs: seq<Region>, page: nat, address: nat, bytes: seq<bv8>, a: int)
    requires WrittenAs(bs, cs, page, address, bytes, |bytes|) && 0 <= a < U64
    ensures View(cs, page, a).Mapped? <==> View(bs, page, a).Mapped?
    ensures View(bs, page, a).Mapped? ==> View(cs, page, a).perms == View(bs, page, a).perms
    ensures View(bs, page, a).Mapped? && View(bs, page, a).source.HostByte? ==> View(cs, page, a).source == View(bs, page, a).source
    ensures !(address <= a < address + |bytes|) && !(a + 0x1_0000_0000_0000_0000 < address + |bytes|) ==> View(cs, page, a) == View(bs, page, a)
    ensures View(bs, page, a).Mapped? && View(bs, page, a).source.Byte? && address <= a < address + |bytes| ==>
              View(cs, page, a).source == Byte(bytes[a - address])
    ensures View(bs, page, a).Mapped? && View(bs, page, a).source.Byte? && a + 0x1_0000_0000_0000_0000 < address + |bytes| ==>
              View(cs, page, a).source == Byte(bytes[a + 0x1_0000_0000_0000_0000 - address])
  {
    hide View, OnPage;
  }

  lemma WriteStart(bs: seq<Region>, page: nat, address: nat, bytes: seq<bv8>)
    requires AllOk(bs, page) && address < U64 && |bytes| < U64
    ensures WrittenAs(bs, bs, page, address, bytes, 0)
  {
    hide View, OnPage;
  }

  /** One more region of the range. */
  lemma WriteStep(bs: seq<Region>, cs: seq<Region>, ds: seq<Region>, page: nat, i: nat, address: nat, bytes: seq<bv8>, count: nat, len: nat)
    requires WrittenAs(bs, cs, page, address, bytes, count) && 0 < len && count + len <= |bytes| && Ordered(cs) && i < |cs|
    requires cs[i].addr <= (address + count) % U64 && (address + count) % U64 + len <= cs[i].Limit() <= U64 && RegionOk(cs[i], page)
    requires ds == cs[i := Stored(cs[i], (address + count) % U64, bytes[count..count + len])] && AllOk(ds, page) && Ordered(ds) && SameShape(cs, ds)
    ensures WrittenAs(bs, ds, page, address, bytes, count + len)
  {
    hide View, OnPage, InRange, Nth;
    var addr, part := (address + count) % U64, bytes[count..count + len];
    forall a | 0 <= a < U64
      ensures View(ds, page, a) == if InRange(a, address, count + len) && 0 <= Nth(a, address) < count + len then WithByte(View(bs, page, a), bytes[Nth(a, address)]) else View(bs, page, a)
    {
      NthNext(address, count, len, a);
      StoredView(cs, ds, page, i, addr, part, a);
    }
    forall k | 0 <= k < |bs| && ds[k] != bs[k]
      ensures exists a :: bs[k].Has(a) && InRange(a, address, count + len)
    {
      if k == i {
        NthNext(address, count, len, addr);
        assert bs[k].Has(addr);
      } else {
        var a :| bs[k].Has(a) && InRange(a, address, count);
        WiderRange(a, address, count, len);
      }
    }
  }

  lemma WiderRange(a: int, address: nat, count: nat, len: nat)
    requires InRange(a, address, count)
    ensures InRange(a, address, count + len)
  {
  }

  /** New memory of zeros, then written from end to end, is memory with those bytes. */
  lemma MappedThenWritten(bs: seq<Region>, cs: seq<Region>, ds: seq<Region>, page: nat, r: Region)
    requires r.backing.Own? && RegionOk(r, page) && MappedAs(bs, cs, page, r.(backing := Own(Zeros(r.size))))
    requires Ordered(ds) && WrittenAs(cs, ds, page, r.addr, r.backing.bytes, r.size) && !Overlaps(bs, page, r.addr, r.size)
    ensures MappedAs(bs, ds, page, r)
  {
    hide View, OnPage;
    var r0 := r.(backing := Own(Zeros(r.size)));
    forall a
      ensures View(ds, page, a) == if r.Has(a) then CellOf(r, a) else View(bs, page, a)
    {
      if 0 <= a < U64 {
        assert InRange(a, r.addr, r.size) <==> r.Has(a);
      } else {
        ViewNone(bs, page, a);
        ViewNone(ds, page, a);
      }
    }
    var k :| 0 <= k < |cs| && cs[k] == r0;
    SameBytes(ds, page, k, r);
    forall x | x in bs ensures x in ds {
      var m :| 0 <= m < |cs| && cs[m] == x;
      if ds[m] != cs[m] {
        var a :| cs[m].Has(a) && InRange(a, r.addr, r.size);
        assert RegionOk(x, page);
        ViewNone(bs, page, a);
      }
    }
    TopSame(cs, ds);
  }

  lemma TopSame(bs: seq<Region>, cs: seq<Region>)
    requires SameShape(bs, cs)
    ensures TopAddr(cs) == TopAddr(bs)
  {
  }

  lemma SameBytes(ds: seq<Region>, page: nat, k: nat, r: Region)
    requires AllOk(ds, page) && Ordered(ds) && k < |ds| && RegionOk(r, page) && r.backing.Own? && ds[k].backing.Own?
    requires ds[k].addr == r.addr && ds[k].size == r.size && ds[k].perms == r.perms
    requires forall a :: r.Has(a) ==> View(ds, page, a) == CellOf(r, a)
    ensures ds[k] == r
  {
    hide View, OnPage;
    assert RegionOk(ds[k], page);
    forall i | 0 <= i < r.size ensures ds[k].backing.bytes[i] == r.backing.bytes[i] {
      ViewAt(ds, page, k, r.addr + i);
      assert CellOf(ds[k], r.addr + i) == CellOf(r, r.addr + i);
    }
    assert ds[k].backing.bytes == r.backing.bytes;
  }

  // ------------------------------------------------------- reading

  /** Where the bytes of part of a region come from. */
  function Sources(r: Region, addr: nat, len: nat): (s: seq<Source>)
    requires r.addr <= addr && addr + len <= r.addr + r.size && (r.backing.Own? ==> |r.backing.bytes| == r.size)
    ensures |s| == len
  {
    var off := addr - r.addr;
    seq(len, i requires 0 <= i < len => if r.backing.Own? then Byte(r.backing.bytes[off + i]) else HostByte(r.backing.ptr + off + i))
  }

  ghost predicate Sees(bs: seq<Region>, page: nat, a: int, s: Source)
    requires AllOk(bs, page)
  {
    View(bs, page, a).Mapped? && View(bs, page, a).source == s
  }

  /** The sources are those that the addresses of the range see. */
  ghost predicate ReadAs(bs: seq<Region>, page: nat, address: nat, out: seq<Source>) {
    && AllOk(bs, page) && address < U64 && |out| < U64
    && forall k :: 0 <= k < |out| ==> Sees(bs, page, (address + k) % U64, out[k])
  }

  /** Byte `k` of what was read is the source at address `address + k` modulo 2^64. */
  lemma ReadMeans(bs: seq<Region>, page: nat, address: nat, out: seq<Source>, k: nat)
    requires ReadAs(bs, page, address, out) && k < |out|
    ensures AllOk(bs, page)
    ensures var a := (address + k) % 0x1_0000_0000_0000_0000; View(bs, page, a).Mapped? && View(bs, page, a).source == out[k]
  {
    hide View, AllOk;
    assert Sees(bs, page, (address + k) % U64, out[k]);
  }

  lemma ReadStep(bs: seq<Region>, page: nat, i: nat, address: nat, out: seq<Source>, len: nat)
    requires ReadAs(bs, page, address, out) && Ordered(bs) && i < |bs| && RegionOk(bs[i], page) && |out| + len < U64
    requires bs[i].addr <= (address + |out|) % U64 && (address + |out|) % U64 + len <= bs[i].Limit() <= U64
    ensures ReadAs(bs, page, address, out + Sources(bs[i], (address + |out|) % U64, len))
  {
    hide View, OnPage;
    var addr, n := (address + |out|) % U64, |out|;
    var more := out + Sources(bs[i], addr, len);
    forall k | 0 <= k < |more|
      ensures Sees(bs, page, (address + k) % U64, more[k])
    {
      if k < n {
        assert more[k] == out[k];
      } else {
        NextAddress(address, n);
        NextAddress(address, k);
        assert (address + k) % U64 == addr + (k - n);
        ViewAt(bs, page, i, addr + (k - n));
      }
    }
  }

  /** The address sees a byte of the map's own, not memory of the host. */
  ghost predicate OwnByte(bs: seq<Region>, page: nat, a: int)
    requires AllOk(bs, page)
  {
    View(bs, page, a).Mapped? && View(bs, page, a).source.Byte?
  }

  /** What was written is what the addresses see, except for memory of the host. */
  lemma ReadBack(bs: seq<Region>, cs: seq<Region>, page: nat, address: nat, bytes: seq<bv8>, out: seq<Source>)
    requires WrittenAs(bs, cs, page, address, bytes, |bytes|) && ReadAs(cs, page, address, out) && |out| == |bytes|
    ensures forall k :: 0 <= k < |out| ==>
              if OwnByte(bs, page, (address + k) % U64) then out[k] == Byte(bytes[k]) else Sees(bs, page, (address + k) % U64, out[k])
  {
    hide View, OnPage;
    forall k | 0 <= k < |out|
      ensures if OwnByte(bs, page, (address + k) % U64) then out[k] == Byte(bytes[k]) else Sees(bs, page, (address + k) % U64, out[k])
    {
      var a := (address + k) % U64;
      NextAddress(address, k);
      assert InRange(a, address, |bytes|) && Nth(a, address) == k && Sees(cs, page, a, out[k]);
      assert View(cs, page, a) == WithByte(View(bs, page, a), bytes[k]);
    }
  }

  lemma StillThere(bs: seq<Region>, cs: seq<Region>, page: nat, address: nat, bytes: seq<bv8>, count: nat)
    requires WrittenAs(bs, cs, page, address, bytes, count) && count < |bytes| && AllMapped(bs, page, address, |bytes|)
    ensures View(cs, page, (address + count) % U64) != Unmapped
  {
    hide View, OnPage;
    MappedThere(bs, page, address, count, |bytes|);
  }

  lemma MappedThere(bs: seq<Region>, page: nat, address: nat, count: nat, size: nat)
    requires AllOk(bs, page) && address < U64 && count < size < U64 && AllMapped(bs, page, address, size)
    ensures View(bs, page, (address + count) % U64) != Unmapped
  {
    hide View, OnPage;
    NextAddress(address, count);
    assert InRange((address + count) % U64, address, size);
  }

  lemma StillMappedAll(bs: seq<Region>, cs: seq<Region>, page: nat, address: nat, bytes: seq<bv8>)
    requires WrittenAs(bs, cs, page, address, bytes, |bytes|) && AllMapped(bs, page, address, |bytes|)
    ensures AllMapped(cs, page, address, |bytes|)
  {
    hide View, OnPage, InRange, Nth;
  }

  /** The same addresses are mapped and see the same bytes. */
  ghost predicate SameBytesSeen(bs: seq<Region>, cs: seq<Region>, page: nat) {
    && AllOk(bs, page) && AllOk(cs, page)
    && forall a :: 0 <= a < U64 ==>
         && (View(cs, page, a).Mapped? <==> View(bs, page, a).Mapped?)
         && (View(bs, page, a).Mapped? ==> View(cs, page, a).source == View(bs, page, a).source)
  }

  lemma SameSources(bs: seq<Region>, cs: seq<Region>, page: nat, address: nat, size: nat)
    requires SameBytesSeen(bs, cs, page) && AllMapped(bs, page, address, size)
    ensures AllMapped(cs, page, address, size)
  {
    hide View, AllOk, InRange;
  }

  lemma ReadSame(bs: seq<Region>, cs: seq<Region>, page: nat, address: nat, out: seq<Source>)
    requires SameBytesSeen(bs, cs, page) && ReadAs(cs, page, address, out)
    ensures ReadAs(bs, page, address, out)
  {
    hide View, AllOk;
    forall k | 0 <= k < |out| ensures Sees(bs, page, (address + k) % U64, out[k]) {
      assert Sees(cs, page, (address + k) % U64, out[k]);
    }
  }

  lemma NothingRead(bs: seq<Region>, page: nat, address: nat)
    requires AllOk(bs, page) && address < U64
    ensures ReadAs(bs, page, address, [])
  {
  }

  lemma NewMapped(bs: seq<Region>, cs: seq<Region>, page: nat, r: Region)
    requires MappedAs(bs, cs, page, r)
    ensures AllMapped(cs, page, r.addr, r.size)
  {
    hide View, OnPage;
  }
}
