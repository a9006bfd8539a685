/** The engine's memory map: regions in a sorted array, split as their pages change. */
module MemoryMaps {
  import opened Regions
  import opened MemoryRanges
  import opened RegionSplits
  import opened RegionWrites

  datatype Err = ERR_OK | ERR_NOMEM | ERR_ARG | ERR_MAP | ERR_READ_UNMAPPED | ERR_WRITE_UNMAPPED

  class MemoryMap {
    /** The regions in use and the number of slots of the array that holds them. */
    var blocks: seq<Region>
    var capacity: nat
    const page: nat

    ghost predicate Valid()
      reads this
    {
      && 0 < page && OnPage(U64, page)
      && AllOk(blocks, page) && Ordered(blocks)
      && RoundedUp(|blocks|) <= capacity
    }

    ghost function At(a: int): Cell
      reads this
      requires Valid()
    {
      View(blocks, page, a)
    }

    constructor (page: nat)
      requires 0 < page && OnPage(U64, page)
      ensures Valid() && blocks == [] && this.page == page
    {
      blocks, capacity := [], 0;
      this.page := page;
    }

    /** bsearch_mapped_blocks. */
    method Bsearch(address: nat) returns (pos: nat)
      requires Valid() && address < U64
      ensures IsPlace(blocks, address, pos)
    {
      hide OnPage;
      var left: nat, right: nat := 0, |blocks|;
      while left < right
        invariant left <= right <= |blocks|
        invariant forall i :: 0 <= i < left ==> blocks[i].Limit() <= address
        invariant forall i :: right <= i < |blocks| ==> address < blocks[i].addr
      {
        var mid := left + (right - left) / 2;
        var mapping := blocks[mid];
        LastAddress(mapping, page);
        if (mapping.End() + U64 - 1) % U64 < address {
          assert forall i :: 0 <= i < mid ==> blocks[i].Limit() <= mapping.addr;
          left := mid + 1;
        } else if mapping.addr > address {
          assert forall i :: mid < i < |blocks| ==> mapping.Limit() <= blocks[i].addr;
          right := mid;
        } else {
          assert forall i :: 0 <= i < mid ==> blocks[i].Limit() <= mapping.addr;
          assert forall i :: mid < i < |blocks| ==> mapping.Limit() <= blocks[i].addr;
          return mid;
        }
      }
      return left;
    }

    /** memory_overlap: exact for a range that does not wrap around. */
    method MemoryOverlap(begin: nat, size: nat) returns (overlap: bool)
      requires Valid() && 0 < size && begin + size <= U64
      ensures overlap <==> Overlaps(blocks, page, begin, size)
    {
      hide OnPage, View;
      var end := begin + size - 1;
      var i := Bsearch(begin);
      OverlapAt(blocks, page, begin, size, i);
      if i >= |blocks| {
        return false;
      }
      return end >= blocks[i].addr;
    }

    /** mem_map: a region that overlaps no other goes to its place. */
    method MapBlock(block: Region)
      requires Valid() && RegionOk(block, page)
      requires !Overlaps(blocks, page, block.addr, block.size)
      modifies this
      ensures Valid() && |blocks| == |old(blocks)| + 1
      ensures MappedAs(old(blocks), blocks, page, block)
    {
      hide OnPage, View, CellOf, TopAddr;
      RoundedStep(|blocks|);
      if |blocks| % MEM_BLOCK_INCR == 0 {
        capacity := |blocks| + MEM_BLOCK_INCR;
      }
      assert |blocks| < capacity;
      var pos := Bsearch(block.addr);
      ghost var bs := blocks;
      FreeBeyond(bs, page, block, pos);
      InsertedOk(bs, page, pos, block);
      blocks := blocks[..pos] + [block] + blocks[pos..];
      InsertedTop(bs, page, pos, block);
      forall a ensures View(blocks, page, a) == if block.Has(a) then CellOf(block, a) else View(bs, page, a) {
        InsertedView(bs, page, pos, block, a);
      }
      assert blocks[pos] == block;
      assert bs == bs[..pos] + bs[pos..];
    }

    /** mem_map_check. */
    method MapCheck(address: nat, size: nat, perms: nat) returns (err: Err)
      requires Valid() && address < U64 && size < U64
      ensures err == MapResult(address, size, perms)
      ensures err == ERR_OK || err == ERR_ARG || err == ERR_MAP
      ensures err == ERR_ARG <==> size == 0 || address + size > 0x1_0000_0000_0000_0000 || address % page != 0 || size % page != 0 || perms > 7
      ensures err == ERR_OK ==> forall a :: address <= a < address + size ==> !View(blocks, page, a).Mapped?
      ensures err == ERR_MAP ==> exists a :: address <= a < address + size && View(blocks, page, a).Mapped?
    {
      hide View, OnPage;
      OnPageIs(address, page);
      OnPageIs(size, page);
      if size == 0 {
        return ERR_ARG;
      }
      NoWrap(address, size);
      if (address + size - 1) % U64 < address {
        return ERR_ARG;
      }
      if !OnPage(address, page) {
        return ERR_ARG;
      }
      if !OnPage(size, page) {
        return ERR_ARG;
      }
      if perms > PROT_ALL {
        return ERR_ARG;
      }
      var overlap := MemoryOverlap(address, size);
      return if overlap then ERR_MAP else ERR_OK;
    }

    /** uc_mem_map: new memory, filled with zeros. */
    method MemMap(address: nat, size: nat, perms: nat) returns (err: Err)
      requires Valid() && address < U64 && size < U64
      modifies this
      ensures Valid() && err == old(MapResult(address, size, perms))
      ensures err != ERR_OK ==> blocks == old(blocks)
      ensures err == ERR_OK ==> MappedAs(old(blocks), blocks, page, Region(address, size, perms, Own(Zeros(size))))
      ensures err == ERR_OK ==> forall a :: View(blocks, page, a) == if address <= a < address + size then Mapped(perms, Byte(0)) else View(old(blocks), page, a)
    {
      hide View, OnPage, MappedAs, CellOf;
      err := MapCheck(address, size, perms);
      if err != ERR_OK {
        return;
      }
      var block := Region(address, size, perms, Own(Zeros(size)));
      MapBlock(block);
      MappedMeans(old(blocks), blocks, page, block);
    }

    /** uc_mem_map_ptr. */
    method MemMapPtr(address: nat, size: nat, perms: nat, ptr: nat) returns (err: Err)
      requires Valid() && address < U64 && size < U64
      modifies this
      ensures Valid() && err == if ptr == 0 then ERR_ARG else old(MapResult(address, size, perms))
      ensures err != ERR_OK ==> blocks == old(blocks)
      ensures err == ERR_OK ==> MappedAs(old(blocks), blocks, page, Region(address, size, perms, Host(ptr)))
      ensures err == ERR_OK ==> forall a :: View(blocks, page, a) == if address <= a < address + size then Mapped(perms, HostByte(ptr + (a - address))) else View(old(blocks), page, a)
    {
      hide View, OnPage, MappedAs, CellOf;
      if ptr == 0 {
        return ERR_ARG;
      }
      err := MapCheck(address, size, perms);
      if err != ERR_OK {
        return;
      }
      var block := Region(address, size, perms, Host(ptr));
      MapBlock(block);
      MappedMeans(old(blocks), blocks, page, block);
    }

    /** memory_mapping: the region that contains the address, if any. */
    method FindMapping(address: nat) returns (i: nat)
      requires Valid() && address < U64
      ensures i <= |blocks| && (i < |blocks| <==> At(address) != Unmapped) && (i < |blocks| ==> blocks[i].Has(address))
    {
      hide View, OnPage;
      i := Bsearch(address);
      PlaceView(blocks, page, address, i);
      if i < |blocks| && blocks[i].addr > address {
        i := |blocks|;
      }
    }

    /** check_mem_area: is every address of the range mapped? */
    method CheckMemArea(address: nat, size: nat) returns (ok: bool)
      requires Valid() && address < U64 && size < U64
      ensures ok <==> AllMapped(blocks, page, address, size)
    {
      hide View, OnPage;
      var count: nat := 0;
      var addr := address;
      RangeStart(blocks, page, address);
      while count < size
        invariant count <= size && addr == (address + count) % U64
        invariant AllMapped(blocks, page, address, count)
      {
        var i := FindMapping(addr);
        if i == |blocks| {
          NotAllMapped(blocks, page, address, count, size);
          break;
        }
        var len := RegionLen(blocks[i], addr, size - count);
        RegionLenIs(blocks[i], page, addr, size - count);
        RangeMore(blocks, page, address, count, len, i);
        Advance(address, count, len);
        count := count + len;
        addr := (addr + len) % U64;
      }
      return count == size;
    }

    /** memory_unmap: the region leaves the array, which keeps its size. */
    method RemoveBlock(i: nat)
      requires Valid() && i < |blocks|
      modifies this`blocks
      ensures Valid() && blocks == Removed(old(blocks), i)
      ensures forall a :: View(blocks, page, a) == if old(blocks)[i].Has(a) then Unmapped else View(old(blocks), page, a)
      ensures TopAddr(blocks) == if old(blocks)[i].Top() then U64 else TopAddr(old(blocks))
    {
      hide View, OnPage, TopAddr;
      ghost var bs := blocks;
      forall a ensures AllOk(Removed(bs, i), page) && Ordered(Removed(bs, i)) && View(Removed(bs, i), page, a) == if bs[i].Has(a) then Unmapped else View(bs, page, a) {
        RemovedView(bs, page, i, a);
      }
      RemovedTop(bs, page, i);
      RoundedLess(|bs| - 1, |bs|);
      blocks := blocks[..i] + blocks[i + 1..];
    }

    /** uc_mem_write: all of the range must be mapped; the map's own bytes of it are replaced,
        write permission or not, and nothing else changes. */
    method MemWrite(address: nat, bytes: seq<bv8>) returns (err: Err)
      requires Valid() && address < U64 && |bytes| < U64
      modifies this`blocks
      ensures Valid() && err == if AllMapped(old(blocks), page, address, |bytes|) then ERR_OK else ERR_WRITE_UNMAPPED
      ensures err != ERR_OK ==> blocks == old(blocks)
      ensures err == ERR_OK ==> WrittenAs(old(blocks), blocks, page, address, bytes, |bytes|)
    {
      hide View, OnPage, WrittenAs, AllMapped;
      var mapped := CheckMemArea(address, |bytes|);
      if !mapped {
        return ERR_WRITE_UNMAPPED;
      }
      ghost var bs := blocks;
      var count: nat, addr := 0, address;
      WriteStart(bs, page, address, bytes);
      while count < |bytes|
        invariant Valid() && count <= |bytes| && addr == (address + count) % U64
        invariant WrittenAs(bs, blocks, page, address, bytes, count)
      {
        StillThere(bs, blocks, page, address, bytes, count);
        var i := FindMapping(addr);
        var len := RegionLen(blocks[i], addr, |bytes| - count);
        RegionLenIs(blocks[i], page, addr, |bytes| - count);
        StoredOk(blocks, page, i, addr, bytes[count..count + len]);
        ghost var cs := blocks;
        blocks := blocks[i := Stored(blocks[i], addr, bytes[count..count + len])];
        WriteStep(bs, cs, blocks, page, i, address, bytes, count, len);
        Advance(address, count, len);
        count := count + len;
        addr := (addr + len) % U64;
      }
      return ERR_OK;
    }

    /** uc_mem_read: all of the range must be mapped; then it is what its addresses see. */
    method MemRead(address: nat, size: nat) returns (err: Err, out: seq<Source>)
      requires Valid() && address < U64 && size < U64
      ensures err == if AllMapped(blocks, page, address, size) then ERR_OK else ERR_READ_UNMAPPED
      ensures err == ERR_OK ==> |out| == size && ReadAs(blocks, page, address, out)
    {
      hide View, OnPage, AllMapped, ReadAs;
      out := [];
      var mapped := CheckMemArea(address, size);
      if !mapped {
        return ERR_READ_UNMAPPED, [];
      }
      var addr := address;
      NothingRead(blocks, page, address);
      while |out| < size
        invariant |out| <= size && addr == (address + |out|) % U64 && ReadAs(blocks, page, address, out)
      {
        MappedThere(blocks, page, address, |out|, size);
        var i := FindMapping(addr);
        var len := RegionLen(blocks[i], addr, size - |out|);
        RegionLenIs(blocks[i], page, addr, size - |out|);
        ReadStep(blocks, page, i, address, out, len);
        Advance(address, |out|, len);
        out := out + Sources(blocks[i], addr, len);
        addr := (addr + len) % U64;
      }
      err := ERR_OK;
    }

    /** Written, then read: across any number of regions, the bytes that are the map's own are those
        that were written. */
    method WriteThenRead(address: nat, bytes: seq<bv8>) returns (err: Err, out: seq<Source>)
      requires Valid() && address < U64 && |bytes| < U64 && AllMapped(blocks, page, address, |bytes|)
      modifies this`blocks
      ensures err == ERR_OK && |out| == |bytes|
      ensures forall k :: 0 <= k < |out| ==>
                if OwnByte(old(blocks), page, (address + k) % U64) then out[k] == Byte(bytes[k]) else Sees(old(blocks), page, (address + k) % U64, out[k])
    {
      hide View, OnPage, WrittenAs, ReadAs, OwnByte, Sees;
      err := MemWrite(address, bytes);
      StillMappedAll(old(blocks), blocks, page, address, bytes);
      err, out := MemRead(address, |bytes|);
      ReadBack(old(blocks), blocks, page, address, bytes, out);
    }

    /** Written, then protected anywhere with any permissions, then read: protecting neither unmaps
        anything nor loses a byte. */
    method WriteProtectRead(address: nat, bytes: seq<bv8>, from: nat, size: nat, perms: nat, pc: nat) returns (err: Err, out: seq<Source>)
      requires Valid() && address < U64 && |bytes| < U64 && from < U64 && size < U64 && AllMapped(blocks, page, address, |bytes|)
      modifies this
      ensures err == ERR_OK && |out| == |bytes|
      ensures forall k :: 0 <= k < |out| ==> OwnByte(old(blocks), page, (address + k) % U64) ==> out[k] == Byte(bytes[k])
    {
      hide View, OnPage, WrittenAs, ReadAs, OwnByte, Sees, AllMapped, Affected, RangeProtected, TopSafe, TakesExec, RangeResult, ProtectedAs;
      err := MemWrite(address, bytes);
      StillMappedAll(old(blocks), blocks, page, address, bytes);
      ghost var cs := blocks;
      var refused, stop := MemProtect(from, size, perms, pc);
      SameSources(cs, blocks, page, address, |bytes|);
      err, out := MemRead(address, |bytes|);
      ReadSame(cs, blocks, page, address, out);
      ReadBack(old(blocks), cs, page, address, bytes, out);
    }

    /** Maps a piece of a region again: uc_mem_map and uc_mem_write of the saved bytes, or
        uc_mem_map_ptr for memory of the host. */
    method Remap(begin: nat, size: nat, perms: nat, backup: Backing) returns (ok: bool)
      requires Valid() && RegionOk(Region(begin, size, perms, backup), page)
      requires !Overlaps(blocks, page, begin, size)
      modifies this
      ensures ok && Valid() && MappedAs(old(blocks), blocks, page, Region(begin, size, perms, backup))
    {
      hide View, CellOf, TopAddr, OnPage, MappedAs, WrittenAs;
      if backup.Own? {
        var err := MemMap(begin, size, perms);
        if err != ERR_OK {
          return false;
        }
        ghost var cs := blocks;
        NewMapped(old(blocks), cs, page, Region(begin, size, perms, Own(Zeros(size))));
        err := MemWrite(begin, backup.bytes);
        if err != ERR_OK {
          return false;
        }
        MappedThenWritten(old(blocks), cs, blocks, page, Region(begin, size, perms, backup));
      } else {
        var err := MemMapPtr(begin, size, perms, backup.ptr);
        if err != ERR_OK {
          return false;
        }
      }
      return true;
    }

    /** split_region: afterwards the range is a region of its own, or is unmapped. */
    method SplitRegion(i: nat, address0: nat, size: nat, doDelete: bool) returns (ok: bool)
      requires Valid() && i < |blocks| && address0 < U64 && address0 + size <= U64
      requires OnPage(address0, page) && OnPage(size, page)
      modifies this
      ensures Valid()
      ensures ok <==> Kept(old(blocks)[i], address0, size) || !Missed(old(blocks)[i], address0, size)
      ensures Kept(old(blocks)[i], address0, size) || !ok ==> blocks == old(blocks)
      ensures !Kept(old(blocks)[i], address0, size) && ok ==> SplitAs(old(blocks), blocks, page, i, address0, size, doDelete)
      decreases if Kept(blocks[i], address0, size) then 0 else 3
    {
      hide View, OnPage, CellOf, TopAddr, Kept, Missed, Slice, Hole, MappedAs, Overlaps, UnmappedAs, IsWhole, AllMapped;
      var mr := blocks[i];
      var address, chunkEnd := address0, (address0 + size) % U64;
      CutIs(mr, page, address0, size);
      if Kept(mr, address, size) {
        return true;
      }
      if Missed(mr, address, size) {
        return false;
      }
      ghost var bs := blocks;
      var backup, perms, begin := mr.backing, mr.perms, mr.addr;
      var end := mr.End();
      CutBounds(mr, page, address, size, chunkEnd, end);
      CutOnPage(mr, page, address, size);
      WholeRegion(bs, page, i);
      var err := MemUnmap(mr.addr, mr.size);
      if err != ERR_OK {
        return false;
      }
      WholeHole(bs, blocks, page, i);
      if address < begin {
        address := begin;
      }
      if chunkEnd > end {
        chunkEnd := end;
      }
      var lSize: nat, rSize: nat, mSize: nat := address - begin, end - chunkEnd, chunkEnd - address;
      ok := true;
      ghost var mid := Piece(mr, page, address, chunkEnd);
      if lSize > 0 {
        ghost var cs := blocks;
        PieceOk(mr, page, begin, address);
        FreeInHole(bs, cs, page, begin, end, begin, address);
        ok := Remap(begin, lSize, perms, Slice(backup, 0, lSize));
        FillLow(bs, i, cs, blocks, page, begin, address, end);
      }
      if mSize > 0 && !doDelete {
        ghost var cs := blocks;
        PieceOk(mr, page, address, chunkEnd);
        FreeInHole(bs, cs, page, address, end, address, chunkEnd);
        ok := Remap(address, mSize, perms, Slice(backup, lSize, mSize));
        FillLow(bs, i, cs, blocks, page, address, chunkEnd, end);
        MappedHas(cs, blocks, page, mid, mid);
      }
      if rSize > 0 {
        ghost var cs := blocks;
        PieceOk(mr, page, chunkEnd, end);
        FreeInHole(bs, cs, page, if doDelete then address else chunkEnd, end, chunkEnd, end);
        ok := Remap(chunkEnd, rSize, perms, Slice(backup, lSize + mSize, rSize));
        if doDelete {
          FillHigh(bs, i, cs, blocks, page, address, chunkEnd, end);
        } else {
          FillLow(bs, i, cs, blocks, page, chunkEnd, end, end);
          MappedHas(cs, blocks, page, Piece(mr, page, chunkEnd, end), mid);
        }
      }
      if !doDelete {
        EmptyHole(bs, blocks, page, end, address);
      }
    }

    /** One turn of the loop of uc_mem_unmap. */
    method UnmapOne(i: nat, addr: nat, len: nat) returns (ok: bool)
      requires Valid() && i < |blocks| && InsideOf(blocks[i], page, addr, len)
      modifies this
      ensures Valid() && (ok <==> !CutsTop(old(blocks)[i], addr))
      ensures !ok ==> blocks == old(blocks)
      ensures ok ==> StepRemoved(old(blocks), blocks, page, old(blocks)[i], addr, len)
      decreases if Kept(blocks[i], addr, len) then 1 else 4
    {
      hide View, TopAddr, OnPage, Kept, Missed, CutLow, CutHigh;
      ghost var cs, mr := blocks, blocks[i];
      SplitInside(mr, page, addr, len);
      ok := SplitRegion(i, addr, len, true);
      if !ok {
        return;
      }
      var j := FindMapping(addr);
      if Kept(mr, addr, len) {
        StillMapped(cs, page, i, addr);
        SameBlock(cs, i, j, addr);
      } else {
        StepCut(cs, blocks, page, i, addr, len);
      }
      if j < |blocks| {
        RemoveBlock(j);
        StepWhole(cs, blocks, page, i, addr, len);
      }
    }

    /** uc_mem_unmap. */
    method MemUnmap(address: nat, size: nat) returns (err: Err)
      requires Valid() && address < U64 && size < U64
      modifies this
      ensures Valid()
      ensures err == RangeResult(old(blocks), page, address, size)
      ensures err != ERR_OK ==> blocks == old(blocks)
      ensures err == ERR_OK ==> UnmappedAs(old(blocks), blocks, page, address, size)
      ensures forall a :: 0 <= a < 0x1_0000_0000_0000_0000 ==>
                View(blocks, page, a) == if err == ERR_OK && Affected(old(blocks), address, size, a) then Unmapped else View(old(blocks), page, a)
      ensures Requested(old(blocks), page, address, size) ==>
                (err == ERR_OK && RangeUnmapped(old(blocks), blocks, page, address, size) <==> TopSafe(old(blocks), address, size))
      decreases if IsWhole(blocks, address, size) then 2 else 5
    {
      hide View, TopAddr, OnPage, Kept, UnmappedAs, AllMapped, IsWhole, InsideOf, StepRemoved, CutsTop, Unmapping, StartsInsideTop, RangeUnmapped, TopSafe;
      NothingAffected(blocks, page, address, size);
      if size == 0 {
        UnmappedMeans(blocks, blocks, page, address, size);
        return ERR_OK;
      }
      if !OnPage(address, page) {
        return ERR_ARG;
      }
      if !OnPage(size, page) {
        return ERR_ARG;
      }
      var mapped := CheckMemArea(address, size);
      if !mapped {
        return ERR_NOMEM;
      }
      ghost var bs := blocks;
      var addr := address;
      var count: nat := 0;
      UnmappingStart(bs, page, address, size);
      while count < size
        invariant Valid() && count <= size && addr == (address + count) % U64
        invariant Unmapping(bs, blocks, page, address, count, size)
      {
        NextMapped(bs, blocks, page, address, count, size);
        var i := FindMapping(addr);
        var len := RegionLen(blocks[i], addr, size - count);
        ghost var cs, mr := blocks, blocks[i];
        UnmappingNext(bs, cs, page, i, address, count, size, len);
        var ok := UnmapOne(i, addr, len);
        if !ok {
          UnmapExact(bs, blocks, page, address, size);
          return ERR_NOMEM;
        }
        UnmappingStep(bs, cs, blocks, page, i, address, count, size, len);
        Advance(address, count, len);
        count := count + len;
        addr := (addr + len) % U64;
      }
      UnmappingDone(bs, blocks, page, address, size);
      UnmappedMeans(bs, blocks, page, address, size);
      UnmapExact(bs, blocks, page, address, size);
      return ERR_OK;
    }

    /** One turn of the loop of uc_mem_protect. */
    method ProtectOne(i: nat, addr: nat, len: nat, perms: nat) returns (ok: bool, noExec: bool)
      requires Valid() && i < |blocks| && InsideOf(blocks[i], page, addr, len) && perms <= PROT_ALL
      modifies this
      ensures Valid() && (ok <==> !CutsTop(old(blocks)[i], addr))
      ensures !ok ==> blocks == old(blocks)
      ensures ok ==> StepProtected(old(blocks), blocks, page, old(blocks)[i], addr, len, perms)
      ensures ok ==> forall a ::
                && (View(blocks, page, a).Mapped? <==> View(old(blocks), page, a).Mapped?)
                && (View(old(blocks), page, a).Mapped? ==> View(blocks, page, a).source == View(old(blocks), page, a).source)
                && (View(old(blocks), page, a).Mapped? && addr <= a < addr + len ==> View(blocks, page, a).perms == perms)
      ensures ok ==> (noExec <==> HasExec(old(blocks)[i].perms) && !HasExec(perms))
    {
      hide View, TopAddr, OnPage, Kept, Missed, CutLow, CutHigh, SplitAs, StepProtected, HasExec;
      ghost var cs, mr := blocks, blocks[i];
      SplitInside(mr, page, addr, len);
      ok := SplitRegion(i, addr, len, false);
      noExec := false;
      if !ok {
        return;
      }
      ghost var ds := blocks;
      if Kept(mr, addr, len) {
        StillMapped(cs, page, i, addr);
      } else {
        CutMapped(cs, ds, page, i, addr, len);
      }
      var j := FindMapping(addr);
      if Kept(mr, addr, len) {
        SameBlock(cs, i, j, addr);
        WholeProtected(cs, page, i, addr, len, perms);
      } else {
        PieceProtected(cs, ds, page, i, j, addr, len, perms);
        PiecePerms(cs, ds, page, i, j, addr, len);
      }
      noExec := HasExec(blocks[j].perms) && !HasExec(perms);
      ProtectedOk(ds, page, j, perms);
      blocks := blocks[j := blocks[j].(perms := perms)];
      StepMeans(cs, blocks, page, mr, addr, len, perms);
    }

    /** The loop of uc_mem_protect, over a mapped range. */
    method ProtectRange(address: nat, size: nat, perms: nat) returns (ok: bool, removeExec: bool)
      requires Valid() && address < U64 && size < U64 && perms <= PROT_ALL && Requested(blocks, page, address, size)
      modifies this
      ensures Valid() && (ok <==> !StartsInsideTop(old(blocks), address))
      ensures !ok ==> blocks == old(blocks)
      ensures ok ==> ProtectedAs(old(blocks), blocks, page, address, size, perms)
      ensures ok ==> (removeExec <==> !HasExec(perms) && TakesExec(old(blocks), page, address, size))
    {
      hide View, TopAddr, OnPage, Kept, ProtectedAs, AllMapped, InsideOf, StepProtected, CutsTop, Protecting, StartsInsideTop, HasExec, TakesExec, AtRegion, TouchesTop, RegionLen, Ordered, AllOk;
      ghost var bs := blocks;
      var addr := address;
      var count: nat := 0;
      removeExec := false;
      NothingTaken(bs, page, address);
      ProtectingStart(bs, page, address, size, perms);
      while count < size
        invariant Valid() && count <= size && addr == (address + count) % U64
        invariant Protecting(bs, blocks, page, address, count, size, perms)
        invariant removeExec <==> !HasExec(perms) && TakesExec(bs, page, address, count)
      {
        NextProtected(bs, blocks, page, address, count, size, perms);
        var i := FindMapping(addr);
        var len := RegionLen(blocks[i], addr, size - count);
        ghost var cs := blocks;
        ProtectingNext(bs, cs, page, i, address, count, size, len, perms);
        var noExec;
        ok, noExec := ProtectOne(i, addr, len, perms);
        if !ok {
          return;
        }
        TakesExecStep(bs, cs, page, i, address, count, size, len, perms);
        removeExec := removeExec || noExec;
        ProtectingStep(bs, cs, blocks, page, i, address, count, size, len, perms);
        Advance(address, count, len);
        count := count + len;
        addr := (addr + len) % U64;
      }
      ProtectingDone(bs, blocks, page, address, size, perms);
      ok := true;
    }

    /** uc_mem_protect. `stop` says that the emulation is stopped, because the instruction at `pc`
        may have lost its execute permission. */
    method MemProtect(address: nat, size: nat, perms: nat, pc: nat) returns (err: Err, stop: bool)
      requires Valid() && address < U64 && size < U64
      modifies this
      ensures Valid()
      ensures err == if size != 0 && perms > PROT_ALL then ERR_ARG else RangeResult(old(blocks), page, address, size)
      ensures err != ERR_OK ==> blocks == old(blocks)
      ensures err == ERR_OK ==> ProtectedAs(old(blocks), blocks, page, address, size, perms)
      ensures forall a :: 0 <= a < 0x1_0000_0000_0000_0000 ==>
                && (View(blocks, page, a).Mapped? <==> View(old(blocks), page, a).Mapped?)
                && (View(old(blocks), page, a).Mapped? ==> View(blocks, page, a).source == View(old(blocks), page, a).source)
                && (View(old(blocks), page, a).Mapped? ==> View(blocks, page, a).perms == if err == ERR_OK && Affected(old(blocks), address, size, a) then perms else View(old(blocks), page, a).perms)
      ensures perms <= PROT_ALL && Requested(old(blocks), page, address, size) ==>
                (err == ERR_OK && RangeProtected(old(blocks), blocks, page, address, size, perms) <==>
                   || TopSafe(old(blocks), address, size)
                   || (!StartsInsideTop(old(blocks), address) && old(blocks) != [] && old(blocks)[|old(blocks)| - 1].perms == perms))
      ensures stop <==> err == ERR_OK && size != 0 && !HasExec(perms) && TakesExec(old(blocks), page, address, size) && address <= pc < (address + size) % U64
    {
      hide View, TopAddr, OnPage, ProtectedAs, AllMapped, StartsInsideTop, RangeProtected, TopSafe, HasExec, TakesExec;
      NothingProtected(blocks, page, address, size, perms);
      if size == 0 {
        return ERR_OK, false;
      }
      if !OnPage(address, page) {
        return ERR_ARG, false;
      }
      if !OnPage(size, page) {
        return ERR_ARG, false;
      }
      if perms > PROT_ALL {
        return ERR_ARG, false;
      }
      var mapped := CheckMemArea(address, size);
      if !mapped {
        return ERR_NOMEM, false;
      }
      var ok, removeExec := ProtectRange(address, size, perms);
      if ok {
        ProtectedMeans(old(blocks), blocks, page, address, size, perms);
      }
      ProtectExact(old(blocks), blocks, page, address, size, perms);
      if !ok {
        return ERR_NOMEM, false;
      }
      return ERR_OK, removeExec && pc < (address + size) % U64 && pc >= address;
    }

    /** What a request to unmap or protect a range is answered with: the range must be mapped, and
        must not start strictly inside a region that reaches the end of the address space. */
    static ghost function RangeResult(bs: seq<Region>, page: nat, address: nat, size: nat): Err
      requires 0 < page && AllOk(bs, page)
    {
      if size == 0 then ERR_OK
      else if !OnPage(address, page) || !OnPage(size, page) then ERR_ARG
      else if !AllMapped(bs, page, address, size) || StartsInsideTop(bs, address) then ERR_NOMEM
      else ERR_OK
    }

    /** What a request to map is answered with. */
    ghost function MapResult(address: nat, size: nat, perms: nat): Err
      reads this
      requires Valid()
    {
      if size == 0 || address + size > U64 || !OnPage(address, page) || !OnPage(size, page) || perms > PROT_ALL then ERR_ARG
      else if Overlaps(blocks, page, address, size) then ERR_MAP
      else ERR_OK
    }
  }

  /** The answers, by the addresses of the range and the last region. */
  lemma ResultMeans(bs: seq<Region>, page: nat, address: nat, size: nat)
    requires 0 < page && AllOk(bs, page) && size > 0 && address < U64
    ensures var err := MemoryMap.RangeResult(bs, page, address, size);
            && (err == ERR_OK || err == ERR_ARG || err == ERR_NOMEM)
            && (err == ERR_ARG <==> address % page != 0 || size % page != 0)
            && (err == ERR_NOMEM ==>
                  || (bs != [] && bs[|bs| - 1].addr + bs[|bs| - 1].size == 0x1_0000_0000_0000_0000 && bs[|bs| - 1].addr < address)
                  || exists a :: 0 <= a < 0x1_0000_0000_0000_0000 && InRange(a, address, size) && View(bs, page, a) == Unmapped)
            && (err == ERR_OK ==> forall a :: 0 <= a < 0x1_0000_0000_0000_0000 && InRange(a, address, size) ==> View(bs, page, a).Mapped?)
            && (err == ERR_OK && bs != [] && bs[|bs| - 1].addr + bs[|bs| - 1].size == 0x1_0000_0000_0000_0000 ==> address <= bs[|bs| - 1].addr)
  {
    hide View, AllOk;
    if !AllMapped(bs, page, address, size) {
      var a :| 0 <= a < U64 && InRange(a, address, size) && View(bs, page, a) == Unmapped;
    }
  }

  /** Two pages at the end of the address space, mapped. */
  method LastPages() returns (m: MemoryMap)
    ensures fresh(m) && m.Valid() && m.page == 0x1000 && TopAddr(m.blocks) == U64 - 0x2000
    ensures AllMapped(m.blocks, 0x1000, U64 - 0x2000, 0x2000)
  {
    m := new MemoryMap(0x1000);
    var err := m.MemMapPtr(U64 - 0x2000, 0x2000, PROT_ALL, 1);
    assert err == ERR_OK;
  }

  /** Unmapping the first of them removes both. */
  method UnmapFirstOfLast() returns (m: MemoryMap, err: Err)
    ensures err == ERR_OK && m.Valid() && m.At(U64 - 1) == Unmapped
  {
    m := LastPages();
    hide View, TopAddr;
    ghost var bs := m.blocks;
    assert AllMapped(bs, 0x1000, U64 - 0x2000, 0x1000);
    err := m.MemUnmap(U64 - 0x2000, 0x1000);
    assert Affected(bs, U64 - 0x2000, 0x1000, U64 - 1);
  }

  /** Unmapping the second is refused. */
  method UnmapSecondOfLast() returns (m: MemoryMap, err: Err)
    ensures err == ERR_NOMEM && m.Valid() && m.At(U64 - 1) != Unmapped
  {
    m := LastPages();
    hide View, TopAddr;
    err := m.MemUnmap(U64 - 0x1000, 0x1000);
    assert InRange(U64 - 1, U64 - 0x2000, 0x2000);
  }
}
