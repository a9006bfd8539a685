/** Reading and writing guest memory through the dispatch: flatview_write and flatview_read. */
module FlatViews {
  import opened Arithmetic
  import opened Options
  import opened PhysPages
  import opened PhysPageMaps
  import opened Sections
  import opened Dispatch
  import opened AccessSizes
  import opened AccessRounds

  type Byte = bv8

  /** One round of the access loop: `size` bytes at guest address `addr`, at offset `xlat` of `mr`. */
  datatype Chunk = Chunk(mr: Region, addr: nat, xlat: nat, size: nat) {
    predicate Ram() {
      mr.Memory? && mr.ram
    }

    predicate Has(a: nat) {
      addr <= a < addr + size
    }
  }

  // ---------------------------------------------------------------- RAM contents

  type Ram = map<nat, seq<Byte>>

  /** The byte of RAM at guest address `a`, if there is RAM. */
  ghost function ByteAt(d: Index, ram: Ram, a: nat): Option<Byte>
    requires d.page > 0
  {
    match d.Where(a)
    case Some((Memory(id, true), off)) => if id in ram && 0 <= off < |ram[id]| then Some(ram[id][off]) else None
    case _ => None
  }

  /** RAM regions lie inside their blocks. */
  ghost predicate Backed(d: Index, ram: Ram)
    requires d.page > 0
  {
    forall a: nat :: a < TWO64 && IsRam(d, a) ==> ByteAt(d, ram, a).Some?
  }

  /** No byte of RAM is visible at two guest addresses. */
  ghost predicate Injective(d: Index)
    requires d.page > 0
  {
    forall a: nat, b: nat :: a < TWO64 && b < TWO64 && IsRam(d, a) && d.Where(a) == d.Where(b) ==> a == b
  }

  function Splice(block: seq<Byte>, at: nat, bytes: seq<Byte>): (r: seq<Byte>)
    requires at + |bytes| <= |block|
    ensures |r| == |block|
  {
    block[..at] + bytes + block[at + |bytes|..]
  }

  /** memcpy into a run of RAM changes the guest bytes of the run and no others. */
  lemma StoreRun(d: Index, ram: Ram, addr: nat, id: nat, xlat: nat, bytes: seq<Byte>)
    requires d.page > 0 && Backed(d, ram) && Injective(d) && addr + |bytes| <= TWO64
    requires Run(d, addr, |bytes|, Memory(id, true), xlat)
    requires id in ram && xlat + |bytes| <= |ram[id]|
    ensures var ram' := ram[id := Splice(ram[id], xlat, bytes)];
            && Backed(d, ram')
            && forall a: nat :: a < TWO64 ==>
                 ByteAt(d, ram', a) == if addr <= a < addr + |bytes| then Some(bytes[a - addr]) else ByteAt(d, ram, a)
  {
    hide Index.Where;
    var ram' := ram[id := Splice(ram[id], xlat, bytes)];
    forall a: nat | a < TWO64
      ensures ByteAt(d, ram', a) == if addr <= a < addr + |bytes| then Some(bytes[a - addr]) else ByteAt(d, ram, a)
      ensures IsRam(d, a) ==> ByteAt(d, ram', a).Some?
    {
      if IsRam(d, a) && d.Where(a).value.0.id == id {
        var off := d.Where(a).value.1;
        assert ByteAt(d, ram, a).Some?;
        if xlat <= off < xlat + |bytes| {
          var b: nat := addr + (off - xlat);
          assert d.Where(b) == Some((Memory(id, true), xlat + b - addr));
          assert a == b;
        }
      }
    }
  }

  lemma RunBacked(d: Index, ram: Ram, addr: nat, len: nat, id: nat, xlat: int)
    requires d.page > 0 && Backed(d, ram) && addr + len <= TWO64 && len > 0
    requires Run(d, addr, len, Memory(id, true), xlat)
    ensures id in ram && 0 <= xlat && xlat + len <= |ram[id]|
    ensures forall a: nat :: addr <= a < addr + len ==> ByteAt(d, ram, a) == Some(ram[id][xlat + a - addr])
  {
    hide Index.Where;
    assert IsRam(d, addr) && IsRam(d, addr + len - 1);
    forall a: nat | addr <= a < addr + len
      ensures id in ram && 0 <= xlat + a - addr < |ram[id]| && ByteAt(d, ram, a) == Some(ram[id][xlat + a - addr])
    {
      assert IsRam(d, a);
    }
  }

  /** Guest bytes [lo, hi) now hold `bytes` counted from `origin`; all others are as in `ram`. */
  ghost predicate Wrote(d: Index, ram: Ram, ram': Ram, lo: nat, hi: nat, origin: nat, bytes: seq<Byte>)
    requires d.page > 0 && origin <= lo && hi <= origin + |bytes|
  {
    forall a: nat :: a < TWO64 ==>
      ByteAt(d, ram', a) == if lo <= a < hi then Some(bytes[a - origin]) else ByteAt(d, ram, a)
  }

  /** Each byte of each block is what it was, or the byte of `bytes` for a guest address from
      `origin` up to `end` that is at this place of this block. */
  ghost predicate BlocksKept(d: Index, ram: Ram, ram': Ram, origin: nat, end: nat, bytes: seq<Byte>)
    requires d.page > 0 && end <= origin + |bytes|
  {
    && ram'.Keys == ram.Keys && (forall id :: id in ram ==> |ram'[id]| == |ram[id]|)
    && (forall id, off :: id in ram && 0 <= off < |ram[id]| ==>
          ram'[id][off] == ram[id][off] ||
          (exists a: nat :: origin <= a < end && d.Where(a) == Some((Memory(id, true), off)) && ram'[id][off] == bytes[a - origin]))
  }

  lemma BlocksStored(d: Index, ram0: Ram, ram: Ram, origin: nat, addr: nat, bytes: seq<Byte>, id: nat, xlat: nat, len: nat)
    requires d.page > 0 && origin <= addr && addr + len <= origin + |bytes| && BlocksKept(d, ram0, ram, origin, addr, bytes)
    requires Run(d, addr, len, Memory(id, true), xlat) && id in ram && xlat + len <= |ram[id]|
    ensures BlocksKept(d, ram0, ram[id := Splice(ram[id], xlat, bytes[addr - origin..addr - origin + len])], origin, addr + len, bytes)
  {
    hide Index.Where;
    var part := bytes[addr - origin..addr - origin + len];
    var ram' := ram[id := Splice(ram[id], xlat, part)];
    forall i, off | i in ram0 && 0 <= off < |ram0[i]|
      ensures ram'[i][off] == ram0[i][off] ||
              exists a: nat :: origin <= a < addr + len && d.Where(a) == Some((Memory(i, true), off)) && ram'[i][off] == bytes[a - origin]
    {
      if i == id && xlat <= off < xlat + len {
        var a: nat := addr + (off - xlat);
        assert d.Where(a) == Some((Memory(id, true), off)) && ram'[i][off] == part[off - xlat] == bytes[a - origin];
      } else {
        assert ram'[i][off] == ram[i][off];
      }
    }
  }

  lemma BlocksStart(d: Index, ram: Ram, origin: nat, bytes: seq<Byte>)
    requires d.page > 0
    ensures BlocksKept(d, ram, ram, origin, origin, bytes)
  {
    hide Index.Where;
  }

  lemma BlocksLater(d: Index, ram0: Ram, ram: Ram, origin: nat, addr: nat, end: nat, bytes: seq<Byte>)
    requires d.page > 0 && addr <= end <= origin + |bytes| && BlocksKept(d, ram0, ram, origin, addr, bytes)
    ensures BlocksKept(d, ram0, ram, origin, end, bytes)
  {
    hide Index.Where;
  }

  /** A guest byte of RAM is a byte of a block. */
  lemma ByteIs(d: Index, ram: Ram, a: nat, id: nat, off: int)
    requires d.page > 0 && d.Where(a) == Some((Memory(id, true), off))
    ensures ByteAt(d, ram, a).Some? <==> id in ram && 0 <= off < |ram[id]|
    ensures ByteAt(d, ram, a).Some? ==> ByteAt(d, ram, a).value == ram[id][off]
  {
  }

  // ---------------------------------------------------------------- rounds

  /** The chunks of an access follow one another from `addr` to `end`; those that go to a device are
      powers of two and, unless the device takes unaligned accesses, naturally aligned. */
  predicate Tiles(ops: Region -> Ops, chunks: seq<Chunk>, addr: nat, end: nat) {
    if chunks == [] then
      addr == end
    else
      var c := chunks[|chunks| - 1];
      && c.size > 0 && c.addr + c.size == end
      && (!c.Ram() ==> IsPow2(c.size) && (!ops(c.mr).unaligned ==> Aligned(c.xlat, c.size)))
      && Tiles(ops, chunks[..|chunks| - 1], addr, c.addr)
  }

  /** A MemTxResult, by the numbers of its bits. */
  type Flags = set<nat>

  /** What an access returns: a flag is in it if and only if some device round returned the flag. */
  ghost predicate Results(status: Chunk -> Flags, chunks: seq<Chunk>, result: Flags) {
    forall f :: f in result <==> exists i :: 0 <= i < |chunks| && !chunks[i].Ram() && f in status(chunks[i])
  }

  lemma ResultsMore(status: Chunk -> Flags, chunks: seq<Chunk>, result: Flags, c: Chunk)
    requires Results(status, chunks, result)
    ensures Results(status, chunks + [c], if c.Ram() then result else result + status(c))
  {
    var more := chunks + [c];
    assert more[|chunks|] == c && forall i :: 0 <= i < |chunks| ==> more[i] == chunks[i];
  }

  /** The chunks in numbers: they follow one another, and device chunks are powers of two, aligned
      unless the device takes unaligned accesses. */
  lemma {:induction false} TilesAre(ops: Region -> Ops, chunks: seq<Chunk>, addr: nat, end: nat)
    requires Tiles(ops, chunks, addr, end)
    ensures if chunks == [] then addr == end else chunks[0].addr == addr && chunks[|chunks| - 1].addr + chunks[|chunks| - 1].size == end
    ensures forall i :: 0 <= i < |chunks| - 1 ==> chunks[i + 1].addr == chunks[i].addr + chunks[i].size
    ensures forall i :: 0 <= i < |chunks| ==> ChunkOk(ops, chunks[i])
  {
    hide IsPow2, Aligned;
    if chunks != [] {
      var n := |chunks| - 1;
      TilesAre(ops, chunks[..n], addr, chunks[n].addr);
      ChunkIs(ops, chunks[n]);
      forall i | 0 <= i < n ensures ChunkOk(ops, chunks[i]) && chunks[i + 1].addr == chunks[i].addr + chunks[i].size {
        assert chunks[..n][i] == chunks[i] && (i + 1 < n ==> chunks[..n][i + 1] == chunks[i + 1]);
      }
    }
  }

  ghost predicate ChunkOk(ops: Region -> Ops, c: Chunk) {
    c.size > 0 && (!c.Ram() ==> (exists k: nat :: c.size == Pow2(k)) && (ops(c.mr).unaligned || c.xlat % c.size == 0))
  }

  lemma ChunkIs(ops: Region -> Ops, c: Chunk)
    requires c.size > 0 && (!c.Ram() ==> IsPow2(c.size) && (!ops(c.mr).unaligned ==> Aligned(c.xlat, c.size)))
    ensures ChunkOk(ops, c)
  {
    IsPow2Is(c.size);
  }

  /** A device without a maximum of its own, at an offset where 4 bytes can be accessed at once. */
  ghost predicate TakesFour(d: Index, ops: Region -> Ops, addr: nat)
    requires d.page > 0
  {
    && !IsRam(d, addr) && ops(RegionAt(d, addr)).maxAccessSize == 0 && OffsetAt(d, addr) >= 0
    && (ops(RegionAt(d, addr)).unaligned || OffsetAt(d, addr) % 4 == 0)
  }

  lemma OnlyChunk(ops: Region -> Ops, chunks: seq<Chunk>, addr: nat, end: nat)
    requires Tiles(ops, chunks, addr, end) && addr < end
    ensures chunks != [] && chunks[0].addr == addr && (chunks[0].size == end - addr ==> |chunks| == 1)
  {
    TilesAre(ops, chunks, addr, end);
    TilesWithin(ops, chunks, addr, end);
    hide Tiles;
    forall i | 0 <= i < |chunks| ensures chunks[i].size > 0 {
      assert ChunkOk(ops, chunks[i]);
    }
    assert |chunks| > 1 ==> chunks[0 + 1].addr == chunks[0].addr + chunks[0].size;
  }

  /** A device that says nothing gets an aligned request of 4 bytes as one access. */
  lemma OneAccess(d: Index, ops: Region -> Ops, chunks: seq<Chunk>, addr: nat)
    requires d.page > 0 && Done(d, ops, chunks, addr, addr + 4, addr + 4) && TakesFour(d, ops, addr)
    ensures chunks == [Chunk(RegionAt(d, addr), addr, OffsetAt(d, addr), 4)]
  {
    hide Index.Ok, AccessSize, RegionAt, OffsetAt, Tiles, IsRam;
    OnlyChunk(ops, chunks, addr, addr + 4);
    DefaultAccess(ops(RegionAt(d, addr)), 4, OffsetAt(d, addr));
    assert IsRound(d, ops, chunks[0], addr + 4);
  }

  /** The status of a device round of a write depends on the bytes written. */
  ghost function WriteStatus(write: (Chunk, seq<Byte>) -> Flags, origin: nat, bytes: seq<Byte>): Chunk -> Flags {
    (c: Chunk) => if origin <= c.addr && c.addr + c.size <= origin + |bytes| then write(c, bytes[c.addr - origin..c.addr - origin + c.size]) else {}
  }

  /** A round goes to the region and offset that its first byte belongs to, as far as the round goes. */
  ghost predicate IsRound(d: Index, ops: Region -> Ops, c: Chunk, end: nat) {
    && d.Ok() && SizesOk(ops) && c.addr < end <= TWO64
    && c.mr == RegionAt(d, c.addr) && c.xlat == OffsetAt(d, c.addr) && c.size == RoundSize(d, ops, c.addr, end)
  }

  /** In full: the region and the offset are those of the first byte; a device round is one access of
      the size that the rest of the request allows; a RAM round ends with the section or the request. */
  lemma RoundMeans(d: Index, ops: Region -> Ops, c: Chunk, end: nat)
    requires IsRound(d, ops, c, end)
    ensures d.page > 0 && ops(c.mr).maxAccessSize < 0x8000_0000 && c.addr < end
    ensures d.Where(c.addr).Some? ==> d.Where(c.addr).value.0 == c.mr && d.Where(c.addr).value.1 == c.xlat
    ensures d.Where(c.addr).None? ==> c.mr == Unassigned && c.xlat == c.addr
    ensures !(c.mr.Memory? && c.mr.ram) ==> c.size == AccessSize(ops(c.mr), end - c.addr, c.xlat)
    ensures c.mr.Memory? && c.mr.ram ==>
              exists s :: s in d.sections && s.mr == c.mr && s.start <= c.addr < s.start + s.size && c.xlat - s.offset == c.addr - s.start &&
                          c.addr + c.size == if s.start + s.size < end then s.start + s.size else end
  {
    WhereOk(d, c.addr);
    if c.mr.Memory? && c.mr.ram {
      assert d.sections[d.Resolve(c.addr)] in d.sections;
    }
  }

  /** The rounds that have been done when the access to [addr0, end) has got to `addr`. */
  ghost predicate Done(d: Index, ops: Region -> Ops, chunks: seq<Chunk>, addr0: nat, addr: nat, end: nat) {
    && addr0 <= addr <= end && Tiles(ops, chunks, addr0, addr)
    && forall i :: 0 <= i < |chunks| ==> IsRound(d, ops, chunks[i], end)
  }

  /** ... and what they returned. */
  ghost predicate Rounds(d: Index, ops: Region -> Ops, status: Chunk -> Flags, chunks: seq<Chunk>, addr0: nat, addr: nat, end: nat, result: Flags) {
    Done(d, ops, chunks, addr0, addr, end) && Results(status, chunks, result)
  }

  lemma RoundsStart(d: Index, ops: Region -> Ops, status: Chunk -> Flags, addr0: nat, end: nat)
    requires addr0 <= end
    ensures Rounds(d, ops, status, [], addr0, addr0, end, {})
  {
  }

  lemma RoundFits(d: Index, ops: Region -> Ops, c: Chunk, end: nat)
    requires IsRound(d, ops, c, end) && Ends(d, c.addr, end)
    ensures 0 < c.size <= end - c.addr
    ensures !c.Ram() ==> IsPow2(c.size) && (!ops(c.mr).unaligned ==> Aligned(c.xlat, c.size))
  {
    RoundMoves(d, ops, c.addr, end);
    if !c.Ram() {
      AccessSizeOk(ops(c.mr), end - c.addr, c.xlat);
    }
  }

  lemma RoundsMore(d: Index, ops: Region -> Ops, status: Chunk -> Flags, chunks: seq<Chunk>, addr0: nat, end: nat, result: Flags, c: Chunk)
    requires Rounds(d, ops, status, chunks, addr0, c.addr, end, result) && IsRound(d, ops, c, end) && Ends(d, c.addr, end)
    ensures 0 < c.size <= end - c.addr
    ensures Rounds(d, ops, status, chunks + [c], addr0, c.addr + c.size, end, if c.Ram() then result else result + status(c))
  {
    hide IsPow2, Aligned, IsRound, Ends, Results;
    RoundFits(d, ops, c, end);
    ResultsMore(status, chunks, result, c);
    assert (chunks + [c])[..|chunks|] == chunks;
  }

  lemma {:induction false} TilesWithin(ops: Region -> Ops, chunks: seq<Chunk>, addr: nat, end: nat)
    requires Tiles(ops, chunks, addr, end)
    ensures addr <= end && forall i :: 0 <= i < |chunks| ==> addr <= chunks[i].addr && chunks[i].addr + chunks[i].size <= end
  {
    if chunks != [] {
      TilesWithin(ops, chunks[..|chunks| - 1], addr, chunks[|chunks| - 1].addr);
    }
  }

  lemma {:induction false} TilesCover(ops: Region -> Ops, chunks: seq<Chunk>, addr: nat, end: nat, a: nat) returns (i: nat)
    requires Tiles(ops, chunks, addr, end) && addr <= a < end
    ensures i < |chunks| && chunks[i].Has(a)
  {
    var n := |chunks| - 1;
    if chunks[n].addr <= a {
      i := n;
    } else {
      i := TilesCover(ops, chunks[..n], addr, chunks[n].addr, a);
    }
  }

  /** The number of rounds is the one after which the loop has arrived. */
  lemma {:induction false} RoundsCount(d: Index, ops: Region -> Ops, chunks: seq<Chunk>, addr0: nat, addr: nat, end: nat)
    requires d.Ok() && SizesOk(ops) && end <= TWO64 && Done(d, ops, chunks, addr0, addr, end)
    ensures After(d, ops, addr0, end, |chunks|) == addr
  {
    hide Index.Ok, RoundSize, SizesOk, RegionAt, OffsetAt, IsPow2, Aligned;
    if chunks != [] {
      var n := |chunks| - 1;
      TilesWithin(ops, chunks[..n], addr0, chunks[n].addr);
      RoundsCount(d, ops, chunks[..n], addr0, chunks[n].addr, end);
      assert IsRound(d, ops, chunks[n], end);
    }
  }

  /** In RAM all rounds are RAM rounds, and no flag is returned. */
  lemma RamRounds(d: Index, ops: Region -> Ops, status: Chunk -> Flags, chunks: seq<Chunk>, addr0: nat, end: nat, result: Flags)
    requires d.page > 0 && Rounds(d, ops, status, chunks, addr0, end, end, result) && AllRam(d, addr0, end - addr0)
    ensures result == {} && forall i :: 0 <= i < |chunks| ==> chunks[i].Ram()
  {
    TilesWithin(ops, chunks, addr0, end);
    hide Tiles;
    forall i | 0 <= i < |chunks| ensures chunks[i].Ram() {
      assert IsRound(d, ops, chunks[i], end) && IsRam(d, chunks[i].addr);
    }
  }

  /** The bytes of a RAM round are consecutive bytes of its block. */
  lemma RamRoundRun(d: Index, ops: Region -> Ops, c: Chunk, end: nat)
    requires IsRound(d, ops, c, end) && Faithful(d) && c.Ram()
    ensures Run(d, c.addr, c.size, c.mr, c.xlat)
  {
    WhereOk(d, c.addr);
    hide Index.Ok, Index.Where;
    var s := d.sections[d.Resolve(c.addr)];
    forall b: nat | c.addr <= b < c.addr + c.size ensures d.Where(b) == Some((c.mr, c.xlat + b - c.addr)) {
      assert d.Where(b) == Some(Target(s, b)) && d.Where(c.addr) == Some(Target(s, c.addr));
    }
  }

  // ---------------------------------------------------------------- what a write leaves

  ghost predicate InRam(chunks: seq<Chunk>, a: nat) {
    exists i :: 0 <= i < |chunks| && chunks[i].Ram() && chunks[i].Has(a)
  }

  /** The bytes of RAM rounds have their new values, all others are as in `ram0`. */
  ghost predicate Took(d: Index, ram0: Ram, ram: Ram, chunks: seq<Chunk>, origin: nat, bytes: seq<Byte>)
    requires d.page > 0
  {
    forall a: nat :: a < TWO64 ==>
      ByteAt(d, ram, a) == if InRam(chunks, a) && origin <= a < origin + |bytes| then Some(bytes[a - origin]) else ByteAt(d, ram0, a)
  }

  lemma InRamMore(chunks: seq<Chunk>, c: Chunk, a: nat)
    ensures InRam(chunks + [c], a) <==> InRam(chunks, a) || (c.Ram() && c.Has(a))
  {
    assert (chunks + [c])[|chunks|] == c;
    assert forall i :: 0 <= i < |chunks| ==> (chunks + [c])[i] == chunks[i];
  }

  lemma TookStart(d: Index, ram: Ram, origin: nat, bytes: seq<Byte>)
    requires d.page > 0
    ensures Took(d, ram, ram, [], origin, bytes)
  {
    hide ByteAt;
  }

  lemma TookDevice(d: Index, ram0: Ram, ram: Ram, chunks: seq<Chunk>, c: Chunk, origin: nat, bytes: seq<Byte>)
    requires d.page > 0 && Took(d, ram0, ram, chunks, origin, bytes) && !c.Ram()
    ensures Took(d, ram0, ram, chunks + [c], origin, bytes)
  {
    hide ByteAt, InRam;
    forall a: nat { InRamMore(chunks, c, a); }
  }

  lemma TookRam(d: Index, ram0: Ram, ram: Ram, ram': Ram, chunks: seq<Chunk>, c: Chunk, origin: nat, bytes: seq<Byte>)
    requires d.page > 0 && Took(d, ram0, ram, chunks, origin, bytes) && c.Ram()
    requires origin <= c.addr && c.addr + c.size <= origin + |bytes|
    requires Wrote(d, ram, ram', c.addr, c.addr + c.size, c.addr, bytes[c.addr - origin..c.addr - origin + c.size])
    ensures Took(d, ram0, ram', chunks + [c], origin, bytes)
  {
    hide ByteAt, InRam;
    forall a: nat { InRamMore(chunks, c, a); }
  }

  lemma RamWithin(ops: Region -> Ops, chunks: seq<Chunk>, addr: nat, end: nat, a: nat)
    requires Tiles(ops, chunks, addr, end)
    ensures InRam(chunks, a) ==> addr <= a < end
  {
    TilesWithin(ops, chunks, addr, end);
  }

  lemma InRamAt(chunks: seq<Chunk>, i: nat, a: nat)
    requires i < |chunks| && chunks[i].Ram() && chunks[i].Has(a)
    ensures InRam(chunks, a)
  {
  }

  /** What that comes to: outside the range nothing changes, and on RAM all of it does. */
  lemma TookAll(d: Index, ops: Region -> Ops, status: Chunk -> Flags, ram0: Ram, ram: Ram, chunks: seq<Chunk>, addr0: nat, bytes: seq<Byte>, result: Flags)
    requires d.page > 0 && addr0 + |bytes| <= TWO64 && Took(d, ram0, ram, chunks, addr0, bytes)
    requires Rounds(d, ops, status, chunks, addr0, addr0 + |bytes|, addr0 + |bytes|, result)
    ensures forall a: nat :: a < TWO64 && !(addr0 <= a < addr0 + |bytes|) ==> ByteAt(d, ram, a) == ByteAt(d, ram0, a)
    ensures AllRam(d, addr0, |bytes|) ==> result == {} && Wrote(d, ram0, ram, addr0, addr0 + |bytes|, addr0, bytes)
  {
    hide ByteAt, IsRound, IsRam, Results, InRam;
    forall a: nat ensures InRam(chunks, a) ==> addr0 <= a < addr0 + |bytes| {
      RamWithin(ops, chunks, addr0, addr0 + |bytes|, a);
    }
    if AllRam(d, addr0, |bytes|) {
      RamRounds(d, ops, status, chunks, addr0, addr0 + |bytes|, result);
      forall a: nat | addr0 <= a < addr0 + |bytes| ensures InRam(chunks, a) {
        var i := TilesCover(ops, chunks, addr0, addr0 + |bytes|, a);
        InRamAt(chunks, i, a);
      }
    }
  }

  ghost predicate ChunkHolds(ram: Ram, c: Chunk, bytes: seq<Byte>) {
    c.Ram() && c.mr.id in ram && c.xlat + c.size <= |ram[c.mr.id]| && ram[c.mr.id][c.xlat..c.xlat + c.size] == bytes
  }

  lemma WriteResult(d: Index, ops: Region -> Ops, write: (Chunk, seq<Byte>) -> Flags, chunks: seq<Chunk>, addr0: nat, bytes: seq<Byte>, result: Flags)
    requires Rounds(d, ops, WriteStatus(write, addr0, bytes), chunks, addr0, addr0 + |bytes|, addr0 + |bytes|, result)
    ensures Done(d, ops, chunks, addr0, addr0 + |bytes|, addr0 + |bytes|)
    ensures forall i :: 0 <= i < |chunks| ==> addr0 <= chunks[i].addr && chunks[i].addr + chunks[i].size <= addr0 + |bytes|
    ensures forall f :: f in result <==>
              exists i :: 0 <= i < |chunks| && !chunks[i].Ram() && f in write(chunks[i], bytes[chunks[i].addr - addr0..chunks[i].addr - addr0 + chunks[i].size])
  {
    TilesWithin(ops, chunks, addr0, addr0 + |bytes|);
    hide Tiles, IsRound;
    var status := WriteStatus(write, addr0, bytes);
    assert forall i :: 0 <= i < |chunks| ==> status(chunks[i]) == write(chunks[i], bytes[chunks[i].addr - addr0..chunks[i].addr - addr0 + chunks[i].size]);
  }

  lemma ReadResult(d: Index, ops: Region -> Ops, read: Chunk -> Flags, chunks: seq<Chunk>, addr0: nat, end: nat, result: Flags)
    requires Rounds(d, ops, read, chunks, addr0, end, end, result)
    ensures Done(d, ops, chunks, addr0, end, end)
    ensures forall i :: 0 <= i < |chunks| ==> addr0 <= chunks[i].addr && chunks[i].addr + chunks[i].size <= end
    ensures forall f :: f in result <==> exists i :: 0 <= i < |chunks| && !chunks[i].Ram() && f in read(chunks[i])
  {
    TilesWithin(ops, chunks, addr0, end);
  }

  // ---------------------------------------------------------------- what a read returns

  /** The bytes of one round: those of RAM, or what the device gives. */
  ghost function RoundBytes(d: Index, ram: Ram, device: (Chunk, nat) -> Byte, c: Chunk): (s: seq<Byte>)
    requires d.page > 0
    ensures |s| == c.size
  {
    seq(c.size, k requires 0 <= k < c.size =>
      if c.Ram() && ByteAt(d, ram, c.addr + k).Some? then ByteAt(d, ram, c.addr + k).value else device(c, k))
  }

  ghost function Fetched(d: Index, ram: Ram, device: (Chunk, nat) -> Byte, chunks: seq<Chunk>): seq<Byte>
    requires d.page > 0
  {
    if chunks == [] then [] else
      Fetched(d, ram, device, chunks[..|chunks| - 1]) + RoundBytes(d, ram, device, chunks[|chunks| - 1])
  }

  lemma FetchedStart(d: Index, ram: Ram, device: (Chunk, nat) -> Byte)
    requires d.page > 0
    ensures Fetched(d, ram, device, []) == []
  {
  }

  lemma DeviceBytes(d: Index, ram: Ram, device: (Chunk, nat) -> Byte, c: Chunk)
    requires d.page > 0 && !c.Ram()
    ensures RoundBytes(d, ram, device, c) == seq(c.size, i requires 0 <= i < c.size => device(c, i))
  {
  }

  lemma FetchedMore(d: Index, ram: Ram, device: (Chunk, nat) -> Byte, chunks: seq<Chunk>, c: Chunk)
    requires d.page > 0
    ensures Fetched(d, ram, device, chunks + [c]) == Fetched(d, ram, device, chunks) + RoundBytes(d, ram, device, c)
  {
    assert (chunks + [c])[..|chunks|] == chunks;
  }

  lemma {:induction false} FetchedLength(d: Index, ops: Region -> Ops, ram: Ram, device: (Chunk, nat) -> Byte, chunks: seq<Chunk>, addr: nat, end: nat)
    requires d.page > 0 && Tiles(ops, chunks, addr, end)
    ensures addr + |Fetched(d, ram, device, chunks)| == end
  {
    if chunks != [] {
      FetchedLength(d, ops, ram, device, chunks[..|chunks| - 1], addr, chunks[|chunks| - 1].addr);
    }
  }

  /** The bytes of a round are where the round is. */
  lemma {:induction false} FetchedRound(d: Index, ops: Region -> Ops, ram: Ram, device: (Chunk, nat) -> Byte, chunks: seq<Chunk>, addr: nat, end: nat, i: nat)
    requires d.page > 0 && Tiles(ops, chunks, addr, end) && i < |chunks|
    ensures var s, c := Fetched(d, ram, device, chunks), chunks[i];
            addr <= c.addr && c.addr + c.size <= end && addr + |s| == end && s[c.addr - addr..c.addr - addr + c.size] == RoundBytes(d, ram, device, c)
  {
    var n := |chunks| - 1;
    FetchedLength(d, ops, ram, device, chunks, addr, end);
    FetchedLength(d, ops, ram, device, chunks[..n], addr, chunks[n].addr);
    hide ByteAt, IsPow2, Aligned, RoundBytes;
    if i < n {
      FetchedRound(d, ops, ram, device, chunks[..n], addr, chunks[n].addr, i);
    }
  }

  /** A byte of a RAM round is the byte of RAM. */
  lemma {:induction false} FetchedRam(d: Index, ops: Region -> Ops, ram: Ram, device: (Chunk, nat) -> Byte, chunks: seq<Chunk>, addr: nat, end: nat, a: nat)
    requires d.page > 0 && Tiles(ops, chunks, addr, end) && addr <= a < end && ByteAt(d, ram, a).Some?
    requires forall i :: 0 <= i < |chunks| ==> chunks[i].Ram()
    ensures var s := Fetched(d, ram, device, chunks); addr + |s| == end && Some(s[a - addr]) == ByteAt(d, ram, a)
  {
    var n := |chunks| - 1;
    FetchedLength(d, ops, ram, device, chunks, addr, end);
    FetchedLength(d, ops, ram, device, chunks[..n], addr, chunks[n].addr);
    hide ByteAt, IsPow2, Aligned;
    if a < chunks[n].addr {
      FetchedRam(d, ops, ram, device, chunks[..n], addr, chunks[n].addr, a);
    } else {
      var k: nat := a - chunks[n].addr;
      assert RoundBytes(d, ram, device, chunks[n])[k] == ByteAt(d, ram, chunks[n].addr + k).value;
    }
  }

  lemma FetchedAll(d: Index, ops: Region -> Ops, status: Chunk -> Flags, ram: Ram, device: (Chunk, nat) -> Byte, chunks: seq<Chunk>, addr: nat, end: nat, result: Flags)
    requires d.page > 0 && Rounds(d, ops, status, chunks, addr, end, end, result) && Backed(d, ram) && end <= TWO64 && AllRam(d, addr, end - addr)
    ensures result == {}
    ensures var s := Fetched(d, ram, device, chunks);
            addr + |s| == end && forall a: nat :: addr <= a < end ==> ByteAt(d, ram, a) == Some(s[a - addr])
  {
    RamRounds(d, ops, status, chunks, addr, end, result);
    FetchedLength(d, ops, ram, device, chunks, addr, end);
    hide ByteAt, IsRam, Fetched;
    forall a: nat | addr <= a < end ensures ByteAt(d, ram, a) == Some(Fetched(d, ram, device, chunks)[a - addr]) {
      FetchedRam(d, ops, ram, device, chunks, addr, end, a);
    }
  }

  // ---------------------------------------------------------------- single rounds

  /** The block of a RAM round holds the bytes of the round after a write. */
  lemma ChunkStored(d: Index, ops: Region -> Ops, ram0: Ram, ram: Ram, chunks: seq<Chunk>, addr0: nat, buf: seq<Byte>, i: nat)
    requires d.page > 0 && Faithful(d) && Backed(d, ram) && addr0 + |buf| <= TWO64 && i < |chunks| && chunks[i].Ram()
    requires Done(d, ops, chunks, addr0, addr0 + |buf|, addr0 + |buf|) && Took(d, ram0, ram, chunks, addr0, buf)
    ensures addr0 <= chunks[i].addr && chunks[i].addr + chunks[i].size <= addr0 + |buf|
    ensures ChunkHolds(ram, chunks[i], buf[chunks[i].addr - addr0..chunks[i].addr - addr0 + chunks[i].size])
  {
    hide Faithful, Backed, Index.Where, ByteAt, Tiles, IsRound, InRam;
    var c := chunks[i];
    TilesAre(ops, chunks, addr0, addr0 + |buf|);
    TilesWithin(ops, chunks, addr0, addr0 + |buf|);
    assert ChunkOk(ops, c);
    RamRoundRun(d, ops, c, addr0 + |buf|);
    RunBacked(d, ram, c.addr, c.size, c.mr.id, c.xlat);
    var part := ram[c.mr.id][c.xlat..c.xlat + c.size];
    forall k | 0 <= k < c.size ensures part[k] == buf[c.addr - addr0..][k] {
      InRamAt(chunks, i, c.addr + k);
      assert ByteAt(d, ram, c.addr + k) == Some(ram[c.mr.id][c.xlat + c.addr + k - c.addr]);
    }
    assert part == buf[c.addr - addr0..c.addr - addr0 + c.size];
  }

  /** ... and a read gets those of the block. */
  lemma ChunkFetched(d: Index, ops: Region -> Ops, ram: Ram, device: (Chunk, nat) -> Byte, chunks: seq<Chunk>, addr0: nat, end: nat, i: nat)
    requires d.page > 0 && Faithful(d) && Backed(d, ram) && end <= TWO64 && i < |chunks| && chunks[i].Ram() && Done(d, ops, chunks, addr0, end, end)
    ensures var s, c := Fetched(d, ram, device, chunks), chunks[i];
            addr0 <= c.addr && c.addr + c.size <= end == addr0 + |s| && ChunkHolds(ram, c, s[c.addr - addr0..c.addr - addr0 + c.size])
  {
    hide Faithful, Backed, Index.Where, ByteAt, Tiles, IsRound, Fetched;
    var c := chunks[i];
    TilesAre(ops, chunks, addr0, end);
    assert ChunkOk(ops, c);
    FetchedRound(d, ops, ram, device, chunks, addr0, end, i);
    RamRoundRun(d, ops, c, end);
    RunBacked(d, ram, c.addr, c.size, c.mr.id, c.xlat);
    var s, part := RoundBytes(d, ram, device, c), ram[c.mr.id][c.xlat..c.xlat + c.size];
    forall k | 0 <= k < c.size ensures s[k] == part[k] {
      assert ByteAt(d, ram, c.addr + k) == Some(ram[c.mr.id][c.xlat + (c.addr + k) - c.addr]);
    }
    assert s == part;
  }

  lemma DeviceFetched(d: Index, ops: Region -> Ops, ram: Ram, device: (Chunk, nat) -> Byte, chunks: seq<Chunk>, addr0: nat, end: nat, i: nat, k: nat)
    requires d.page > 0 && i < |chunks| && !chunks[i].Ram() && k < chunks[i].size && Done(d, ops, chunks, addr0, end, end)
    ensures var s, c := Fetched(d, ram, device, chunks), chunks[i];
            addr0 <= c.addr && c.addr + c.size <= end == addr0 + |s| && s[c.addr - addr0 + k] == device(c, k)
  {
    hide ByteAt, Tiles, IsRound, Fetched;
    FetchedRound(d, ops, ram, device, chunks, addr0, end, i);
    var s, c := Fetched(d, ram, device, chunks), chunks[i];
    assert s[c.addr - addr0 + k] == s[c.addr - addr0..c.addr - addr0 + c.size][k];
  }

  class FlatView {
    const dispatch: AddressSpaceDispatch
    /** What a region's operations say, what a device returns for a write of some bytes and for a
        read, and the bytes it gives. */
    const ops: Region -> Ops
    const write: (Chunk, seq<Byte>) -> Flags
    const read: Chunk -> Flags
    const device: (Chunk, nat) -> Byte
    var ram: Ram

    ghost predicate Valid()
      reads this, dispatch, dispatch.pmap
    {
      dispatch.Valid() && Backed(dispatch.D(), ram) && Injective(dispatch.D()) && SizesOk(ops)
    }

    constructor (dispatch: AddressSpaceDispatch, ops: Region -> Ops, write: (Chunk, seq<Byte>) -> Flags, read: Chunk -> Flags,
        device: (Chunk, nat) -> Byte, ram: Ram)
      requires dispatch.Valid() && Backed(dispatch.D(), ram) && Injective(dispatch.D()) && SizesOk(ops)
      ensures Valid() && this.dispatch == dispatch && this.ram == ram
    {
      this.dispatch, this.ops, this.write, this.read, this.device, this.ram := dispatch, ops, write, read, device, ram;
    }

    lemma HasPage()
      requires Valid()
      ensures dispatch.page > 0 && dispatch.D().page > 0
    {
    }

    /** flatview_translate without IOMMU. */
    method Translate(addr: nat, plen: nat) returns (mr: Region, xlat: nat, l: nat)
      requires Valid() && addr + plen <= TWO64 && plen > 0
      modifies dispatch`mru
      ensures Valid() && dispatch.D() == old(dispatch.D())
      ensures mr == RegionAt(dispatch.D(), addr) && xlat == OffsetAt(dispatch.D(), addr)
      ensures (mr.Memory? && mr.ram) <==> IsRam(dispatch.D(), addr)
      ensures mr.Memory? && mr.ram ==> l == RoundSize(dispatch.D(), ops, addr, addr + plen) > 0 && Run(dispatch.D(), addr, l, mr, xlat)
      ensures !(mr.Memory? && mr.ram) ==> l == plen
    {
      hide Index.Where, Index.Resolve, Index.Ok, Faithful;
      var q, x, len := dispatch.Translate(addr, plen);
      mr, xlat, l := if q == SECTION_UNASSIGNED then Unassigned else dispatch.sections[q].mr, x, len;
    }

    /** The RAM case of flatview_write_continue: qemu_ram_ptr_length, then memcpy. */
    method StoreRam(id: nat, addr: nat, addr1: nat, size: nat, bytes: seq<Byte>, ghost ram0: Ram, ghost origin: nat, ghost buf: seq<Byte>)
      returns (l: nat)
      requires Valid() && |bytes| == size > 0 && addr + size <= TWO64
      requires Run(dispatch.D(), addr, size, Memory(id, true), addr1)
      requires origin <= addr && addr + size <= origin + |buf| && bytes == buf[addr - origin..addr - origin + size]
      requires dispatch.D().page > 0 && BlocksKept(dispatch.D(), ram0, ram, origin, addr, buf)
      modifies this`ram
      ensures Valid() && l == size
      ensures Wrote(dispatch.D(), old(ram), ram, addr, addr + size, addr, bytes)
      ensures BlocksKept(dispatch.D(), ram0, ram, origin, addr + size, buf)
    {
      hide BlocksKept;
      RunBacked(dispatch.D(), ram, addr, size, id, addr1);
      StoreRun(dispatch.D(), ram, addr, id, addr1, bytes);
      BlocksStored(dispatch.D(), ram0, ram, origin, addr, buf, id, addr1, size);
      l := Min(size, |ram[id]| - addr1);
      ram := ram[id := Splice(ram[id], addr1, bytes[..l])];
      assert bytes[..l] == bytes;
    }

    /** The RAM case of flatview_read_continue. */
    method FetchRam(c: Chunk) returns (l: nat, bytes: seq<Byte>)
      requires Valid() && c.Ram() && c.size > 0 && c.addr + c.size <= TWO64 && Run(dispatch.D(), c.addr, c.size, c.mr, c.xlat)
      ensures l == c.size && bytes == RoundBytes(dispatch.D(), ram, device, c)
    {
      RunBacked(dispatch.D(), ram, c.addr, c.size, c.mr.id, c.xlat);
      hide ByteAt, Run, Backed, Injective, AddressSpaceDispatch.Valid;
      l := Min(c.size, |ram[c.mr.id]| - c.xlat);
      bytes := ram[c.mr.id][c.xlat..c.xlat + l];
    }

    /** The round that starts at `addr`, in RAM and at a device. */
    lemma RoundAt(addr: nat, end: nat)
      requires Valid() && addr < end <= TWO64 && Ends(dispatch.D(), addr, end)
      ensures dispatch.D().page > 0 && ops(RegionAt(dispatch.D(), addr)).maxAccessSize < TWO31 && OffsetAt(dispatch.D(), addr) >= 0
      ensures var d := dispatch.D();
              var l := if IsRam(d, addr) then RoundSize(d, ops, addr, end) else AccessSize(ops(RegionAt(d, addr)), end - addr, OffsetAt(d, addr));
              0 < l <= end - addr && IsRound(d, ops, Chunk(RegionAt(d, addr), addr, OffsetAt(d, addr), l), end) && Ends(d, addr + l, end)
    {
      var d := dispatch.D();
      assert d.Ok();
      WhereOk(d, addr);
      RoundMoves(d, ops, addr, end);
    }

    /** The loop of flatview_write_continue. */
    method WriteRounds(addr0: nat, buf: seq<Byte>) returns (result: Flags, ghost chunks: seq<Chunk>)
      requires Valid() && addr0 + |buf| <= TWO64 && Ends(dispatch.D(), addr0, addr0 + |buf|)
      modifies this`ram, dispatch`mru
      ensures Valid() && dispatch.D() == old(dispatch.D())
      ensures Took(dispatch.D(), old(ram), ram, chunks, addr0, buf) && BlocksKept(dispatch.D(), old(ram), ram, addr0, addr0 + |buf|, buf)
      ensures Rounds(dispatch.D(), ops, WriteStatus(write, addr0, buf), chunks, addr0, addr0 + |buf|, addr0 + |buf|, result)
    {
      hide Valid, Index.Where, Index.Ok, ByteAt, Run, Rounds, Done, Took, BlocksKept, Ends, IsRound, RegionAt, OffsetAt, RoundSize, AccessSize, IsRam;
      HasPage();
      var addr: nat, len: nat := addr0, |buf|;
      ghost var d, ram0, end, status := dispatch.D(), ram, addr0 + |buf|, WriteStatus(write, addr0, buf);
      result, chunks := {}, [];
      RoundsStart(d, ops, status, addr0, end);
      TookStart(d, ram, addr0, buf);
      BlocksStart(d, ram, addr0, buf);
      while len > 0
        invariant addr + len == end && addr0 <= addr && Valid() && dispatch.D() == d && Ends(d, addr, end)
        invariant Took(d, ram0, ram, chunks, addr0, buf) && Rounds(d, ops, status, chunks, addr0, addr, end, result)
        invariant BlocksKept(d, ram0, ram, addr0, addr, buf)
      {
        RoundAt(addr, end);
        ghost var result0 := result;
        var mr, addr1, l := Translate(addr, len);
        var at := addr - addr0;
        if !(mr.Memory? && mr.ram) {
          l := AccessSize(ops(mr), l, addr1);
          result := result + write(Chunk(mr, addr, addr1, l), buf[at..at + l]);
          TookDevice(d, ram0, ram, chunks, Chunk(mr, addr, addr1, l), addr0, buf);
          BlocksLater(d, ram0, ram, addr0, addr, addr + l, buf);
        } else {
          ghost var before := ram;
          l := StoreRam(mr.id, addr, addr1, l, buf[at..at + l], ram0, addr0, buf);
          TookRam(d, ram0, before, ram, chunks, Chunk(mr, addr, addr1, l), addr0, buf);
        }
        RoundsMore(d, ops, status, chunks, addr0, end, result0, Chunk(mr, addr, addr1, l));
        chunks := chunks + [Chunk(mr, addr, addr1, l)];
        len, addr := len - l, addr + l;
      }
    }

    /** address_space_write, whenever its loop ends. The rounds follow one another through the range;
        each goes to the region and offset that its first byte has there. RAM rounds store their
        bytes in their block, device rounds pass theirs to the device, nothing else changes, and a
        flag is returned if and only if some device returned it. */
    method Write(addr0: nat, buf: seq<Byte>) returns (result: Flags, ghost chunks: seq<Chunk>)
      requires Valid() && addr0 + |buf| <= TWO64 && Ends(dispatch.D(), addr0, addr0 + |buf|)
      modifies this`ram, dispatch`mru
      ensures Valid() && dispatch.D() == old(dispatch.D())
      ensures Done(dispatch.D(), ops, chunks, addr0, addr0 + |buf|, addr0 + |buf|)
      ensures forall i :: 0 <= i < |chunks| ==> addr0 <= chunks[i].addr && chunks[i].addr + chunks[i].size <= addr0 + |buf|
      ensures forall f :: f in result <==>
                exists i :: 0 <= i < |chunks| && !chunks[i].Ram() && f in write(chunks[i], buf[chunks[i].addr - addr0..chunks[i].addr - addr0 + chunks[i].size])
      ensures forall i :: 0 <= i < |chunks| && chunks[i].Ram() ==>
                && chunks[i].mr.id in ram && chunks[i].xlat + chunks[i].size <= |ram[chunks[i].mr.id]|
                && ram[chunks[i].mr.id][chunks[i].xlat..chunks[i].xlat + chunks[i].size] == buf[chunks[i].addr - addr0..chunks[i].addr - addr0 + chunks[i].size]
      ensures BlocksKept(dispatch.D(), old(ram), ram, addr0, addr0 + |buf|, buf)
      ensures Took(dispatch.D(), old(ram), ram, chunks, addr0, buf)
      ensures AllRam(dispatch.D(), addr0, |buf|) ==> Wrote(dispatch.D(), old(ram), ram, addr0, addr0 + |buf|, addr0, buf) && result == {}
      ensures |buf| == 4 && TakesFour(dispatch.D(), ops, addr0) ==> |chunks| == 1 && chunks[0].size == 4
      ensures forall a: nat :: a < TWO64 && !(addr0 <= a < addr0 + |buf|) ==>
                ByteAt(dispatch.D(), ram, a) == old(ByteAt(dispatch.D(), ram, a))
    {
      hide Valid, Index.Where, Index.Ok, ByteAt, Rounds, Done, Took, BlocksKept, Ends, IsRam, TakesFour;
      HasPage();
      ghost var d, ram0 := dispatch.D(), ram;
      result, chunks := WriteRounds(addr0, buf);
      TookAll(d, ops, WriteStatus(write, addr0, buf), ram0, ram, chunks, addr0, buf, result);
      WriteResult(d, ops, write, chunks, addr0, buf, result);
      if |buf| == 4 && TakesFour(d, ops, addr0) { OneAccess(d, ops, chunks, addr0); }
      IsFaithful();
      forall i | 0 <= i < |chunks| && chunks[i].Ram()
        ensures ChunkHolds(ram, chunks[i], buf[chunks[i].addr - addr0..chunks[i].addr - addr0 + chunks[i].size])
      {
        ChunkStored(d, ops, ram0, ram, chunks, addr0, buf, i);
      }
    }

    lemma IsFaithful()
      requires Valid()
      ensures dispatch.D().page > 0 && Faithful(dispatch.D()) && Backed(dispatch.D(), ram)
    {
    }

    /** The loop of flatview_read_continue. */
    method ReadRounds(addr0: nat, len0: nat) returns (result: Flags, buf: seq<Byte>, ghost chunks: seq<Chunk>)
      requires Valid() && addr0 + len0 <= TWO64 && Ends(dispatch.D(), addr0, addr0 + len0)
      modifies dispatch`mru
      ensures Valid() && dispatch.D() == old(dispatch.D())
      ensures buf == Fetched(dispatch.D(), ram, device, chunks) && Rounds(dispatch.D(), ops, read, chunks, addr0, addr0 + len0, addr0 + len0, result)
    {
      hide Valid, Index.Where, Index.Ok, ByteAt, Run, Rounds, Done, Fetched, RoundBytes, Ends, IsRound, RegionAt, OffsetAt, RoundSize, AccessSize, IsRam;
      HasPage();
      var addr: nat, len: nat := addr0, len0;
      ghost var d, end := dispatch.D(), addr0 + len0;
      result, buf, chunks := {}, [], [];
      RoundsStart(d, ops, read, addr0, end);
      FetchedStart(d, ram, device);
      while len > 0
        invariant addr + len == end && addr0 <= addr && Valid() && dispatch.D() == d && Ends(d, addr, end)
        invariant buf == Fetched(d, ram, device, chunks) && Rounds(d, ops, read, chunks, addr0, addr, end, result)
      {
        RoundAt(addr, end);
        ghost var result0 := result;
        var mr, addr1, l := Translate(addr, len);
        if !(mr.Memory? && mr.ram) {
          l := AccessSize(ops(mr), l, addr1);
          var c := Chunk(mr, addr, addr1, l);
          result := result + read(c);
          DeviceBytes(d, ram, device, c);
          buf := buf + seq(l, i requires 0 <= i < l => device(c, i));
        } else {
          var bytes;
          l, bytes := FetchRam(Chunk(mr, addr, addr1, l));
          buf := buf + bytes;
        }
        FetchedMore(d, ram, device, chunks, Chunk(mr, addr, addr1, l));
        RoundsMore(d, ops, read, chunks, addr0, end, result0, Chunk(mr, addr, addr1, l));
        chunks := chunks + [Chunk(mr, addr, addr1, l)];
        len, addr := len - l, addr + l;
      }
    }

    /** address_space_read_full, whenever its loop ends: each byte of a RAM round is a byte of its
        block, each byte of a device round is what the device gives. */
    method Read(addr0: nat, len0: nat) returns (result: Flags, buf: seq<Byte>, ghost chunks: seq<Chunk>)
      requires Valid() && addr0 + len0 <= TWO64 && Ends(dispatch.D(), addr0, addr0 + len0)
      modifies dispatch`mru
      ensures Valid() && dispatch.D() == old(dispatch.D()) && |buf| == len0
      ensures Done(dispatch.D(), ops, chunks, addr0, addr0 + len0, addr0 + len0)
      ensures forall i :: 0 <= i < |chunks| ==> addr0 <= chunks[i].addr && chunks[i].addr + chunks[i].size <= addr0 + len0
      ensures forall f :: f in result <==> exists i :: 0 <= i < |chunks| && !chunks[i].Ram() && f in read(chunks[i])
      ensures forall i, k :: 0 <= i < |chunks| && !chunks[i].Ram() && 0 <= k < chunks[i].size ==>
                buf[chunks[i].addr - addr0 + k] == device(chunks[i], k)
      ensures forall i :: 0 <= i < |chunks| && chunks[i].Ram() ==>
                && chunks[i].mr.id in ram && chunks[i].xlat + chunks[i].size <= |ram[chunks[i].mr.id]|
                && buf[chunks[i].addr - addr0..chunks[i].addr - addr0 + chunks[i].size] == ram[chunks[i].mr.id][chunks[i].xlat..chunks[i].xlat + chunks[i].size]
      ensures AllRam(dispatch.D(), addr0, len0) ==> result == {}
      ensures len0 == 4 && TakesFour(dispatch.D(), ops, addr0) ==> |chunks| == 1 && chunks[0].size == 4
      ensures AllRam(dispatch.D(), addr0, len0) ==>
                forall a: nat :: addr0 <= a < addr0 + len0 ==> ByteAt(dispatch.D(), ram, a) == Some(buf[a - addr0])
    {
      hide Valid, Index.Where, Index.Ok, ByteAt, Rounds, Done, Fetched, Ends, IsRam, TakesFour;
      HasPage();
      ghost var d, end := dispatch.D(), addr0 + len0;
      result, buf, chunks := ReadRounds(addr0, len0);
      FetchedDone(chunks, addr0, end, result);
      ReadResult(d, ops, read, chunks, addr0, end, result);
      if len0 == 4 && TakesFour(d, ops, addr0) { OneAccess(d, ops, chunks, addr0); }
      IsFaithful();
      forall i, k | 0 <= i < |chunks| && !chunks[i].Ram() && 0 <= k < chunks[i].size ensures buf[chunks[i].addr - addr0 + k] == device(chunks[i], k) {
        DeviceFetched(d, ops, ram, device, chunks, addr0, end, i, k);
      }
      forall i | 0 <= i < |chunks| && chunks[i].Ram()
        ensures ChunkHolds(ram, chunks[i], buf[chunks[i].addr - addr0..chunks[i].addr - addr0 + chunks[i].size])
      {
        ChunkFetched(d, ops, ram, device, chunks, addr0, end, i);
      }
    }

    lemma FetchedDone(chunks: seq<Chunk>, addr: nat, end: nat, result: Flags)
      requires Valid() && dispatch.D().page > 0 && end <= TWO64 && Rounds(dispatch.D(), ops, read, chunks, addr, end, end, result)
      ensures var d := dispatch.D(); var s := Fetched(d, ram, device, chunks);
              addr + |s| == end && (AllRam(d, addr, end - addr) ==>
                result == {} && forall a: nat :: addr <= a < end ==> ByteAt(d, ram, a) == Some(s[a - addr]))
    {
      var d := dispatch.D();
      hide AddressSpaceDispatch.Valid, Fetched, ByteAt, Index.Where;
      FetchedLength(d, ops, ram, device, chunks, addr, end);
      if AllRam(d, addr, end - addr) {
        FetchedAll(d, ops, read, ram, device, chunks, addr, end, result);
      }
    }

    /** Reading back what was written to RAM gives what was written. */
    method WriteThenRead(addr: nat, buf: seq<Byte>) returns (back: seq<Byte>)
      requires Valid() && addr + |buf| <= TWO64 && AllRam(dispatch.D(), addr, |buf|)
      modifies this`ram, dispatch`mru
      ensures back == buf
    {
      hide Valid, Index.Ok, Index.Where, ByteAt, Done, Took, BlocksKept;
      HasPage();
      UsuallyEnds(dispatch.D(), addr, addr + |buf|);
      var _, _ := Write(addr, buf);
      var _, back', _ := Read(addr, |buf|);
      back := back';
      forall i | 0 <= i < |buf|
        ensures back[i] == buf[i]
      {
        assert ByteAt(dispatch.D(), ram, addr + i) == Some(buf[i]);
      }
    }
  }

  /** A dispatch without sections: an access of 2^32 bytes at address 0 never gets anywhere. */
  method NeverEnds(ops: Region -> Ops) returns (d: AddressSpaceDispatch)
    requires SizesOk(ops)
    ensures d.Valid() && forall n: nat :: After(d.D(), ops, 0, TWO32, n) == 0
  {
    d := new AddressSpaceDispatch(12, 0);
    hide Index.Ok, Index.Where, Faithful, After;
    forall n: nat ensures After(d.D(), ops, 0, TWO32, n) == 0 {
      NeverPast(d.D(), ops, 0, TWO32, 0, n);
    }
  }
}
