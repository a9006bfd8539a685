/** The rounds of an access to guest memory, and when their loop ends. */
module AccessRounds {
  import opened Arithmetic
  import opened Options
  import opened PhysPages
  import opened PhysPageMaps
  import opened Sections
  import opened AccessSizes

  ghost predicate IsRam(d: Index, a: nat)
    requires d.page > 0
  {
    d.Where(a).Some? && d.Where(a).value.0.Memory? && d.Where(a).value.0.ram
  }

  ghost predicate AllRam(d: Index, addr: nat, len: nat)
    requires d.page > 0
  {
    forall a: nat :: addr <= a < addr + len ==> IsRam(d, a)
  }

  /** No size that a region allows is too large for an int. */
  ghost predicate SizesOk(ops: Region -> Ops) {
    forall mr: Region :: ops(mr).maxAccessSize < TWO31
  }

  /** The region of a byte and its offset there; bytes of no section belong to the unassigned one. */
  ghost function RegionAt(d: Index, a: nat): Region
    requires d.page > 0
  {
    match d.Where(a) case Some((mr, _)) => mr case None => Unassigned
  }

  ghost function OffsetAt(d: Index, a: nat): int
    requires d.page > 0
  {
    match d.Where(a) case Some((_, x)) => x case None => a
  }

  ghost function SectionEnd(d: Index, a: nat): nat
    requires d.page > 0
  {
    var r := d.Resolve(a);
    if r < |d.sections| then d.sections[r].start + d.sections[r].size else a
  }

  /** A byte that is found belongs to the section that is found. */
  lemma WhereOk(d: Index, a: nat)
    requires d.Ok() && a < TWO64
    ensures d.Resolve(a) < |d.sections| && OffsetAt(d, a) >= 0
    ensures d.Where(a).Some? ==> Contains(d.sections[d.Resolve(a)], a) && d.sections[d.Resolve(a)].mr.Memory? && a < SectionEnd(d, a) <= TWO64
  {
    Stored(d, a);
    assert d.ByteOk(a);
    var q := d.At(a);
    if q != SECTION_UNASSIGNED && d.sections[q].mr.SubpageOf? {
      var k := d.sections[q].mr.k;
      assert d.EntryOk(k, a % d.page);
      InPage(d.subpages[k].base, d.page, a);
    }
  }

  /** How many bytes the next round takes when `end` - `a` are left: in RAM as far as the section
      goes, else one access of the device. */
  ghost function RoundSize(d: Index, ops: Region -> Ops, a: nat, end: nat): (l: nat)
    requires d.Ok() && SizesOk(ops) && a < end <= TWO64
    ensures l <= end - a
  {
    WhereOk(d, a);
    if IsRam(d, a) then Min(SectionEnd(d, a) - a, end - a) else AccessSize(ops(RegionAt(d, a)), end - a, OffsetAt(d, a))
  }

  /** Every byte from which a multiple of 2^32 bytes is left is RAM. */
  ghost predicate Ends(d: Index, addr: nat, end: nat)
    requires d.page > 0
  {
    forall a: nat :: addr <= a < end && Low32(end - a) == 0 ==> IsRam(d, a)
  }

  /** Where the access has got to after `n` rounds. */
  ghost function After(d: Index, ops: Region -> Ops, addr: nat, end: nat, n: nat): (a: nat)
    requires d.Ok() && SizesOk(ops) && addr <= end <= TWO64
    ensures addr <= a <= end
  {
    if n == 0 then addr else
      var a := After(d, ops, addr, end, n - 1);
      if a == end then a else a + RoundSize(d, ops, a, end)
  }

  lemma RamToSectionEnd(d: Index, a: nat, b: nat)
    requires d.Ok() && Faithful(d) && a < TWO64 && IsRam(d, a) && a <= b < SectionEnd(d, a)
    ensures IsRam(d, b)
  {
    WhereOk(d, a);
    hide Index.Ok, Index.Where;
    var s := d.sections[d.Resolve(a)];
    assert d.Where(a) == Some(Target(s, a)) && d.Where(b) == Some(Target(s, b));
  }

  lemma LowParts(x: nat, y: nat)
    requires Low32(x) == 0
    ensures Low32(x + y) == Low32(y)
  {
    DivMod(x, TWO32);
    DivMod(y, TWO32);
    QuotientUnique(x + y, TWO32, x / TWO32 + y / TWO32);
    DivMod(x + y, TWO32);
  }

  /** No round gets past a byte of a device from which a multiple of 2^32 bytes is left. */
  lemma RoundStops(d: Index, ops: Region -> Ops, a: nat, end: nat, x: nat)
    requires d.page > 0 && d.Ok() && Faithful(d) && SizesOk(ops) && a <= x < end <= TWO64 && Low32(end - x) == 0 && !IsRam(d, x)
    ensures a + RoundSize(d, ops, a, end) <= x
  {
    hide Index.Ok, Index.Where, IsRam, Faithful, Low32, AccessSize, SectionEnd, RegionAt, OffsetAt;
    WhereOk(d, a);
    if IsRam(d, a) {
      if x < SectionEnd(d, a) {
        RamToSectionEnd(d, a, x);
      }
    } else {
      LowParts(end - x, x - a);
      AccessWithin(ops(RegionAt(d, a)), end - a, OffsetAt(d, a));
    }
  }

  lemma AccessWithin(ops: Ops, l: nat, addr: nat)
    requires ops.maxAccessSize < TWO31
    ensures AccessSize(ops, l, addr) <= Low32(l)
  {
    if Low32(l) > 0 { AccessSizeOk(ops, l, addr); } else { NoAccess(ops, l, addr); }
  }

  /** Without such a byte each round moves on. */
  lemma RoundMoves(d: Index, ops: Region -> Ops, a: nat, end: nat)
    requires d.Ok() && SizesOk(ops) && a < end <= TWO64 && Ends(d, a, end)
    ensures RoundSize(d, ops, a, end) > 0
    ensures !IsRam(d, a) ==> Low32(end - a) > 0
  {
    WhereOk(d, a);
    if !IsRam(d, a) {
      AccessSizeOk(ops(RegionAt(d, a)), end - a, OffsetAt(d, a));
    }
  }

  lemma {:induction false} NeverPast(d: Index, ops: Region -> Ops, addr: nat, end: nat, x: nat, n: nat)
    requires d.page > 0 && d.Ok() && Faithful(d) && SizesOk(ops) && addr <= x < end <= TWO64 && Low32(end - x) == 0 && !IsRam(d, x)
    ensures After(d, ops, addr, end, n) <= x
  {
    hide Index.Ok, IsRam, SizesOk, RoundSize, Low32, Faithful;
    if n > 0 {
      NeverPast(d, ops, addr, end, x, n - 1);
      RoundStops(d, ops, After(d, ops, addr, end, n - 1), end, x);
    }
  }

  lemma {:induction false} AfterAdds(d: Index, ops: Region -> Ops, addr: nat, end: nat, n: nat)
    requires d.Ok() && SizesOk(ops) && addr < end <= TWO64
    ensures After(d, ops, addr, end, n + 1) == After(d, ops, addr + RoundSize(d, ops, addr, end), end, n)
  {
    hide Index.Ok, RoundSize, SizesOk;
    if n > 0 {
      AfterAdds(d, ops, addr, end, n - 1);
    } else {
      assert After(d, ops, addr, end, 0) == addr;
    }
  }

  lemma {:induction false} Arrives(d: Index, ops: Region -> Ops, addr: nat, end: nat) returns (n: nat)
    requires d.Ok() && SizesOk(ops) && addr <= end <= TWO64 && Ends(d, addr, end)
    ensures After(d, ops, addr, end, n) == end
    decreases end - addr
  {
    hide Index.Ok, IsRam, SizesOk, RoundSize, Low32;
    if addr == end {
      n := 0;
    } else {
      RoundMoves(d, ops, addr, end);
      var m := Arrives(d, ops, addr + RoundSize(d, ops, addr, end), end);
      AfterAdds(d, ops, addr, end, m);
      n := m + 1;
    }
  }

  /** The loop of an access ends if and only if every byte from which a multiple of 2^32 bytes is
      left is RAM. */
  lemma LoopEnds(d: Index, ops: Region -> Ops, addr: nat, end: nat)
    requires d.Ok() && Faithful(d) && SizesOk(ops) && addr <= end <= TWO64
    ensures (exists n: nat :: After(d, ops, addr, end, n) == end) <==> Ends(d, addr, end)
  {
    if Ends(d, addr, end) {
      var n := Arrives(d, ops, addr, end);
    } else {
      var x: nat :| addr <= x < end && Low32(end - x) == 0 && !IsRam(d, x);
      forall n: nat ensures After(d, ops, addr, end, n) != end {
        NeverPast(d, ops, addr, end, x, n);
      }
    }
  }

  /** In particular for fewer than 2^32 bytes, and for RAM. */
  lemma UsuallyEnds(d: Index, addr: nat, end: nat)
    requires d.page > 0 && addr <= end && (end - addr < TWO32 || AllRam(d, addr, end - addr))
    ensures Ends(d, addr, end)
  {
    hide IsRam;
  }
}
