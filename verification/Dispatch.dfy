/** AddressSpaceDispatch: building the index from sections, compacting it, looking bytes up. */
module Dispatch {
  import opened PhysPages
  import opened PhysPageCompaction
  import opened PhysPageMaps
  import opened Sections
  import opened SectionNumbers
  import opened Options
  import opened Arithmetic

  lemma {:induction false} SpanIsPow2(k: nat)
    ensures Span(k) == Pow2(9 * k)
  {
    if k > 0 {
      SpanIsPow2(k - 1);
      Pow2Add(9, 9 * (k - 1));
      assert Pow2(9) == 512;
    }
  }

  /** P_L2_LEVELS. */
  function Levels(pageBits: nat): nat
    requires pageBits < 64
  {
    (64 - pageBits - 1) / 9 + 1
  }

  /** P_L2_LEVELS levels of 9 bits cover the 64-bit address space. */
  lemma LevelsSuffice(pageBits: nat)
    requires 1 <= pageBits <= 16
    ensures TWO64 <= Span(Levels(pageBits)) * Pow2(pageBits)
    ensures 1 <= Levels(pageBits) <= 7
  {
    hide Pow2, Span;
    var k := 9 * Levels(pageBits);
    SpanIsPow2(Levels(pageBits));
    Pow2Add(k, pageBits);
    Pow2Monotone(64, k + pageBits);
    Pow2Is64();
  }

  /** ... and one level less would not. */
  lemma LevelsNeeded(pageBits: nat)
    requires 1 <= pageBits <= 16
    ensures Span(Levels(pageBits) - 1) * Pow2(pageBits) < TWO64
  {
    hide Pow2, Span;
    var k := 9 * (Levels(pageBits) - 1);
    SpanIsPow2(Levels(pageBits) - 1);
    Pow2Add(k, pageBits);
    Pow2Monotone(k + pageBits, 63);
    Pow2Is64();
    assert Pow2(64) == 2 * Pow2(63) by { Pow2Next(63); }
  }

  lemma Pow2Next(k: nat)
    ensures Pow2(k + 1) == 2 * Pow2(k)
  {
  }

  lemma PageDivides(pageBits: nat)
    requires pageBits <= 64
    ensures TWO64 % Pow2(pageBits) == 0
  {
    hide Pow2;
    Pow2Is64();
    Pow2Add(pageBits, 64 - pageBits);
    var p, q := Pow2(pageBits), Pow2(64 - pageBits);
    QuotientUnique(p * q, p, q);
    DivMod(p * q, p);
  }

  class AddressSpaceDispatch {
    const pageBits: nat
    const page: nat
    const pmap: PhysPageMap
    var sections: seq<Section>
    var subpages: seq<Subpage>
    var mru: Option<nat>
    ghost var pages: set<nat>
    ghost var built: Table

    /** The index as it was built; compaction changes `pmap` but not this. */
    ghost function D(): Index
      reads this
    {
      Index(page, built, sections, subpages, pages)
    }

    ghost predicate Sound()
      reads this, pmap
    {
      && 1 <= pageBits <= 16 && page == Pow2(pageBits)
      && D().Ok() && Faithful(D())
      && Refines(built, pmap.T())
      && |sections| <= page
      && (mru.Some? && mru.value != SECTION_UNASSIGNED ==> mru.value in pages)
    }

    ghost predicate Valid()
      reads this, pmap
    {
      Sound() && D().NoIdleSubpage()
    }

    ghost predicate Growing()
      reads this, pmap
    {
      Sound() && built == pmap.T() && pmap.Valid() && pmap.levels <= 7 && |pmap.nodes| <= 13 * |sections| && AllHomed(D())
    }

    /** The pages that have a subpage. */
    ghost function Subs(): set<nat>
      reads this
    {
      Bases(subpages)
    }

    /** Not compacted yet: sections may still be added. */
    ghost predicate Building()
      reads this, pmap
    {
      Growing() && D().NoIdleSubpage()
    }

    constructor (bits: nat, hint: nat)
      requires 1 <= bits <= 16
      ensures Building() && fresh(pmap) && pageBits == bits && |sections| == 1 && Subs() == {}
      ensures forall a: nat :: D().Where(a) == None
    {
      LevelsSuffice(bits);
      pageBits, page := bits, Pow2(bits);
      pmap := new PhysPageMap(Levels(bits), hint);
      sections, subpages, mru, pages := [UNASSIGNED_SECTION], [], None, {};
      new;
      built := pmap.T();
      RefinesReflexive(built);
    }

    /** phys_page_find. */
    method PageFind(addr: nat) returns (q: nat)
      requires Sound() && addr < TWO64
      ensures q == D().At(addr)
    {
      FindAfterCompaction(D(), pmap.T(), addr);
      DivMod(addr, page);
      var ptr := pmap.Descend(addr / page);
      q := if Covers(sections[ptr], addr) then ptr else SECTION_UNASSIGNED;
    }

    /** address_space_lookup_region: the cached section, if it covers the address, is the one the
        search would have found. */
    method LookupRegion(addr: nat, resolveSubpage: bool) returns (q: nat)
      requires Valid() && addr < TWO64
      modifies this`mru
      ensures Valid() && D() == old(D())
      ensures q == if resolveSubpage then D().Resolve(addr) else D().At(addr)
      ensures q < |sections| && mru == Some(D().At(addr))
      ensures resolveSubpage && q != SECTION_UNASSIGNED ==>
                sections[q].mr.Memory? && Contains(sections[q], addr) && D().Where(addr) == Some(Target(sections[q], addr))
      ensures resolveSubpage && q == SECTION_UNASSIGNED ==> D().Where(addr) == None
    {
      Stored(D(), addr);
      assert D().ByteOk(addr);
      if mru.None? || mru.value == SECTION_UNASSIGNED || !Covers(sections[mru.value], addr) {
        q := PageFind(addr);
        mru := Some(q);
      } else {
        q := mru.value;
        assert D().PageSection(q);
        CoversIsContains(sections[q], addr);
      }
      if resolveSubpage && sections[q].mr.SubpageOf? {
        var k := sections[q].mr.k;
        assert D().EntryOk(k, addr % page);
        InPage(subpages[k].base, page, addr);
        q := subpages[k].table[addr % page];
      }
    }

    /** register_multipage. */
    method RegisterMultipage(s: Section)
      requires Building() && FreeFor(D(), s) && Clipped(s) && s.mr.Memory?
      requires OnPage(page, s.start) && OnPage(page, s.size)
      requires |sections| < page
      modifies this, pmap
      ensures Building() && Placing(old(D()), D(), s) && |sections| == |old(sections)| + 1 && Subs() == old(Subs())
    {
      PageBound();
      PagesAreFree(D(), s);
      var index := |sections|;
      pmap.Set(s.start / page, s.size / page, index);
      RegisterPages(D(), s, pmap.T());
      sections, pages, built := sections + [s], pages + {index}, pmap.T();
      PlacingFaithful(old(D()), D(), s);
      RefinesReflexive(built);
    }

    lemma PageBound()
      requires 1 <= pageBits <= 16 && page == Pow2(pageBits)
      ensures 1 < page <= 65536 && TWO64 % page == 0
    {
      PageDivides(pageBits);
      Pow2Monotone(pageBits, 16);
      Pow2Monotone(1, pageBits);
      Pow2Is16();
    }

    lemma BuildingPage()
      requires Building()
      ensures 1 < page <= 65536 && TWO64 % page == 0
    {
      PageBound();
    }

    /** The branch of register_subpage that calls subpage_init. */
    method NewSubpage(base: nat) returns (q: nat)
      requires Building() && base % page == 0 && base + page <= TWO64 && D().At(base) == SECTION_UNASSIGNED
      requires |sections| < page
      modifies this, pmap
      ensures Growing() && |sections| == |old(sections)| + 1 && Subs() == old(Subs()) + {base}
      ensures q in pages && D().IsSubpage(q) && sections[q].start == base && OthersInUse(D(), q)
      ensures forall b: nat :: b < TWO64 ==> D().Where(b) == old(D().Where(b))
    {
      hide Index.Ok, Index.Where, Faithful, OthersInUse, AllHomed, Bases, Index.NoIdleSubpage, Refines, Index.IsSubpage;
      SubpageRoom(base);
      q := |sections|;
      pmap.Set(base / page, 1, q);
      AddSubpage(old(D()), base, pmap.T());
      SubpageFaithful(old(D()), base, pmap.T());
      sections := sections + [Section(SubpageOf(|subpages|), base, 0, page)];
      subpages := subpages + [Subpage(base, seq(page, _ => SECTION_UNASSIGNED))];
      pages, built := pages + {q}, pmap.T();
      RefinesReflexive(built);
      assert D() == SubpageIndex(old(D()), base, built);
    }

    lemma SubpageRoom(base: nat)
      requires Building() && base < TWO64 && |sections| < page
      ensures 0 <= base / page && base / page + 1 <= Span(pmap.levels) && 0 < |sections| < NODE_NIL && |pmap.nodes| + 2 * pmap.levels - 1 <= NODE_NIL
    {
      hide Index.Where, Faithful, AllHomed, Index.NoIdleSubpage, Refines, Index.ByteOk, Index.PageSection, Table.Placed, Table.LeavesIn;
      PageBound();
      PageNumber(D(), base);
      DivMod(base, page);
    }

    /** The first half of register_subpage: the page of `base` gets a subpage unless it has one. */
    method EnsureSubpage(base: nat, ghost a: nat) returns (q: nat)
      requires Building() && base % page == 0 && base <= a < base + page <= TWO64 && D().Where(a) == None
      requires |sections| + New(base, Subs()) <= page
      modifies this, pmap
      ensures Growing() && |sections| == |old(sections)| + New(base, old(Subs())) && Subs() == old(Subs()) + {base}
      ensures q in pages && D().IsSubpage(q) && sections[q].start == base && OthersInUse(D(), q)
      ensures forall b: nat :: b < TWO64 ==> D().Where(b) == old(D().Where(b))
    {
      FreeBytePage(D(), base, a);
      SubpageAt(D(), base);
      var existing := PageFind(base);
      assert sections[existing].mr.SubpageOf? || sections[existing].mr.Unassigned?;
      if sections[existing].mr.SubpageOf? {
        q := existing;
      } else {
        q := NewSubpage(base);
      }
    }

    /** subpage_register. */
    method SubpageRegister(k: nat, start: nat, end: nat, section: nat) returns (ret: int)
      requires k < |subpages| && |subpages[k].table| == page
      modifies this`subpages
      ensures start >= page || end >= page ==> ret == -1 && subpages == old(subpages)
      ensures start < page && end < page ==> ret == 0
      ensures start < page && end < page ==>
                subpages == old(subpages)[k := Subpage(old(subpages)[k].base, Written(old(subpages)[k].table, start, end, section))]
    {
      if start >= page || end >= page {
        return -1;
      }
      var idx, table := start, subpages[k].table;
      while idx <= end
        invariant start <= idx && |table| == page
        invariant forall i: nat :: i < page ==> table[i] == if start <= i <= end && i < idx then section else subpages[k].table[i]
      {
        table := table[idx := section];
        idx := idx + 1;
      }
      assert table == Written(subpages[k].table, start, end, section);
      subpages := subpages[k := Subpage(subpages[k].base, table)];
      ret := 0;
    }

    /** The second half of register_subpage. */
    method AssignPart(q: nat, s: Section)
      requires Growing() && Fits(D(), q, s) && FreeFor(D(), s) && OthersInUse(D(), q) && |sections| < page
      requires s.start % page == s.start - sections[q].start
      modifies this`sections, this`subpages
      ensures Building() && Placing(old(D()), D(), s) && |sections| == |old(sections)| + 1 && Subs() == old(Subs())
    {
      hide Index.Where, Index.PageSection, Index.ByteOk, AllHomed, Bases, Placing, Refines, Table.Placed, Table.LeavesIn;
      FillSubpage(D(), q, s);
      FilledHomed(D(), q, s);
      var start, section := s.start % page, |sections|;
      var end := start + s.size - 1;
      sections := sections + [s];
      var _ := SubpageRegister(sections[q].mr.k, start, end, section);
      assert D() == FillIndex(old(D()), q, s);
      PlacingFaithful(old(D()), D(), s);
    }

    /** register_subpage: `s` lies inside one page. */
    method RegisterSubpage(s: Section)
      requires Building() && FreeFor(D(), s) && Clipped(s) && s.mr.Memory?
      requires s.start + s.size <= Floor(page, s.start) + page
      requires |sections| + 1 + New(Floor(page, s.start), Subs()) <= page
      modifies this, pmap
      ensures Building() && Placing(old(D()), D(), s)
      ensures |sections| == |old(sections)| + 1 + New(Floor(page, s.start), old(Subs())) && Subs() == old(Subs()) + {Floor(page, s.start)}
    {
      hide Index.Ok, Index.Where, OthersInUse, Refines, AllHomed, Bases, New;
      PageBound();
      PageInside(page, s.start);
      InPage(Floor(page, s.start), page, s.start);
      var base := Floor(page, s.start);
      assert Contains(s, s.start);
      var q := EnsureSubpage(base, s.start);
      AssignPart(q, s);
    }

    /** The rest of flatview_add_to_dispatch once the start is page-aligned: whole pages, then
        the last subpage. */
    method AddAligned(remain0: Section)
      requires Building() && FreeFor(D(), remain0) && Clipped(remain0) && remain0.mr.Memory?
      requires OnPage(page, remain0.start) && |sections| + Cost(page, remain0, Subs()) <= page
      modifies this, pmap
      ensures Building() && Placing(old(D()), D(), remain0)
      ensures |sections| == |old(sections)| + Cost(page, remain0, old(Subs())) && Subs() == old(Subs()) + CutPages(page, remain0)
    {
      hide Index.Ok, Index.Where, FreeFor, Placing, Building, Cost, CutPages, Subs, New, Floor, OnPage;
      BuildingPage();
      AlignedCost(page, remain0, Subs());
      var remain := remain0;
      if remain.size >= page {
        var whole := Floor(page, remain.size);
        FreeHead(D(), remain, whole);
        RegisterMultipage(Head(remain, whole));
        PlacingParts(old(D()), D(), remain, whole);
        if remain.size == whole {
          return;
        }
        remain := Tail(remain, whole);
      }
      RegisterSubpage(remain);
    }

    /** flatview_add_to_dispatch: an unaligned head, whole pages, an unaligned tail. However the
        section is cut, each of its bytes is now found at its own offset in its own region, and
        no other byte has moved. */
    method AddToDispatch(section: Section)
      requires Building() && FreeFor(D(), section) && Clipped(section) && section.mr.Memory?
      requires |sections| + Cost(page, section, Subs()) <= page
      modifies this, pmap
      ensures Building() && Placing(old(D()), D(), section)
      ensures |sections| == |old(sections)| + Cost(page, section, old(Subs())) && Subs() == old(Subs()) + CutPages(page, section)
    {
      hide Index.Ok, Index.Where, FreeFor, Placing, Building, Cost, CutPages, Subs, New, Floor, OnPage;
      BuildingPage();
      if !OnPage(page, section.start) {
        var left: nat := Floor(page, section.start) + page - section.start;
        var n: nat := Min(left, section.size);
        FreeHead(D(), section, n);
        HeadCost(page, section, section.start + left, Subs());
        RegisterSubpage(Head(section, n));
        PlacingParts(old(D()), D(), section, n);
        if section.size == n {
          return;
        }
        AddAligned(Tail(section, n));
      } else {
        AddAligned(section);
      }
    }

    /** address_space_dispatch_compact: afterwards no reachable node could be skipped. */
    method Compact()
      requires Building()
      modifies pmap
      ensures Valid() && D() == old(D()) && Dense(pmap.T(), Root)
    {
      pmap.Compact();
    }

    /** address_space_translate_internal with subpages resolved: the region and the offset of the
        byte and, for RAM, how far the section goes on. */
    method Translate(addr: nat, plen: nat) returns (q: nat, xlat: int, len: nat)
      requires Valid() && addr < TWO64
      modifies this`mru
      ensures Valid() && D() == old(D())
      ensures q < |sections| && 0 <= xlat && q == D().Resolve(addr)
      ensures q == SECTION_UNASSIGNED <==> D().Where(addr) == None
      ensures q == SECTION_UNASSIGNED ==> xlat == addr
      ensures xlat - sections[q].offset == addr - sections[q].start
      ensures q != SECTION_UNASSIGNED ==> D().Where(addr) == Some((sections[q].mr, xlat)) && sections[q].mr.Memory?
      ensures q == SECTION_UNASSIGNED || !sections[q].mr.ram ==> len == plen
      ensures q != SECTION_UNASSIGNED && sections[q].mr.ram ==>
                && sections[q].start <= addr < sections[q].start + sections[q].size && (plen > 0 ==> len > 0) && addr + len <= TWO64
                && len == (if sections[q].start + sections[q].size - addr < plen then sections[q].start + sections[q].size - addr else plen)
                && Run(D(), addr, len, sections[q].mr, xlat)
    {
      q := LookupRegion(addr, true);
      hide Index.Where, Index.Resolve, Index.NoIdleSubpage;
      xlat := addr - sections[q].start + sections[q].offset;
      len := plen;
      if sections[q].mr.Memory? && sections[q].mr.ram {
        len := Min(sections[q].size - (addr - sections[q].start), plen);
        assert forall b: nat :: addr <= b < addr + len ==> Contains(sections[q], b);
      }
    }
  }

  /** A fresh dispatch, all sections of a flat view added, then compacted: it finds every byte of
      every section at its offset in its region, and no other byte. */
  method Build(bits: nat, hint: nat, list: seq<Section>) returns (d: AddressSpaceDispatch)
    requires 1 <= bits <= 16 && Numbers(Pow2(bits), list) <= Pow2(bits)
    requires Disjoint(list) && forall i :: 0 <= i < |list| ==> Clipped(list[i]) && list[i].mr.Memory?
    ensures fresh(d) && fresh(d.pmap) && d.Valid() && Indexes(d.D(), list) && |d.sections| == Numbers(Pow2(bits), list)
  {
    d := new AddressSpaceDispatch(bits, hint);
    for n := 0 to |list|
      invariant fresh(d) && fresh(d.pmap) && d.Building() && d.pageBits == bits
      invariant |d.sections| == Numbers(d.page, list[..n]) && d.Subs() == Cuts(d.page, list[..n])
      invariant Indexes(d.D(), list[..n])
    {
      ghost var d0 := d.D();
      NextIsFree(d0, list, n);
      NumbersMore(d.page, list, n);
      NumbersOfPrefix(d.page, list, n + 1);
      d.AddToDispatch(list[n]);
      IndexesMore(d0, d.D(), list, n);
    }
    d.Compact();
    assert list[..|list|] == list;
  }

  /** From the list to an answer: after any lookups, translating an address gives the region of the
      section of the list that contains it, as far from the section's offset in the region as the
      address is from the section's start; or nothing when no section contains it. */
  method BuildThenLookup(bits: nat, hint: nat, list: seq<Section>, before: seq<(nat, bool)>, a: nat)
    returns (found: Option<(Region, int)>)
    requires 1 <= bits <= 16 && Numbers(Pow2(bits), list) <= Pow2(bits)
    requires forall i :: 0 <= i < |list| ==> list[i].mr.Memory? && 0 < list[i].size && list[i].start + list[i].size <= 0x1_0000_0000_0000_0000
    requires forall i, j :: 0 <= i < j < |list| ==>
               list[i].start + list[i].size <= list[j].start || list[j].start + list[j].size <= list[i].start
    requires a < 0x1_0000_0000_0000_0000 && forall i :: 0 <= i < |before| ==> before[i].0 < 0x1_0000_0000_0000_0000
    ensures forall i :: 0 <= i < |list| && list[i].start <= a < list[i].start + list[i].size ==>
              found.Some? && found.value.0 == list[i].mr && found.value.1 - list[i].offset == a - list[i].start
    ensures (forall i :: 0 <= i < |list| ==> a < list[i].start || list[i].start + list[i].size <= a) ==> found.None?
  {
    hide Numbers, AddressSpaceDispatch.Sound, Index.NoIdleSubpage, Index.Where, Index.Resolve;
    var d := Build(bits, hint, list);
    PositivePage(d);
    for i := 0 to |before|
      invariant fresh(d) && fresh(d.pmap) && d.Valid() && d.page > 0 && Indexes(d.D(), list)
    {
      var _ := d.LookupRegion(before[i].0, before[i].1);
    }
    var q, xlat, _ := d.Translate(a, 1);
    found := if q == SECTION_UNASSIGNED then None else Some((d.sections[q].mr, xlat));
  }

  lemma PositivePage(d: AddressSpaceDispatch)
    requires d.Valid()
    ensures d.page > 0
  {
  }
}
