/** Sections, subpages, and what a finished index of them must satisfy. */
module Sections {
  import opened Arithmetic
  import opened Options
  import opened PhysPages
  import opened PhysPageCompaction

  const TWO64: nat := 0x1_0000_0000_0000_0000

  /** A MemoryRegion, as far as dispatch looks at it. `SubpageOf(k)` is the region embedded in
      subpage number `k`. */
  datatype Region = Unassigned | Memory(id: nat, ram: bool) | SubpageOf(k: nat)

  /** `start` is offset_within_address_space, `offset` is offset_within_region. */
  datatype Section = Section(mr: Region, start: nat, offset: nat, size: nat)

  datatype Subpage = Subpage(base: nat, table: seq<nat>)

  const UNASSIGNED_SECTION := Section(Unassigned, 0, 0, TWO64)

  predicate Contains(s: Section, a: nat) {
    s.start <= a < s.start + s.size
  }

  /** section_covers_addr, on 64-bit machine integers. */
  predicate Covers(s: Section, a: nat) {
    s.size >= TWO64 || (s.start <= a <= (s.start + s.size - 1) % TWO64)
  }

  predicate Clipped(s: Section) {
    0 < s.size && s.start + s.size <= TWO64
  }

  /** Region and offset in the region of byte `a` of section `s`. */
  function Target(s: Section, a: nat): (Region, int) {
    (s.mr, a - s.start + s.offset)
  }

  /** The first byte of a section is at the section's own offset in its region, and bytes of a
      section are as far apart in the region as they are in the address space. */
  lemma TargetIs(s: Section, a: nat, b: nat)
    ensures Target(s, s.start) == (s.mr, s.offset)
    ensures Target(s, a).0 == Target(s, b).0 == s.mr && Target(s, b).1 - Target(s, a).1 == b - a
  {
  }

  /** The dispatch tables as a value. `page` is TARGET_PAGE_SIZE and `pages` the numbers of the
      sections that the page table refers to (the others are referred to by subpages only). */
  datatype Index = Index(page: nat, t: Table, sections: seq<Section>, subpages: seq<Subpage>, pages: set<nat>) {

    /** The section number stored for the page of byte `a`. */
    ghost function At(a: nat): nat
      requires page > 0
    {
      t.Page(a / page)
    }

    ghost predicate IsSubpage(q: nat)
      requires page > 0
    {
      q < |sections| && sections[q].mr.SubpageOf? && sections[q].mr.k < |subpages| && |subpages[sections[q].mr.k].table| == page
    }

    /** The section number of byte `a` after subpage resolution. */
    ghost function Resolve(a: nat): nat
      requires page > 0
    {
      var q := At(a);
      if IsSubpage(q) then subpages[sections[q].mr.k].table[a % page] else q
    }

    /** Where byte `a` is: a region and an offset in it, or nowhere. */
    ghost function Where(a: nat): Option<(Region, int)>
      requires page > 0
    {
      var r := Resolve(a);
      if r == SECTION_UNASSIGNED || r >= |sections| then None else Some(Target(sections[r], a))
    }

    /** An entry of a subpage table is 0 or a real section that contains the byte. */
    ghost predicate EntryOk(k: nat, i: nat)
      requires k < |subpages| && i < |subpages[k].table|
    {
      var r := subpages[k].table[i];
      r < |sections| && (r != SECTION_UNASSIGNED ==> sections[r].mr.Memory? && Contains(sections[r], subpages[k].base + i))
    }

    ghost predicate SubpageOk(k: nat)
      requires page > 0
    {
      && k < |subpages|
      && subpages[k].base % page == 0
      && |subpages[k].table| == page
      && (forall i: nat :: i < page ==> EntryOk(k, i))
    }

    /** A section referred to by the page table is stored for every byte it contains. */
    ghost predicate PageSection(q: nat)
      requires page > 0
    {
      && 0 < q < |sections|
      && (forall b: nat :: b < TWO64 && Contains(sections[q], b) ==> At(b) == q)
      && match sections[q].mr
         case Unassigned => false
         case Memory(_, _) => true
         case SubpageOf(k) => SubpageOk(k) && sections[q].start == subpages[k].base && sections[q].size == page
    }

    /** ... and contains every byte it is stored for. */
    ghost predicate ByteOk(a: nat)
      requires page > 0
    {
      At(a) != SECTION_UNASSIGNED ==> At(a) < |sections| && Contains(sections[At(a)], a)
    }

    ghost predicate Ok() {
      && page > 0
      && TWO64 <= Span(t.levels) * page
      && t.Placed()
      && 0 < |sections| && sections[0] == UNASSIGNED_SECTION
      && (forall q :: 0 <= q < |sections| ==> Clipped(sections[q]))
      && t.LeavesIn(pages + {SECTION_UNASSIGNED})
      && (forall q :: q in pages ==> PageSection(q))
      && (forall a: nat :: a < TWO64 ==> ByteOk(a))
    }

    /** Some byte of the subpage is assigned. */
    ghost predicate InUse(k: nat)
      requires k < |subpages|
    {
      exists i: nat :: i < |subpages[k].table| && subpages[k].table[i] != SECTION_UNASSIGNED
    }

    ghost predicate NoIdleSubpage()
      requires page > 0
    {
      forall q :: q in pages && IsSubpage(q) ==> InUse(sections[q].mr.k)
    }

    /** phys_page_find on page table `t'`: the section reached if it covers the address, else
        the unassigned one. */
    ghost function Find(t': Table, a: nat): nat
      requires page > 0
    {
      var q := t'.Page(a / page);
      if q < |sections| && Covers(sections[q], a) then q else SECTION_UNASSIGNED
    }
  }

  lemma CoversIsContains(s: Section, a: nat)
    requires Clipped(s) && a < TWO64
    ensures Covers(s, a) <==> Contains(s, a)
  {
  }

  lemma Stored(d: Index, a: nat)
    requires d.Ok()
    ensures d.At(a) in d.pages + {SECTION_UNASSIGNED}
    ensures d.At(a) != SECTION_UNASSIGNED ==> d.PageSection(d.At(a))
  {
    assert d.t.IsLoc(Root) && d.t.From(Root, a / d.page) == d.At(a);
    PageIn(d.t, d.pages + {SECTION_UNASSIGNED}, Root, a / d.page);
  }

  /** Compaction is invisible: on any table that refines the one that was built, phys_page_find
      returns the section stored for the page before compaction. A page that compaction sends
      to a wrong section is not covered by it. */
  lemma FindAfterCompaction(d: Index, t': Table, a: nat)
    requires d.Ok() && Refines(d.t, t') && a < TWO64
    ensures d.Find(t', a) == d.At(a)
    ensures t'.Page(a / d.page) < |d.sections|
  {
    var x := a / d.page;
    assert d.t.IsLoc(Root) && t'.IsLoc(Root) && Kept(d.t, t', Root);
    assert d.t.From(Root, x) == d.At(a) && t'.From(Root, x) == t'.Page(x);
    PageIn(t', d.pages + {SECTION_UNASSIGNED}, Root, x);
    var q := t'.Page(x);
    assert q != SECTION_UNASSIGNED ==> d.PageSection(q);
    assert d.ByteOk(a);
    CoversIsContains(d.sections[q], a);
  }

  /** The subpage is that of its page. */
  ghost predicate Homed(d: Index, k: nat)
    requires d.page > 0 && k < |d.subpages|
  {
    var b := d.subpages[k].base;
    b < TWO64 && d.At(b) < |d.sections| && d.sections[d.At(b)].mr == SubpageOf(k)
  }

  ghost predicate AllHomed(d: Index)
    requires d.page > 0
  {
    forall k: nat :: k < |d.subpages| ==> Homed(d, k)
  }

  /** The first bytes of the pages that have a subpage. */
  ghost function Bases(subpages: seq<Subpage>): set<nat> {
    set k: nat | k < |subpages| :: subpages[k].base
  }

  /** Subpages stay with their pages when a new section takes unassigned pages. */
  lemma HomedKept(d: Index, d': Index)
    requires NewPageSection(d, d') && AllHomed(d)
    ensures forall k: nat :: k < |d.subpages| ==> Homed(d', k)
  {
    hide Walk, Span, Table.Placed, Table.LeavesIn, Index.ByteOk, Index.PageSection;
    forall k: nat | k < |d.subpages| ensures Homed(d', k) {
      assert Homed(d, k);
      var b := d.subpages[k].base;
      assert d.At(b) != SECTION_UNASSIGNED;
    }
  }

  // ---------------------------------------------------------------- adding sections

  /** Bytes of an aligned range and pages of the range are the same thing. */
  lemma PagesOfRange(start: nat, size: nat, page: nat, a: nat)
    requires page > 0 && start % page == 0 && size % page == 0
    ensures start / page <= a / page < start / page + size / page <==> start <= a < start + size
  {
    DivMod(a, page);
    DivMod(start, page);
    DivMod(size, page);
    var x, s, n := a / page, start / page, size / page;
    Product(page, x, s);
    Product(page, x, s + n);
    Product(page, s, x + 1);
    Product(page, s + n, x + 1);
    assert page * (s + n) == start + size;
    assert page * (x + 1) == page * x + page;
  }

  lemma InPage(base: nat, page: nat, a: nat)
    requires page > 0 && base % page == 0
    ensures a / page == base / page <==> base <= a < base + page
    ensures base <= a < base + page ==> a % page == a - base
  {
    QuotientUnique(page, page, 1);
    DivMod(page, page);
    PagesOfRange(base, page, page, a);
    DivMod(a, page);
    DivMod(base, page);
  }

  lemma PageNumber(d: Index, a: nat)
    requires d.Ok() && a < TWO64
    ensures a / d.page < Span(d.t.levels)
  {
    DivMod(a, d.page);
    Product(d.page, Span(d.t.levels), a / d.page);
    Product(d.page, a / d.page, Span(d.t.levels));
  }

  /** No byte of `s` is assigned yet. */
  ghost predicate FreeFor(d: Index, s: Section)
    requires d.page > 0
  {
    forall a: nat :: Contains(s, a) ==> d.Where(a) == None
  }

  /** A page without any assigned byte is unassigned in the page table. */
  lemma PageIsFree(d: Index, s: Section, a: nat)
    requires d.Ok() && d.NoIdleSubpage() && FreeFor(d, s) && Clipped(s)
    requires s.start % d.page == 0 && s.size % d.page == 0 && Contains(s, a)
    ensures d.At(a) == SECTION_UNASSIGNED
  {
    Stored(d, a);
    var q := d.At(a);
    assert d.ByteOk(a);
    if q != SECTION_UNASSIGNED && d.sections[q].mr.SubpageOf? {
      var k := d.sections[q].mr.k;
      assert d.IsSubpage(q) && d.InUse(k);
      var i: nat :| i < |d.subpages[k].table| && d.subpages[k].table[i] != SECTION_UNASSIGNED;
      assert d.EntryOk(k, i);
      var b := d.subpages[k].base + i;
      InPage(d.subpages[k].base, d.page, a);
      InPage(d.subpages[k].base, d.page, b);
      PagesOfRange(s.start, s.size, d.page, a);
      PagesOfRange(s.start, s.size, d.page, b);
      assert Contains(s, b);
    }
  }

  /** `d'` assigns the bytes of `s` as `s` says and every other byte as `d` does. */
  ghost predicate Placing(d: Index, d': Index, s: Section)
    requires d.page > 0 && d'.page > 0
  {
    forall a: nat :: a < TWO64 ==> d'.Where(a) == if Contains(s, a) then Some(Target(s, a)) else d.Where(a)
  }

  /** `d'` has one more section, and the page table stores it for the bytes it contains, all of
      which were unassigned. */
  ghost predicate NewPageSection(d: Index, d': Index) {
    && d.Ok() && d'.page == d.page && d'.t.Placed() && d'.t.levels == d.t.levels
    && |d'.sections| == |d.sections| + 1 && d.sections <= d'.sections && d.subpages <= d'.subpages
    && d'.pages == d.pages + {|d.sections|} && d'.t.LeavesIn(d'.pages + {SECTION_UNASSIGNED})
    && Clipped(d'.sections[|d.sections|])
    && (forall a: nat :: a < TWO64 ==> d'.At(a) == if Contains(d'.sections[|d.sections|], a) then |d.sections| else d.At(a))
    && (forall a: nat :: a < TWO64 && Contains(d'.sections[|d.sections|], a) ==> d.At(a) == SECTION_UNASSIGNED)
  }

  lemma NewPageSectionOk(d: Index, d': Index)
    requires NewPageSection(d, d') && d'.PageSection(|d.sections|)
    ensures d'.Ok()
    ensures forall a: nat :: a < TWO64 && !Contains(d'.sections[|d.sections|], a) ==> d'.Where(a) == d.Where(a)
  {
    hide Walk, Span, Table.Placed, Table.LeavesIn, Index.Where;
    forall q | q in d'.pages
      ensures d'.PageSection(q)
    {
      if q != |d.sections| {
        OldPageSection(d, d', q);
      }
    }
    forall a: nat | a < TWO64
      ensures d'.ByteOk(a)
      ensures !Contains(d'.sections[|d.sections|], a) ==> d'.Where(a) == d.Where(a)
    {
      assert d.ByteOk(a);
      SameWhere(d, d', a);
    }
  }

  /** The page table change that makes section number |sections| the section of the pages of `s`. */
  lemma NewPages(d: Index, d': Index, s: Section)
    requires d.Ok() && Clipped(s) && s.start % d.page == 0 && s.size % d.page == 0
    requires PagesSet(d.t, d'.t, s.start / d.page, s.size / d.page, |d.sections|)
    requires d'.page == d.page && d'.sections == d.sections + [s] && d.subpages <= d'.subpages
    requires d'.pages == d.pages + {|d.sections|}
    requires forall a: nat :: a < TWO64 && Contains(s, a) ==> d.At(a) == SECTION_UNASSIGNED
    ensures NewPageSection(d, d')
  {
    forall a: nat | a < TWO64
      ensures d'.At(a) == if Contains(s, a) then |d.sections| else d.At(a)
    {
      PageNumber(d, a);
      PagesOfRange(s.start, s.size, d.page, a);
    }
    LeavesMore(d.t, d.pages + {SECTION_UNASSIGNED}, d'.pages + {SECTION_UNASSIGNED});
  }

  /** Every byte of a registered section is found in that section. */
  ghost predicate Faithful(d: Index)
    requires d.page > 0
  {
    forall r: nat, b: nat :: r < |d.sections| && d.sections[r].mr.Memory? && b < TWO64 && Contains(d.sections[r], b) ==>
      d.Where(b) == Some(Target(d.sections[r], b))
  }

  lemma PlacingFaithful(d: Index, d': Index, s: Section)
    requires d.page > 0 && d'.page > 0 && Faithful(d) && FreeFor(d, s) && Placing(d, d', s)
    requires d'.sections == d.sections + [s]
    ensures Faithful(d')
  {
    hide Index.Where;
    forall r: nat, b: nat | r < |d'.sections| && d'.sections[r].mr.Memory? && b < TWO64 && Contains(d'.sections[r], b)
      ensures d'.Where(b) == Some(Target(d'.sections[r], b))
    {
      if r < |d.sections| {
        assert d.Where(b) == Some(Target(d.sections[r], b));
      }
    }
  }

  /** register_multipage: whole pages that are free get a new section. */
  lemma RegisterPages(d: Index, s: Section, t': Table)
    requires d.Ok() && d.NoIdleSubpage() && FreeFor(d, s) && Clipped(s) && s.mr.Memory?
    requires s.start % d.page == 0 && s.size % d.page == 0
    requires PagesSet(d.t, t', s.start / d.page, s.size / d.page, |d.sections|)
    ensures var d' := Index(d.page, t', d.sections + [s], d.subpages, d.pages + {|d.sections|});
            d'.Ok() && d'.NoIdleSubpage() && Placing(d, d', s) && (AllHomed(d) ==> AllHomed(d'))
  {
    hide Walk, Span, PagesSet, Table.Placed, Table.LeavesIn;
    var d' := Index(d.page, t', d.sections + [s], d.subpages, d.pages + {|d.sections|});
    forall a: nat | a < TWO64 && Contains(s, a)
      ensures d.At(a) == SECTION_UNASSIGNED
    {
      PageIsFree(d, s, a);
    }
    NewPages(d, d', s);
    NewPageSectionOk(d, d');
    if AllHomed(d) { HomedKept(d, d'); }
  }

  lemma LeavesMore(t: Table, s: set<nat>, s': set<nat>)
    requires t.LeavesIn(s) && s <= s'
    ensures t.LeavesIn(s')
  {
  }

  /** Page sections survive new sections and newly assigned pages. */
  lemma OldPageSection(d: Index, d': Index, q: nat)
    requires d.Ok() && d'.page == d.page && q in d.pages
    requires d.sections <= d'.sections && d.subpages <= d'.subpages
    requires forall a: nat :: a < TWO64 ==> d'.At(a) == d.At(a) || d.At(a) == SECTION_UNASSIGNED
    ensures d'.PageSection(q)
  {
    assert d.PageSection(q);
    forall b: nat | b < TWO64 && Contains(d'.sections[q], b)
      ensures d'.At(b) == q
    {
      assert d.At(b) == q;
    }
    if d.sections[q].mr.SubpageOf? {
      var k := d.sections[q].mr.k;
      forall i: nat | i < d.page
        ensures d'.EntryOk(k, i)
      {
        assert d.EntryOk(k, i);
      }
    }
  }

  /** A byte whose page keeps its section, in unchanged tables, stays where it is. */
  lemma SameWhere(d: Index, d': Index, a: nat)
    requires d.Ok() && d'.page == d.page && a < TWO64
    requires d.sections <= d'.sections && d.subpages <= d'.subpages
    ensures d'.At(a) == d.At(a) ==> d'.Where(a) == d.Where(a)
  {
    Stored(d, a);
    if d.At(a) != SECTION_UNASSIGNED && d.sections[d.At(a)].mr.SubpageOf? {
      assert d.EntryOk(d.sections[d.At(a)].mr.k, a % d.page);
    }
  }

  /** Every reachable subpage but that of `q` has an assigned byte. */
  ghost predicate OthersInUse(d: Index, q: nat)
    requires d.page > 0
  {
    forall p :: p in d.pages && p != q && d.IsSubpage(p) ==> d.InUse(d.sections[p].mr.k)
  }

  /** The index after the free page at `base` got an empty subpage. */
  ghost function SubpageIndex(d: Index, base: nat, t': Table): Index {
    Index(d.page, t', d.sections + [Section(SubpageOf(|d.subpages|), base, 0, d.page)],
          d.subpages + [Subpage(base, seq(d.page, _ => SECTION_UNASSIGNED))], d.pages + {|d.sections|})
  }

  /** register_subpage, first half: a free page gets an empty subpage. Nothing is assigned. */
  lemma AddSubpage(d: Index, base: nat, t': Table)
    requires d.Ok() && d.NoIdleSubpage() && base % d.page == 0 && base + d.page <= TWO64 && d.At(base) == SECTION_UNASSIGNED
    requires PagesSet(d.t, t', base / d.page, 1, |d.sections|)
    ensures var d' := SubpageIndex(d, base, t');
            && d'.Ok() && d'.IsSubpage(|d.sections|) && OthersInUse(d', |d.sections|)
            && (AllHomed(d) ==> AllHomed(d'))
            && forall a: nat :: a < TWO64 ==> d'.Where(a) == d.Where(a)
  {
    hide Walk, Span, PagesSet, Table.Placed, Table.LeavesIn;
    var q0, k0, s := |d.sections|, |d.subpages|, Section(SubpageOf(|d.subpages|), base, 0, d.page);
    var d' := SubpageIndex(d, base, t');
    QuotientUnique(d.page, d.page, 1);
    DivMod(d.page, d.page);
    forall a: nat | a < TWO64 && Contains(s, a)
      ensures d.At(a) == SECTION_UNASSIGNED
    {
      InPage(base, d.page, a);
    }
    NewPages(d, d', s);
    assert forall p :: p in d.pages ==> d.PageSection(p);
    assert forall i: nat :: i < d.page ==> d'.EntryOk(k0, i);
    NewPageSectionOk(d, d');
    if AllHomed(d) {
      HomedKept(d, d');
      assert d'.At(base) == q0;
    }
    forall a: nat | a < TWO64 && Contains(s, a)
      ensures d'.Where(a) == d.Where(a)
    {
      assert d'.At(a) == q0 && d.At(a) == SECTION_UNASSIGNED;
    }
  }

  /** Registered sections are still found, since no byte has moved. */
  lemma SubpageFaithful(d: Index, base: nat, t': Table)
    requires d.page > 0 && Faithful(d) && forall a: nat :: a < TWO64 ==> SubpageIndex(d, base, t').Where(a) == d.Where(a)
    ensures Faithful(SubpageIndex(d, base, t')) && Bases(SubpageIndex(d, base, t').subpages) == Bases(d.subpages) + {base}
  {
    hide Index.Where;
    BasesMore(d.subpages, Subpage(base, seq(d.page, _ => SECTION_UNASSIGNED)));
  }

  /** The table after subpage_register wrote `r` at indices lo..hi. */
  function Written(table: seq<nat>, lo: nat, hi: nat, r: nat): (table': seq<nat>)
    ensures |table'| == |table|
  {
    seq(|table|, i requires 0 <= i < |table| => if lo <= i <= hi then r else table[i])
  }

  /** The index after subpage_register put section `s` into the subpage of page section `q`. */
  ghost function FillIndex(d: Index, q: nat, s: Section): Index
    requires d.page > 0 && d.IsSubpage(q) && s.size > 0 && d.sections[q].start <= s.start
  {
    var k, lo := d.sections[q].mr.k, s.start - d.sections[q].start;
    Index(d.page, d.t, d.sections + [s],
          d.subpages[k := Subpage(d.subpages[k].base, Written(d.subpages[k].table, lo, lo + s.size - 1, |d.sections|))], d.pages)
  }

  ghost predicate Fits(d: Index, q: nat, s: Section) {
    && d.Ok() && q in d.pages && d.IsSubpage(q) && s.mr.Memory? && Clipped(s)
    && d.sections[q].start <= s.start && s.start + s.size <= d.sections[q].start + d.page
  }

  lemma FilledPageSection(d: Index, q: nat, s: Section, p: nat)
    requires Fits(d, q, s) && p in d.pages
    ensures FillIndex(d, q, s).PageSection(p)
  {
    var d' := FillIndex(d, q, s);
    assert d.PageSection(p) && d.PageSection(q);
    forall b: nat | b < TWO64 && Contains(d'.sections[p], b)
      ensures d'.At(b) == p
    {
      assert d.At(b) == p;
    }
    if d.sections[p].mr.SubpageOf? {
      var k := d.sections[p].mr.k;
      forall i: nat | i < d.page
        ensures d'.EntryOk(k, i)
      {
        assert d.EntryOk(k, i);
      }
    }
  }

  lemma FilledWhere(d: Index, q: nat, s: Section, a: nat)
    requires Fits(d, q, s) && a < TWO64
    ensures FillIndex(d, q, s).Where(a) == if Contains(s, a) then Some(Target(s, a)) else d.Where(a)
  {
    var d' := FillIndex(d, q, s);
    assert d.PageSection(q) && d.ByteOk(a);
    Stored(d, a);
    var p := d.At(a);
    assert d'.At(a) == p;
    InPage(d.sections[q].start, d.page, a);
    if p != SECTION_UNASSIGNED && d.IsSubpage(p) {
      assert d.EntryOk(d.sections[p].mr.k, a % d.page);
    }
  }

  /** register_subpage, second half: part of a subpage is assigned. */
  lemma FillSubpage(d: Index, q: nat, s: Section)
    requires Fits(d, q, s)
    ensures FillIndex(d, q, s).Ok() && Placing(d, FillIndex(d, q, s), s)
    ensures FillIndex(d, q, s).InUse(d.sections[q].mr.k)
    ensures forall k: nat :: k < |d.subpages| && d.InUse(k) ==> FillIndex(d, q, s).InUse(k)
  {
    var d', k, lo := FillIndex(d, q, s), d.sections[q].mr.k, s.start - d.sections[q].start;
    assert d.PageSection(q);
    forall p | p in d.pages
      ensures d'.PageSection(p)
    {
      FilledPageSection(d, q, s, p);
    }
    forall a: nat | a < TWO64
      ensures d'.ByteOk(a)
      ensures d'.Where(a) == if Contains(s, a) then Some(Target(s, a)) else d.Where(a)
    {
      assert d.ByteOk(a);
      FilledWhere(d, q, s, a);
    }
    assert d'.subpages[k].table[lo] == |d.sections|;
    forall j: nat | j < |d.subpages| && d.InUse(j)
      ensures d'.InUse(j)
    {
      var i: nat :| i < |d.subpages[j].table| && d.subpages[j].table[i] != SECTION_UNASSIGNED;
      assert d'.subpages[j].table[i] != SECTION_UNASSIGNED;
    }
  }

  lemma BasesMore(subpages: seq<Subpage>, s: Subpage)
    ensures Bases(subpages + [s]) == Bases(subpages) + {s.base}
  {
    assert (subpages + [s])[|subpages|] == s;
    forall k: nat | k < |subpages| ensures (subpages + [s])[k] == subpages[k] {}
  }

  /** A page has a subpage if and only if the page table has a subpage for it. */
  lemma SubpageAt(d: Index, base: nat)
    requires d.Ok() && AllHomed(d) && base < TWO64 && base % d.page == 0
    ensures d.At(base) < |d.sections|
    ensures base in Bases(d.subpages) <==> d.sections[d.At(base)].mr.SubpageOf?
  {
    Stored(d, base);
    var q := d.At(base);
    if base in Bases(d.subpages) {
      var k: nat :| k < |d.subpages| && d.subpages[k].base == base;
      assert Homed(d, k);
    }
    if d.sections[q].mr.SubpageOf? {
      assert d.ByteOk(base);
      InPage(d.sections[q].start, d.page, base);
      DivMod(base, d.page);
      DivMod(d.sections[q].start, d.page);
    }
  }

  lemma FilledHomed(d: Index, q: nat, s: Section)
    requires Fits(d, q, s) && AllHomed(d)
    ensures AllHomed(FillIndex(d, q, s)) && Bases(FillIndex(d, q, s).subpages) == Bases(d.subpages)
  {
    hide Walk, Index.Ok;
    var d' := FillIndex(d, q, s);
    forall k: nat | k < |d'.subpages| ensures Homed(d', k) && d'.subpages[k].base == d.subpages[k].base {
      assert Homed(d, k);
    }
  }

  /** The pages of a free aligned section are free and lie inside the page table. */
  lemma PagesAreFree(d: Index, s: Section)
    requires d.Ok() && d.NoIdleSubpage() && FreeFor(d, s) && Clipped(s)
    requires s.start % d.page == 0 && s.size % d.page == 0
    ensures 0 < s.size / d.page && 0 <= s.start / d.page && s.start / d.page + s.size / d.page <= Span(d.t.levels)
    ensures forall x: nat :: s.start / d.page <= x < s.start / d.page + s.size / d.page ==> d.t.Page(x) == SECTION_UNASSIGNED
  {
    DivMod(s.start, d.page);
    DivMod(s.size, d.page);
    PagesOfRange(s.start, s.size, d.page, s.start + s.size - 1);
    PageNumber(d, s.start + s.size - 1);
    PagesOfRange(s.start, s.size, d.page, s.start + s.size);
    LastPage(s.start, s.size, d.page);
    forall x: nat | s.start / d.page <= x < s.start / d.page + s.size / d.page
      ensures d.t.Page(x) == SECTION_UNASSIGNED
    {
      var a := d.page * x;
      QuotientUnique(a, d.page, x);
      PagesOfRange(s.start, s.size, d.page, a);
      PageIsFree(d, s, a);
    }
  }

  /** The page of a 64-bit address ends inside the address space. */
  lemma PageInside(page: nat, a: nat)
    requires page > 0 && TWO64 % page == 0 && a < TWO64
    ensures 0 <= a - a % page && a % page >= 0 && a - a % page + page <= TWO64 && (a - a % page) % page == 0 && a - a % page <= a
  {
    DivMod(a, page);
    DivMod(TWO64, page);
    QuotientUnique(a - a % page, page, a / page);
    DivMod(a - a % page, page);
    Product(page, a / page, TWO64 / page);
    Product(page, TWO64 / page, a / page);
  }

  lemma LastPage(start: nat, size: nat, page: nat)
    requires page > 0 && start % page == 0 && size % page == 0 && size > 0
    ensures size / page > 0
    ensures (start + size - 1) / page == start / page + size / page - 1
  {
    DivMod(start, page);
    DivMod(size, page);
    var q := start / page + size / page;
    assert size / page != 0;
    assert page * (q - 1) == start + size - page by {
      assert page * q == page * (start / page) + page * (size / page);
      assert page * (q - 1) == page * q - page;
    }
    QuotientUnique(start + size - 1, page, q - 1);
  }

  /** A page of which some byte is free is unassigned or a subpage: the assert of register_subpage. */
  lemma FreeBytePage(d: Index, base: nat, a: nat)
    requires d.Ok() && base % d.page == 0 && base <= a < base + d.page && a < TWO64 && d.Where(a) == None
    ensures d.At(a) == d.At(base)
    ensures d.At(base) != SECTION_UNASSIGNED ==>
              d.At(base) in d.pages && d.IsSubpage(d.At(base)) && d.sections[d.At(base)].start == base
  {
    InPage(base, d.page, a);
    Stored(d, a);
    assert d.ByteOk(base) && d.ByteOk(a);
    var q := d.At(base);
    if q != SECTION_UNASSIGNED && d.sections[q].mr.SubpageOf? {
      InPage(d.sections[q].start, d.page, base);
      DivMod(base, d.page);
      DivMod(d.sections[q].start, d.page);
    }
  }

  /** The first `n` bytes of a section, and the rest. */
  function Head(s: Section, n: nat): Section {
    s.(size := n)
  }

  function Tail(s: Section, n: nat): Section
    requires n <= s.size
  {
    Section(s.mr, s.start + n, s.offset + n, s.size - n)
  }

  /** Placing the two parts of a section places the section. */
  lemma PlacingParts(d0: Index, d1: Index, s: Section, n: nat)
    requires d0.page > 0 && d1.page > 0 && n <= s.size && Clipped(s) && FreeFor(d0, s)
    requires Placing(d0, d1, Head(s, n))
    ensures FreeFor(d1, Tail(s, n))
    ensures forall d2: Index :: d2.page > 0 && Placing(d1, d2, Tail(s, n)) ==> Placing(d0, d2, s)
    ensures n == s.size ==> Placing(d0, d1, s)
  {
    hide Index.Where;
  }

  lemma FreeHead(d: Index, s: Section, n: nat)
    requires d.page > 0 && FreeFor(d, s) && n <= s.size
    ensures FreeFor(d, Head(s, n))
  {
  }

  /** Cutting at the next page boundary, and at the last one. */
  lemma CutPoints(page: nat, x: nat)
    requires page > 0
    ensures (x - x % page) % page == 0 && 0 <= x - x % page && 0 <= x % page < page
    ensures (x + (page - x % page)) % page == 0
  {
    DivMod(x, page);
    QuotientUnique(x - x % page, page, x / page);
    DivMod(x - x % page, page);
    var y := x + (page - x % page);
    assert y == page * (x / page + 1) by {
      assert page * (x / page + 1) == page * (x / page) + page;
    }
    QuotientUnique(y, page, x / page + 1);
    DivMod(y, page);
  }

  lemma SumAligned(page: nat, x: nat, y: nat)
    requires page > 0 && x % page == 0 && y % page == 0
    ensures (x + y) % page == 0
  {
    DivMod(x, page);
    DivMod(y, page);
    var q := x / page + y / page;
    assert page * q == x + y by {
      assert page * q == page * (x / page) + page * (y / page);
    }
    QuotientUnique(x + y, page, q);
    DivMod(x + y, page);
  }

  /** Bytes [addr, addr + len) are consecutive bytes of one region, from offset `xlat` on. */
  ghost predicate Run(d: Index, addr: nat, len: nat, mr: Region, xlat: int)
    requires d.page > 0
  {
    forall b: nat :: addr <= b < addr + len ==> d.Where(b) == Some((mr, xlat + b - addr))
  }

  ghost predicate Disjoint(list: seq<Section>) {
    forall i: nat, j: nat, a: nat :: i < |list| && j < |list| && Contains(list[i], a) && Contains(list[j], a) ==> i == j
  }

  /** The index agrees with the plain list of ranges, byte by byte. */
  ghost predicate Indexes(d: Index, list: seq<Section>)
    requires d.page > 0
  {
    && (forall i: nat, a: nat :: i < |list| && a < TWO64 && Contains(list[i], a) ==> d.Where(a) == Some(Target(list[i], a)))
    && (forall a: nat :: a < TWO64 && (forall i: nat :: i < |list| ==> !Contains(list[i], a)) ==> d.Where(a) == None)
  }

  lemma IndexesMore(d: Index, d': Index, list: seq<Section>, n: nat)
    requires d.page > 0 && d'.page > 0 && n < |list| && Disjoint(list)
    requires Indexes(d, list[..n]) && Placing(d, d', list[n])
    ensures Indexes(d', list[..n + 1])
  {
    hide Index.Where;
    forall i: nat, a: nat | i <= n && a < TWO64 && Contains(list[i], a)
      ensures d'.Where(a) == Some(Target(list[i], a))
    {
      assert i < n ==> list[..n][i] == list[i];
    }
    var more := list[..n + 1];
    forall a: nat | a < TWO64 && (forall i: nat :: i < |more| ==> !Contains(more[i], a))
      ensures d'.Where(a) == None
    {
      assert forall i: nat :: i < n ==> list[..n][i] == more[i];
      assert more[n] == list[n];
    }
  }

  lemma NextIsFree(d: Index, list: seq<Section>, n: nat)
    requires d.page > 0 && n < |list| && Disjoint(list) && Clipped(list[n]) && Indexes(d, list[..n])
    ensures FreeFor(d, list[n])
  {
    hide Index.Where;
    forall a: nat | Contains(list[n], a)
      ensures d.Where(a) == None
    {
      assert forall i: nat :: i < n ==> list[..n][i] == list[i];
    }
  }
}
