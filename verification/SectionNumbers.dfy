/** How many section numbers a section takes when it is added to the dispatch. */
module SectionNumbers {
  import opened Arithmetic
  import opened PhysPageMaps
  import opened Sections

  predicate OnPage(page: nat, x: nat)
    requires page > 0
  {
    x % page == 0
  }

  /** Rounding down to a page boundary. */
  function Floor(page: nat, x: nat): (b: nat)
    requires page > 0
    ensures b <= x < b + page && OnPage(page, b)
  {
    CutPoints(page, x);
    x - x % page
  }

  /** The pages that the section meets but does not cover, by their first bytes. */
  function CutPages(page: nat, s: Section): set<nat>
    requires page > 0
  {
    var end := s.start + s.size;
    (if OnPage(page, s.start) then {} else {Floor(page, s.start)}) + (if OnPage(page, end) then {} else {Floor(page, end)})
  }

  /** Whether it covers a page. */
  function Wholes(page: nat, s: Section): nat
    requires page > 0
  {
    if Floor(page, s.start + page - 1) + page <= s.start + s.size then 1 else 0
  }

  /** One number for each page that is cut, one for the whole pages, and one for each page that is
      cut and has no subpage yet. */
  function Cost(page: nat, s: Section, subs: set<nat>): nat
    requires page > 0
  {
    |CutPages(page, s)| + Wholes(page, s) + |CutPages(page, s) - subs|
  }

  lemma FloorUnique(page: nat, x: nat, b: nat)
    requires page > 0 && OnPage(page, b) && b <= x < b + page
    ensures b == Floor(page, x)
  {
    InPage(b, page, x);
  }

  lemma CutPagesAre(page: nat, s: Section, b: nat)
    requires page > 0 && s.size > 0 && OnPage(page, b)
    ensures b in CutPages(page, s) <==>
              (exists a: nat :: b <= a < b + page && Contains(s, a)) && exists a: nat :: b <= a < b + page && !Contains(s, a)
  {
    var end := s.start + s.size;
    if b in CutPages(page, s) {
      if b <= s.start {
        assert Contains(s, s.start) && !Contains(s, if b < s.start then b else end);
      } else {
        assert Contains(s, b) && !Contains(s, end);
      }
    }
    if a: nat, c: nat :| b <= a < b + page && Contains(s, a) && b <= c < b + page && !Contains(s, c) {
      if c < s.start {
        FloorUnique(page, s.start, b);
        AlignedApart(page, b, s.start);
      } else {
        FloorUnique(page, end, b);
        AlignedApart(page, b, end);
      }
    }
  }

  /** Strictly inside a page there is no page boundary. */
  lemma AlignedApart(page: nat, b: nat, x: nat)
    requires page > 0 && OnPage(page, b) && b < x < b + page
    ensures !OnPage(page, x)
  {
    InPage(b, page, x);
  }

  function New(b: nat, subs: set<nat>): nat {
    if b in subs then 0 else 1
  }

  lemma OneCut(b: nat, subs: set<nat>)
    ensures |{b}| == 1 && |{b} - subs| == New(b, subs)
  {
    assert {b} - subs == if b in subs then {} else {b};
  }

  /** Without an unaligned start: the whole pages, then the last part. */
  lemma AlignedCost(page: nat, s: Section, subs: set<nat>)
    requires page > 0 && s.size > 0 && OnPage(page, s.start)
    ensures var whole := Floor(page, s.size);
            && OnPage(page, s.start + whole) && (whole > 0 <==> s.size >= page)
            && Floor(page, s.start + whole) == s.start + whole
            && CutPages(page, s) == (if s.size == whole then {} else {s.start + whole})
            && Cost(page, s, subs) == (if whole > 0 then 1 else 0) + (if s.size == whole then 0 else 1 + New(s.start + whole, subs))
  {
    hide OnPage, Floor, New, CutPages, Wholes;
    AlignedCuts(page, s);
    OneCut(s.start + Floor(page, s.size), subs);
  }

  lemma AlignedCuts(page: nat, s: Section)
    requires page > 0 && s.size > 0 && OnPage(page, s.start)
    ensures var whole := Floor(page, s.size);
            && OnPage(page, s.start + whole) && (whole > 0 <==> s.size >= page)
            && Floor(page, s.start + whole) == s.start + whole
            && CutPages(page, s) == (if s.size == whole then {} else {s.start + whole})
            && Wholes(page, s) == (if whole > 0 then 1 else 0)
  {
    WholePages(page, s.start, s.size);
    hide OnPage, Floor;
    var end, last := s.start + s.size, s.start + Floor(page, s.size);
    FloorUnique(page, last, last);
    FloorUnique(page, s.start + page - 1, s.start);
    if end != last {
      AlignedApart(page, last, end);
      FloorUnique(page, end, last);
    }
  }

  lemma WholePages(page: nat, start: nat, size: nat)
    requires page > 0 && OnPage(page, start)
    ensures var whole := Floor(page, size); OnPage(page, start + whole) && (whole > 0 <==> size >= page)
  {
    SumAligned(page, start, Floor(page, size));
    if size >= page {
      QuotientUnique(page, page, 1);
      DivMod(page, page);
      FloorAbove(page, page, size);
    }
  }

  /** With an unaligned start: the part up to the next page, then the rest. */
  lemma HeadCost(page: nat, s: Section, up: nat, subs: set<nat>)
    requires page > 0 && s.size > 0 && !OnPage(page, s.start) && up == Floor(page, s.start) + page
    ensures OnPage(page, up)
    ensures var b := Floor(page, s.start);
            && Cost(page, s, subs) == 1 + New(b, subs) + (if s.start + s.size <= up then 0 else Cost(page, Tail(s, up - s.start), subs + {b}))
            && CutPages(page, s) == {b} + (if s.start + s.size <= up then {} else CutPages(page, Tail(s, up - s.start)))
  {
    var b := Floor(page, s.start);
    assert OnPage(page, up) by {
      QuotientUnique(page, page, 1);
      DivMod(page, page);
      SumAligned(page, b, page);
    }
    hide OnPage, Floor, New, CutPages, Wholes;
    HeadCuts(page, s, up);
    if s.start + s.size <= up {
      OneCut(b, subs);
    } else {
      SetsApart(CutPages(page, s), b, CutPages(page, Tail(s, up - s.start)), subs);
    }
  }

  lemma HeadCuts(page: nat, s: Section, up: nat)
    requires page > 0 && s.size > 0 && !OnPage(page, s.start) && OnPage(page, up) && up == Floor(page, s.start) + page
    ensures s.start + s.size <= up ==> CutPages(page, s) == {Floor(page, s.start)} && Wholes(page, s) == 0
    ensures s.start + s.size > up ==>
              var b, t := Floor(page, s.start), Tail(s, up - s.start);
              CutPages(page, s) == {b} + CutPages(page, t) && b !in CutPages(page, t) && Wholes(page, s) == Wholes(page, t)
  {
    hide OnPage, Floor;
    var b, end := Floor(page, s.start), s.start + s.size;
    FloorUnique(page, s.start + page - 1, up);
    FloorUnique(page, up + page - 1, up);
    if end < up {
      FloorUnique(page, end, b);
    } else {
      FloorAbove(page, up, end);
    }
  }

  lemma FloorAbove(page: nat, up: nat, x: nat)
    requires page > 0 && OnPage(page, up) && up <= x
    ensures up <= Floor(page, x)
  {
    DivMod(x, page);
    DivMod(up, page);
    Product(page, x / page, up / page);
  }

  lemma SetsApart(all: set<nat>, b: nat, rest: set<nat>, subs: set<nat>)
    requires all == {b} + rest && b !in rest
    ensures |all| == 1 + |rest| && |all - subs| == New(b, subs) + |rest - (subs + {b})|
  {
    OneCut(b, subs);
    assert all - subs == ({b} - subs) + (rest - (subs + {b}));
  }

  // ---------------------------------------------------------------- lists

  /** The pages that some section of the list cuts. */
  function Cuts(page: nat, list: seq<Section>): set<nat>
    requires page > 0
  {
    if list == [] then {} else Cuts(page, list[..|list| - 1]) + CutPages(page, list[|list| - 1])
  }

  /** The pieces that the sections of the list are cut into. */
  function Pieces(page: nat, list: seq<Section>): nat
    requires page > 0
  {
    if list == [] then 0 else
      var s := list[|list| - 1];
      Pieces(page, list[..|list| - 1]) + |CutPages(page, s)| + Wholes(page, s)
  }

  /** The numbers that a list of sections takes: the unassigned section, the pieces, and one
      subpage for each page that is cut. */
  function Numbers(page: nat, list: seq<Section>): nat
    requires page > 0
  {
    1 + Pieces(page, list) + |Cuts(page, list)|
  }

  lemma NoNumbers(page: nat)
    requires page > 0
    ensures Numbers(page, []) == 1
  {
  }

  lemma NumbersMore(page: nat, list: seq<Section>, n: nat)
    requires page > 0 && n < |list|
    ensures Numbers(page, list[..n + 1]) == Numbers(page, list[..n]) + Cost(page, list[n], Cuts(page, list[..n]))
    ensures Cuts(page, list[..n + 1]) == Cuts(page, list[..n]) + CutPages(page, list[n])
  {
    assert list[..n + 1][..n] == list[..n];
    var c, m := Cuts(page, list[..n]), CutPages(page, list[n]);
    assert c + m == c + (m - c);
  }

  lemma {:induction false} NumbersOfPrefix(page: nat, list: seq<Section>, n: nat)
    requires page > 0 && n <= |list|
    ensures Numbers(page, list[..n]) <= Numbers(page, list)
    decreases |list| - n
  {
    hide Numbers, Cost, Cuts, CutPages;
    if n < |list| {
      NumbersMore(page, list, n);
      NumbersOfPrefix(page, list, n + 1);
    } else {
      assert list[..n] == list;
    }
  }

  /** A list that takes more numbers than there are runs out of them at one of its sections. */
  lemma {:induction false} RunsOut(page: nat, list: seq<Section>) returns (n: nat)
    requires page > 0 && Numbers(page, list) > page
    ensures n < |list| && Numbers(page, list[..n]) <= page < Numbers(page, list[..n]) + Cost(page, list[n], Cuts(page, list[..n]))
    decreases |list|
  {
    hide Numbers, Cost, Cuts, CutPages;
    NoNumbers(page);
    var m: nat := |list| - 1;
    assert list[..m + 1] == list;
    NumbersMore(page, list, m);
    if Numbers(page, list[..m]) <= page {
      n := m;
    } else {
      n := RunsOut(page, list[..m]);
      assert list[..m][..n] == list[..n];
    }
  }
}
