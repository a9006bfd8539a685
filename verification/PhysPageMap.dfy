/** Filling the page table: phys_page_set and what it calls. */
module PhysPageMaps {
  import opened PhysPages
  import opened PhysPageCompaction

  function Min(a: nat, b: nat): nat { if a < b then a else b }
  function Max(a: nat, b: nat): nat { if a < b then b else a }

  /** How many nodes one phys_page_set_level call may allocate at `level`, by whether the
      range starts at the first page below the entry and whether it reaches the last. */
  function AllocBound(level: nat, fromStart: bool, toEnd: bool): (n: nat)
    ensures 1 <= n <= 2 * level + 1
  {
    1 + if fromStart && toEnd then 0 else if fromStart || toEnd then level else 2 * level
  }

  /** The same for one slot of a level-`level` node: nothing if the slot becomes a leaf. */
  function SlotCost(level: nat, fromStart: bool, toEnd: bool): nat {
    if fromStart && toEnd then 0 else if fromStart || toEnd then level else if level == 0 then 0 else 2 * level - 1
  }

  /** From `t` to `t'` pages [lo, hi) below the entry at `lp` became `leaf`, every other page is
      as before, and of the entries at that height or above only `lp` itself changed. */
  ghost predicate Filled(t: Table, t': Table, lp: Loc, lo: nat, hi: nat, leaf: nat) {
    && t.Placed() && t'.Placed() && t.IsLoc(lp)
    && Framed(t, t', lo, hi)
    && (forall x: nat :: lo <= x < hi ==> t'.From(lp, x) == leaf)
    && (forall l: Loc :: t.IsLoc(l) && t.Level(l) >= t.Level(lp) && l != lp ==> t'.Get(l) == t.Get(l))
    && (forall s: set<nat> :: leaf in s && SECTION_UNASSIGNED in s && t.LeavesIn(s) ==> t'.LeavesIn(s))
  }

  ghost predicate Descends(t: Table, lp: Loc) {
    t.Placed() && t.IsLoc(lp) && t.Get(lp).skip == 1 && t.Get(lp).ptr != NODE_NIL
  }

  lemma NothingFilled(t: Table, lp: Loc, lo: nat, leaf: nat)
    requires t.Placed() && t.IsLoc(lp)
    ensures Filled(t, t, lp, lo, lo, leaf)
  {
  }

  lemma LinkFilled(t: Table, lp: Loc, lo: nat, leaf: nat)
    requires t.Placed() && t.IsLoc(lp)
    requires |t.nodes| < NODE_NIL && t.Get(lp) == Entry(1, NODE_NIL)
    ensures t.Level(lp) > 0
    ensures var t' := AddNode(t, t.Level(lp) - 1, t.Base(lp)).Put(lp, Entry(1, |t.nodes|));
            Filled(t, t', lp, lo, lo, leaf) && Descends(t', lp)
  {
    LinkEmptyFramed(t, lp);
    hide Walk, Span, SlotOf, SlotBase, Table.Leveled;
    var t' := AddNode(t, t.Level(lp) - 1, t.Base(lp)).Put(lp, Entry(1, |t.nodes|));
    forall s: set<nat>, l: Loc | SECTION_UNASSIGNED in s && t.LeavesIn(s) && t'.IsLoc(l) && t'.Get(l).skip == 0
      ensures t'.Get(l).ptr in s
    {
      assert t.IsLoc(l) ==> t.Get(l) == t'.Get(l) || l == lp;
    }
  }

  /** Slot `j` of the node below `lp`. */
  ghost function Child(t: Table, lp: Loc, j: nat): (c: Loc)
    requires Descends(t, lp) && j < P_L2_SIZE
    ensures t.IsLoc(c) && t.Level(c) == t.Level(lp) - 1
    ensures t.Base(c) == SlotBase(t.Base(lp), j, t.Level(c))
  {
    assert t.LeveledEntry(t.Get(lp), t.Level(lp));
    assert t.PlacedEntry(t.Get(lp), t.Level(lp), t.Base(lp));
    At(t.Get(lp).ptr, j)
  }

  lemma ChildFollows(t: Table, lp: Loc, j: nat, x: nat)
    requires Descends(t, lp) && j < P_L2_SIZE && t.InLoc(Child(t, lp, j), x)
    ensures t.InLoc(lp, x) && t.From(lp, x) == t.From(Child(t, lp, j), x)
  {
    BaseAligned(t, lp);
    SlotAligned(t.Base(lp), j, t.Level(lp) - 1);
    SlotOfIs(x, t.Base(lp), j, t.Level(lp) - 1);
    BelowFollows(t, lp, x);
  }

  /** Filling a slot next to the part already filled fills both. */
  lemma ChildFilled(t0: Table, t1: Table, t2: Table, lp: Loc, j: nat, lo: nat, mid: nat, hi: nat, leaf: nat)
    requires Filled(t0, t1, lp, lo, mid, leaf) && Descends(t1, lp) && j < P_L2_SIZE
    requires Filled(t1, t2, Child(t1, lp, j), mid, hi, leaf)
    requires t0.Base(lp) <= lo <= mid <= hi <= t0.Base(lp) + Span(t0.Level(lp))
    requires t1.Base(Child(t1, lp, j)) <= mid && hi <= t1.Base(Child(t1, lp, j)) + Span(t1.Level(Child(t1, lp, j)))
    ensures Filled(t0, t2, lp, lo, hi, leaf) && Descends(t2, lp) && Child(t2, lp, j) == Child(t1, lp, j)
  {
    FramedTransitive(t0, t1, t2, lo, mid, hi);
    assert t1.LeveledEntry(t1.Get(lp), t1.Level(lp));
    assert t2.Get(lp) == t1.Get(lp);
    forall x: nat | lo <= x < hi
      ensures t2.From(lp, x) == leaf
    {
      if x < mid {
        assert t0.InLoc(lp, x) && t1.From(lp, x) == leaf;
      } else {
        assert t1.InLoc(Child(t1, lp, j), x);
        ChildFollows(t2, lp, j, x);
      }
    }
    forall l: Loc | t0.IsLoc(l) && t0.Level(l) >= t0.Level(lp) && l != lp
      ensures t2.Get(l) == t0.Get(l)
    {
      assert t1.Get(l) == t0.Get(l);
    }
  }

  /** The pages of [index, index + nb) below `l` are unassigned. */
  ghost predicate Free(t: Table, l: Loc, index: nat, nb: nat)
    requires t.IsLoc(l)
  {
    forall x: nat :: index <= x < index + nb && t.InLoc(l, x) ==> t.From(l, x) == SECTION_UNASSIGNED
  }

  /** Where the loop of phys_page_set_level stands in a level-`level` node that starts at page
      `base`: pages before `index` are done, slot `j` is next, and only the first slot may be
      entered in its middle. */
  predicate Position(base: nat, level: nat, j: nat, index0: nat, nb0: nat, index: nat) {
    && index0 <= index <= Min(index0 + nb0, base + Span(level + 1))
    && j <= P_L2_SIZE
    && (index < index0 + nb0 && j < P_L2_SIZE ==> InSlot(index, base, j, level))
    && (index < index0 + nb0 && j == P_L2_SIZE ==> index == base + Span(level + 1))
    && (index0 < index < index0 + nb0 ==> index == SlotBase(base, j, level))
  }

  lemma PositionStart(base: nat, level: nat, index0: nat, nb0: nat)
    requires base % Span(level + 1) == 0 && base <= index0 < base + Span(level + 1)
    ensures Position(base, level, SlotOf(index0, level), index0, nb0, index0)
    ensures Spent(level, index0 == base, index0 + nb0 >= base + Span(level + 1), false, nb0 == 0) == 0
  {
    SlotContains(index0, base, level);
  }

  lemma PositionEnd(base: nat, level: nat, j: nat, index0: nat, nb0: nat, index: nat)
    requires Position(base, level, j, index0, nb0, index) && (index == index0 + nb0 || j >= P_L2_SIZE)
    ensures index == Min(index0 + nb0, base + Span(level + 1))
    ensures var s, e := index0 == base, index0 + nb0 >= base + Span(level + 1);
            Spent(level, s, e, index > index0, index == index0 + nb0) + 1 <= AllocBound(level, s, e)
  {
  }

  lemma PositionStep(base: nat, level: nat, j: nat, index0: nat, nb0: nat, index: nat, index': nat)
    requires base % Span(level + 1) == 0
    requires Position(base, level, j, index0, nb0, index) && index < index0 + nb0 && j < P_L2_SIZE
    requires index' == Min(index0 + nb0, SlotBase(base, j, level) + Span(level))
    ensures Position(base, level, j + 1, index0, nb0, index') && index < index'
    ensures index0 <= index && SlotBase(base, j, level) <= index && index' <= base + Span(level + 1)
  {
    SlotAligned(base, j, level);
    SlotBaseIs(base, P_L2_SIZE, level);
  }

  /** The slot the loop comes to next is unassigned in the rest of the range, so it is no leaf
      above level 0. */
  lemma NextSlot(t0: Table, t1: Table, lp: Loc, level: nat, j: nat, index0: nat, nb0: nat, index: nat, leaf: nat)
    requires Filled(t0, t1, lp, index0, index, leaf) && Descends(t1, lp) && t0.Level(lp) == level + 1
    requires Position(t0.Base(lp), level, j, index0, nb0, index) && index < index0 + nb0 && j < P_L2_SIZE
    requires Free(t0, lp, index0, nb0)
    ensures t1.Placed() && t1.IsLoc(Child(t1, lp, j)) && t1.Level(Child(t1, lp, j)) == level
    ensures t1.Base(Child(t1, lp, j)) == SlotBase(t0.Base(lp), j, level)
    ensures t1.InLoc(Child(t1, lp, j), index)
    ensures Free(t1, Child(t1, lp, j), index, index0 + nb0 - index)
    ensures level > 0 ==> t1.Get(Child(t1, lp, j)).skip == 1
  {
    var c := Child(t1, lp, j);
    forall x: nat | index <= x < index0 + nb0 && t1.InLoc(c, x)
      ensures t1.From(c, x) == SECTION_UNASSIGNED
    {
      ChildFollows(t1, lp, j, x);
      assert t0.InLoc(lp, x);
      assert t1.From(lp, x) == t0.From(lp, x);
    }
    assert t1.From(c, index) == SECTION_UNASSIGNED;
    assert t1.PlacedEntry(t1.Get(c), t1.Level(c), t1.Base(c));
  }

  /** Nodes allocated below a level-`level` node so far: only the first and the last slot of the
      range can be entered in part. */
  function Spent(level: nat, fromStart: bool, toEnd: bool, started: bool, done: bool): nat {
    if !started then 0
    else if !done then (if fromStart then 0 else level)
    else AllocBound(level, fromStart, toEnd) - 1
  }

  lemma SpentStep(base: nat, level: nat, j: nat, index0: nat, nb0: nat, index: nat)
    requires base % Span(level + 1) == 0 && base <= index0 < base + Span(level + 1)
    requires Position(base, level, j, index0, nb0, index) && index < index0 + nb0 && j < P_L2_SIZE
    ensures var s, e, c := index0 == base, index0 + nb0 >= base + Span(level + 1), SlotBase(base, j, level);
            Spent(level, s, e, index > index0, false) + SlotCost(level, index == c, index0 + nb0 >= c + Span(level)) <=
            Spent(level, s, e, true, index0 + nb0 <= c + Span(level))
    ensures var s, e := index0 == base, index0 + nb0 >= base + Span(level + 1);
            Spent(level, s, e, true, index0 + nb0 <= SlotBase(base, j, level) + Span(level)) + 1 <= AllocBound(level, s, e)
  {
    SlotAligned(base, j, level);
  }

  class PhysPageMap {
    const levels: nat
    var root: Entry
    var nodes: seq<Node>
    var nodesNbAlloc: nat
    var allocHint: nat
    ghost var lab: Labels

    ghost function T(): Table
      reads this
    {
      Table(levels, root, nodes, lab)
    }

    /** True of a page table that is still being filled. */
    ghost predicate Valid()
      reads this
    {
      T().Placed() && root.skip == 1 && |nodes| <= nodesNbAlloc
    }

    constructor (levels: nat, hint: nat)
      requires levels >= 1
      ensures Valid() && this.levels == levels && nodes == []
      ensures forall x: nat :: T().Page(x) == SECTION_UNASSIGNED
    {
      this.levels := levels;
      root := Entry(1, NODE_NIL);
      nodes, nodesNbAlloc, allocHint := [], 0, hint;
      lab := Labels([], []);
    }

    method Reserve(count: nat)
      requires Valid()
      modifies this`nodesNbAlloc, this`allocHint
      ensures Valid() && |nodes| + count <= nodesNbAlloc
      ensures |nodes| + count <= old(nodesNbAlloc) ==> nodesNbAlloc == old(nodesNbAlloc) && allocHint == old(allocHint)
      ensures |nodes| + count > old(nodesNbAlloc) ==> nodesNbAlloc == allocHint == Max(old(allocHint), |nodes| + count)
    {
      if |nodes| + count > nodesNbAlloc {
        nodesNbAlloc := Max(allocHint, |nodes| + count);
        allocHint := nodesNbAlloc;
      }
    }

    /** The first lines of phys_page_set_level: give the entry a node if it has none.
        No page changes its section. */
    method AllocBelow(lp: Loc, level: nat, ghost lo: nat, ghost leaf: nat)
      requires T().Placed() && T().IsLoc(lp) && T().Level(lp) == level + 1 && T().Get(lp).skip == 1
      requires |nodes| < nodesNbAlloc && |nodes| < NODE_NIL
      modifies this`root, this`nodes, this`lab
      ensures Filled(old(T()), T(), lp, lo, lo, leaf) && Descends(T(), lp)
      ensures |old(nodes)| <= |nodes| <= |old(nodes)| + 1
    {
      hide Filled, Walk, SlotBase;
      NothingFilled(T(), lp, lo, leaf);
      var ptr := if lp.Root? then root.ptr else nodes[lp.node][lp.slot].ptr;
      if ptr == NODE_NIL {
        ghost var t := T();
        LinkFilled(t, lp, lo, leaf);
        var ret := |nodes|;
        nodes := nodes + [EmptyNode(level == 0)];
        lab := Labels(lab.lev + [level], lab.base + [t.Base(lp)]);
        assert T() == AddNode(t, level, t.Base(lp));
        if lp.Root? {
          root := Entry(1, ret);
        } else {
          nodes := PutEntry(nodes, lp.node, lp.slot, Entry(1, ret));
        }
        assert T() == AddNode(t, level, t.Base(lp)).Put(lp, Entry(1, ret));
      }
    }

    /** One round of the loop in phys_page_set_level: fill the part of the range that lies in
        slot `c`, as a leaf when the slot is covered whole, one level down otherwise. */
    method SetSlot(c: Loc, index0: nat, nb0: nat, leaf: nat, level: nat) returns (index: nat, nb: nat)
      requires T().Placed() && c.At? && T().IsLoc(c) && T().Level(c) == level
      requires level > 0 ==> T().Get(c).skip == 1
      requires 0 < leaf < NODE_NIL && 0 < nb0 && T().InLoc(c, index0)
      requires Free(T(), c, index0, nb0)
      requires |nodes| + SlotCost(level, index0 == T().Base(c), index0 + nb0 >= T().Base(c) + Span(level)) <= Min(nodesNbAlloc, NODE_NIL)
      modifies this`root, this`nodes, this`lab
      ensures index == Min(index0 + nb0, old(T().Base(c)) + Span(level)) && index + nb == index0 + nb0
      ensures Filled(old(T()), T(), c, index0, index, leaf)
      ensures |nodes| <= |old(nodes)| + SlotCost(level, index0 == old(T().Base(c)), index0 + nb0 >= old(T().Base(c)) + Span(level))
      decreases level, 0
    {
      var step := Span(level);
      BaseAligned(T(), c);
      AlignedInSlot(index0, lab.base[c.node], c.slot, level);
      if index0 % step == 0 && nb0 >= step {
        LeafFramed(T(), c, leaf);
        nodes := PutEntry(nodes, c.node, c.slot, Entry(0, leaf));
        assert T() == old(T()).Put(c, Entry(0, leaf));
        index, nb := index0 + step, nb0 - step;
      } else {
        index, nb := SetLevel(c, index0, nb0, leaf, level - 1);
      }
    }

    /** phys_page_set_level: `index` and `nb` are updated through pointers in the source and
        returned here. */
    method SetLevel(lp: Loc, index0: nat, nb0: nat, leaf: nat, level: nat) returns (index: nat, nb: nat)
      requires T().Placed() && T().IsLoc(lp) && T().Level(lp) == level + 1 && T().Get(lp).skip == 1
      requires 0 < leaf < NODE_NIL && 0 < nb0 && T().InLoc(lp, index0)
      requires Free(T(), lp, index0, nb0)
      requires |nodes| + AllocBound(level, index0 == T().Base(lp), index0 + nb0 >= T().Base(lp) + Span(level + 1)) <= Min(nodesNbAlloc, NODE_NIL)
      modifies this`root, this`nodes, this`lab
      ensures index == Min(index0 + nb0, old(T().Base(lp)) + Span(level + 1)) && index + nb == index0 + nb0
      ensures Filled(old(T()), T(), lp, index0, index, leaf) && Descends(T(), lp)
      ensures |nodes| <= |old(nodes)| + AllocBound(level, index0 == old(T().Base(lp)), index0 + nb0 >= old(T().Base(lp)) + Span(level + 1))
      decreases level, 1
    {
      hide Filled, Free, Position, Spent, SlotCost, AllocBound, Span, SlotBase, SlotOf, Table.Placed, Table.Level, Table.Base;
      ghost var t0, base := T(), T().Base(lp);
      BaseAligned(t0, lp);
      PositionStart(base, level, index0, nb0);
      AllocBelow(lp, level, index0, leaf);
      var p := if lp.Root? then root.ptr else nodes[lp.node][lp.slot].ptr;
      var j: nat := SlotOf(index0, level);
      index, nb := index0, nb0;
      while nb != 0 && j < P_L2_SIZE
        invariant index + nb == index0 + nb0
        invariant Position(base, level, j, index0, nb0, index)
        invariant Filled(t0, T(), lp, index0, index, leaf) && Descends(T(), lp) && T().Get(lp).ptr == p
        invariant |nodes| <= |t0.nodes| + 1 + Spent(level, index0 == base, index0 + nb0 >= base + Span(level + 1), index > index0, nb == 0)
      {
        ghost var t1, index1 := T(), index;
        NextSlot(t0, t1, lp, level, j, index0, nb0, index, leaf);
        SpentStep(base, level, j, index0, nb0, index);
        PositionStep(base, level, j, index0, nb0, index, Min(index0 + nb0, SlotBase(base, j, level) + Span(level)));
        index, nb := SetSlot(At(p, j), index, nb, leaf, level);
        ChildFilled(t0, t1, T(), lp, j, index0, index1, index, leaf);
        j := j + 1;
      }
      PositionEnd(base, level, j, index0, nb0, index);
    }

    /** phys_page_set is a pointwise update: the pages of the range find `leaf`, every other page
        finds what it found before. At most 2 * levels - 1 nodes are allocated, so the reserve of
        3 * levels is never exceeded. */
    method Set(index: nat, nb: nat, leaf: nat)
      requires Valid()
      requires 0 < nb && index + nb <= Span(levels) && 0 < leaf < NODE_NIL
      requires forall x: nat :: index <= x < index + nb ==> T().Page(x) == SECTION_UNASSIGNED
      requires |nodes| + 2 * levels - 1 <= NODE_NIL
      modifies this
      ensures Valid() && nodesNbAlloc >= |old(nodes)| + 3 * levels
      ensures PagesSet(old(T()), T(), index, nb, leaf)
      ensures forall x: nat :: x < Span(levels) ==> T().Page(x) == if index <= x < index + nb then leaf else old(T().Page(x))
      ensures |nodes| <= |old(nodes)| + 2 * levels - 1
    {
      Reserve(3 * levels);
      ghost var t := T();
      assert t.IsLoc(Root) && t.InLoc(Root, index);
      assert forall x: nat :: t.From(Root, x) == t.Page(x);
      var index', nb' := SetLevel(Root, index, nb, leaf, levels - 1);
      forall x: nat | x < Span(levels)
        ensures T().Page(x) == if index <= x < index + nb then leaf else t.Page(x)
      {
        assert T().From(Root, x) == T().Page(x);
        assert t.InLoc(Root, x);
      }
    }

    /** The end of phys_page_compact: the entry at `lp`, whose node has the single child `v`,
        takes over what the child points to. */
    method Merge(lp: Loc, e: Entry, v: nat)
      requires T().Leveled() && T().IsLoc(lp) && T().Get(lp) == e && e.skip != 0 && e.ptr != NODE_NIL
      requires v < P_L2_SIZE && T().IsLoc(At(e.ptr, v)) && T().Get(At(e.ptr, v)).ptr != NODE_NIL
      requires forall j: nat :: j < P_L2_SIZE && j != v ==> T().Get(At(e.ptr, j)).ptr == NODE_NIL
      requires levels < 64 ==> Dense(T(), At(e.ptr, v))
      modifies this`root, this`nodes
      ensures Refines(old(T()), T()) && OnlyBelow(old(T()), T(), lp)
      ensures levels < 64 ==> KeepsDense(old(T()), T()) && Dense(T(), lp)
    {
      hide Dense, Kept, Walk;
      RefinesReflexive(T());
      MergeRefines(T(), lp, v);
      if levels < 64 {
        assert T().LeveledEntry(T().Get(lp), T().Level(lp));
        MergeDense(T(), lp, v);
      }
      var child := nodes[e.ptr][v];
      if levels >= 64 && e.skip + child.skip >= 64 {
        return;
      }
      if lp.Root? {
        root := Merged(e, child);
      } else {
        nodes := PutEntry(nodes, lp.node, lp.slot, Merged(e, child));
      }
      assert T() == old(T()).Put(lp, Merged(e, child));
    }

    /** phys_page_compact: whatever a page reached, it still reaches. The levels of the skipped
        nodes add up, so every entry still points to a node of the level its skip says. */
    method CompactEntry(lp: Loc)
      requires T().Leveled() && T().IsLoc(lp) && T().Get(lp).skip != 0
      modifies this`root, this`nodes
      ensures Refines(old(T()), T()) && OnlyBelow(old(T()), T(), lp)
      ensures levels < 64 ==> KeepsDense(old(T()), T()) && Dense(T(), lp)
      decreases T().Level(lp)
    {
      hide Compacting, Dense, KeepsDense, Refines, OnlyBelow, Walk;
      ghost var t0 := T();
      var e := if lp.Root? then root else nodes[lp.node][lp.slot];
      NothingCompacted(t0, lp);
      if e.ptr == NODE_NIL {
        DenseLeaf(t0, lp);
        return;
      }
      var p := e.ptr;
      var validPtr: nat, valid: nat := P_L2_SIZE, 0;
      CompactingStart(t0, lp);
      for i := 0 to P_L2_SIZE
        invariant Compacting(t0, T(), lp, i, valid, validPtr)
      {
        CompactingFacts(t0, T(), lp, i, valid, validPtr);
        if nodes[p][i].ptr == NODE_NIL {
          CompactingUnused(t0, T(), lp, i, valid, validPtr);
          continue;
        }
        ghost var t1, valid1, validPtr1 := T(), valid, validPtr;
        validPtr, valid := i, valid + 1;
        if nodes[p][i].skip != 0 {
          CompactEntry(At(p, i));
        } else {
          NothingCompacted(t1, At(p, i));
          DenseLeaf(t1, At(p, i));
        }
        CompactingUsed(t0, t1, T(), lp, i, valid1, validPtr1);
      }
      ghost var t2 := T();
      CompactingEnd(t0, t2, lp, valid, validPtr);
      if valid != 1 {
        return;
      }
      Merge(lp, e, validPtr);
      CompactingMerged(t0, t2, T(), lp);
    }

    /** address_space_dispatch_compact. */
    method Compact()
      requires T().Leveled()
      modifies this`root, this`nodes
      ensures Refines(old(T()), T())
      ensures levels < 64 ==> Dense(T(), Root)
      ensures levels < 64 ==> forall path: seq<nat>, n: nat, v: nat :: Leads(T(), Root, path, n) && v < 512 && n < |nodes| && |nodes[n]| == 512 && nodes[n][v].ptr != 0x3FF_FFFF ==>
                exists j :: 0 <= j < 512 && j != v && nodes[n][j].ptr != 0x3FF_FFFF
    {
      if root.skip != 0 {
        CompactEntry(Root);
      } else {
        NothingCompacted(T(), Root);
        DenseLeaf(T(), Root);
      }
      if levels < 64 {
        hide Dense, Leads, Refines;
        forall path: seq<nat>, n: nat, v: nat | Leads(T(), Root, path, n) && v < 512 && n < |nodes| && |nodes[n]| == 512 && nodes[n][v].ptr != 0x3FF_FFFF
          ensures exists j :: 0 <= j < 512 && j != v && nodes[n][j].ptr != 0x3FF_FFFF
        {
          DenseNodes(T(), Root, path, n, v);
        }
      }
    }

    /** The loop of phys_page_find. */
    method Descend(index: nat) returns (ptr: nat)
      requires T().Leveled()
      ensures ptr == T().Page(index)
    {
      var lp, i: nat := root, levels;
      ghost var t := T();
      assert t.IsLoc(Root) && t.LeveledEntry(t.Get(Root), t.Level(Root));
      while lp.skip != 0
        invariant t.LeveledEntry(lp, i)
        invariant Walk(t.nodes, lp, i, index) == t.Page(index)
        decreases i
      {
        i := i - lp.skip;
        if lp.ptr == NODE_NIL {
          return SECTION_UNASSIGNED;
        }
        assert t.IsLoc(At(lp.ptr, SlotOf(index, i))) && t.LeveledEntry(t.Get(At(lp.ptr, SlotOf(index, i))), i);
        lp := nodes[lp.ptr][SlotOf(index, i)];
      }
      ptr := lp.ptr;
    }
  }
}
