/** Path compression of the page table: phys_page_compact. */
module PhysPageCompaction {
  import opened PhysPages

  /** `t'` has the nodes of `t`, and a page that reached a section from some entry still reaches
      it from there. Pages that reached none may now reach any: the range check of
      phys_page_find has to reject those. */
  ghost predicate Refines(t: Table, t': Table) {
    && t.Leveled() && t'.Leveled()
    && t.levels == t'.levels && t.lab == t'.lab
    && (forall l: Loc :: t.IsLoc(l) ==> Kept(t, t', l))
    && (forall s: set<nat> :: t.LeavesIn(s) ==> t'.LeavesIn(s))
    && forall l: Loc :: t.IsLoc(l) ==> (t'.Get(l).ptr == NODE_NIL <==> t.Get(l).ptr == NODE_NIL)
  }

  ghost predicate Kept(t: Table, t': Table, l: Loc)
    requires t.IsLoc(l) && t'.IsLoc(l)
  {
    forall x: nat :: t.From(l, x) != SECTION_UNASSIGNED ==> t'.From(l, x) == t.From(l, x)
  }

  /** Of the entries at the height of `lp` or above only `lp` may differ. */
  ghost predicate OnlyBelow(t: Table, t': Table, lp: Loc)
    requires t.Leveled() && t'.Leveled() && t.lab == t'.lab && t.IsLoc(lp)
  {
    forall l: Loc :: t.IsLoc(l) && t.Level(l) >= t.Level(lp) && l != lp ==> t'.Get(l) == t.Get(l)
  }

  /** The slot that page `x` goes through below the entry at `l`. */
  ghost function Next(t: Table, l: Loc, x: nat): (l': Loc)
    requires t.Leveled() && t.IsLoc(l) && t.Get(l).skip != 0 && t.Get(l).ptr != NODE_NIL
    ensures t.IsLoc(l') && t.Level(l') == t.Level(l) - t.Get(l).skip
    ensures t.From(l, x) == t.From(l', x)
  {
    assert t.LeveledEntry(t.Get(l), t.Level(l));
    At(t.Get(l).ptr, SlotOf(x, t.Level(l) - t.Get(l).skip))
  }

  /** A change of one entry that keeps the pages it had keeps the pages of every entry. */
  lemma {:induction false} OneLocKept(t: Table, t': Table, c: Loc, l: Loc, x: nat)
    requires t.Leveled() && t'.Leveled() && t.levels == t'.levels && t.lab == t'.lab
    requires t.IsLoc(c) && Kept(t, t', c)
    requires forall k: Loc :: t.IsLoc(k) && k != c ==> t'.Get(k) == t.Get(k)
    requires t.IsLoc(l) && t.From(l, x) != SECTION_UNASSIGNED
    ensures t'.From(l, x) == t.From(l, x)
    decreases t.Level(l)
  {
    hide Walk, SlotOf;
    if l == c {
    } else if t.Get(l).skip != 0 && t.Get(l).ptr != NODE_NIL {
      var k := Next(t, l, x);
      assert k == Next(t', l, x);
      OneLocKept(t, t', c, k, x);
    } else {
      WalkEnds(t.nodes, t.Get(l), t.Level(l), x);
      WalkEnds(t'.nodes, t.Get(l), t.Level(l), x);
    }
  }

  lemma RefinesReflexive(t: Table)
    requires t.Leveled()
    ensures Refines(t, t)
  {
  }

  lemma RefinesTransitive(t0: Table, t1: Table, t2: Table)
    requires Refines(t0, t1) && Refines(t1, t2)
    ensures Refines(t0, t2)
  {
    forall l: Loc | t0.IsLoc(l)
      ensures Kept(t0, t2, l)
    {
      assert Kept(t0, t1, l) && Kept(t1, t2, l);
    }
  }

  /** After the first `i` slots of node `p`: `valid` counts the used ones up to two, and the single
      used one is `v`. */
  ghost predicate Scanned(t: Table, p: nat, i: nat, valid: nat, v: nat)
    requires t.Leveled() && p < |t.nodes| && i <= P_L2_SIZE
  {
    && (valid == 0 ==> forall j: nat :: j < i ==> t.Get(At(p, j)).ptr == NODE_NIL)
    && (valid == 1 ==> v < i && t.Get(At(p, v)).ptr != NODE_NIL &&
                       forall j: nat :: j < i && j != v ==> t.Get(At(p, j)).ptr == NODE_NIL)
    && (valid >= 2 ==> exists j: nat, k: nat :: j < k < i && t.Get(At(p, j)).ptr != NODE_NIL && t.Get(At(p, k)).ptr != NODE_NIL)
  }

  /** Compacting a child keeps what the scan of its node has found. */
  lemma CompactChild(t0: Table, t1: Table, t2: Table, lp: Loc, i: nat, valid: nat, v: nat)
    requires Refines(t0, t1) && t0.IsLoc(lp) && OnlyBelow(t0, t1, lp)
    requires t1.Get(lp).skip != 0 && t1.Get(lp).ptr != NODE_NIL && i < P_L2_SIZE
    requires Refines(t1, t2) && t1.IsLoc(At(t1.Get(lp).ptr, i)) && OnlyBelow(t1, t2, At(t1.Get(lp).ptr, i))
    requires Scanned(t1, t1.Get(lp).ptr, i, valid, v) && t1.Get(At(t1.Get(lp).ptr, i)).ptr != NODE_NIL
    ensures Refines(t0, t2) && OnlyBelow(t0, t2, lp) && t2.Get(lp) == t1.Get(lp)
    ensures Scanned(t2, t1.Get(lp).ptr, i + 1, valid + 1, i)
  {
    hide Kept, Walk;
    RefinesTransitive(t0, t1, t2);
    assert t1.LeveledEntry(t1.Get(lp), t1.Level(lp));
    forall l: Loc | t0.IsLoc(l) && t0.Level(l) >= t0.Level(lp) && l != lp
      ensures t2.Get(l) == t0.Get(l)
    {
      assert t1.Get(l) == t0.Get(l);
    }
  }

  // ---------------------------------------------------------------- what compaction achieves

  /** Node `n` has one used slot. */
  ghost predicate Single(t: Table, n: nat)
    requires t.Leveled() && n < |t.nodes|
  {
    exists v: nat :: v < P_L2_SIZE && OnlyUsed(t, n, v)
  }

  ghost predicate OnlyUsed(t: Table, n: nat, v: nat)
    requires t.Leveled() && n < |t.nodes| && v < P_L2_SIZE
  {
    t.Get(At(n, v)).ptr != NODE_NIL && forall j: nat :: j < P_L2_SIZE && j != v ==> t.Get(At(n, j)).ptr == NODE_NIL
  }

  /** No entry below `l`, nor the one at `l`, leads to a node that could be skipped. */
  ghost predicate Dense(t: Table, l: Loc)
    requires t.Leveled() && t.IsLoc(l)
    decreases t.Level(l)
  {
    var e := t.Get(l);
    assert t.LeveledEntry(e, t.Level(l));
    e.skip != 0 && e.ptr != NODE_NIL ==>
      !Single(t, e.ptr) && forall j: nat :: j < P_L2_SIZE ==> Dense(t, At(e.ptr, j))
  }

  /** In full: every node that the entry leads to has no used slot, or two different ones. */
  lemma {:induction false} DenseNodes(t: Table, l: Loc, path: seq<nat>, n: nat, v: nat)
    requires t.Leveled() && t.IsLoc(l) && Dense(t, l) && Leads(t, l, path, n) && v < 512
    ensures n < |t.nodes| && |t.nodes[n]| == 512
    ensures t.nodes[n][v].ptr != 0x3FF_FFFF ==> exists j :: 0 <= j < 512 && j != v && t.nodes[n][j].ptr != 0x3FF_FFFF
    decreases |path|
  {
    var e := t.Get(l);
    assert t.LeveledEntry(e, t.Level(l));
    if path != [] {
      DenseNodes(t, At(e.ptr, path[0]), path[1..], n, v);
    } else if t.nodes[n][v].ptr != NODE_NIL {
      assert !OnlyUsed(t, n, v);
      var j: nat :| j < P_L2_SIZE && j != v && t.Get(At(n, j)).ptr != NODE_NIL;
      assert t.nodes[n][j].ptr != 0x3FF_FFFF;
    }
  }

  ghost predicate KeepsDense(t: Table, t': Table)
    requires t.Leveled() && t'.Leveled() && t.lab == t'.lab
  {
    forall l: Loc :: t.IsLoc(l) && Dense(t, l) ==> Dense(t', l)
  }

  /** Skipping a node does not touch what is already dense. */
  lemma {:induction false} DenseElsewhere(t: Table, t': Table, c: Loc, l: Loc)
    requires t.Leveled() && t'.Leveled() && t.levels == t'.levels && t.lab == t'.lab && t.IsLoc(c)
    requires forall k: Loc :: t.IsLoc(k) && k != c ==> t'.Get(k) == t.Get(k)
    requires t.Get(c).skip != 0 && t.Get(c).ptr != NODE_NIL && t'.Get(c).ptr != NODE_NIL
    requires t.LeveledEntry(t.Get(c), t.Level(c)) && Single(t, t.Get(c).ptr)
    requires t.IsLoc(l) && Dense(t, l)
    ensures Dense(t', l)
    decreases t.Level(l)
  {
    hide Walk;
    var e := t.Get(l);
    assert t.LeveledEntry(e, t.Level(l)) && l != c;
    if e.skip != 0 && e.ptr != NODE_NIL {
      SameSingle(t, t', e.ptr);
      forall j: nat | j < P_L2_SIZE
        ensures Dense(t', At(e.ptr, j))
      {
        DenseElsewhere(t, t', c, At(e.ptr, j));
      }
    }
  }

  lemma SameSingle(t: Table, t': Table, n: nat)
    requires t.Leveled() && t'.Leveled() && t.lab == t'.lab && n < |t.nodes|
    requires forall j: nat :: j < P_L2_SIZE ==> (t'.Get(At(n, j)).ptr == NODE_NIL <==> t.Get(At(n, j)).ptr == NODE_NIL)
    ensures Single(t', n) <==> Single(t, n)
  {
    forall v: nat | v < P_L2_SIZE
      ensures OnlyUsed(t', n, v) <==> OnlyUsed(t, n, v)
    {
    }
  }

  /** A node that was scanned and found to have one used slot, or not. */
  lemma ScannedSingle(t: Table, p: nat, valid: nat, v: nat)
    requires t.Leveled() && p < |t.nodes| && Scanned(t, p, P_L2_SIZE, valid, v)
    ensures valid == 1 <==> Single(t, p)
  {
    if valid == 1 {
      assert OnlyUsed(t, p, v);
    }
  }

  /** The new value of an entry whose node has the single child `child`. */
  function Merged(e: Entry, child: Entry): Entry {
    if child.skip == 0 then Entry(0, child.ptr) else Entry(e.skip + child.skip, child.ptr)
  }

  lemma MergeDense(t: Table, lp: Loc, v: nat)
    requires t.Leveled() && t.IsLoc(lp) && t.Get(lp).skip != 0 && t.Get(lp).ptr != NODE_NIL
    requires t.LeveledEntry(t.Get(lp), t.Level(lp)) && v < P_L2_SIZE && OnlyUsed(t, t.Get(lp).ptr, v)
    requires Dense(t, At(t.Get(lp).ptr, v))
    ensures var t' := t.Put(lp, Merged(t.Get(lp), t.Get(At(t.Get(lp).ptr, v)))); t'.Leveled() && KeepsDense(t, t') && Dense(t', lp)
  {
    MergeLeveled(t, lp, v);
    hide Walk;
    var c := At(t.Get(lp).ptr, v);
    var e, t' := t.Get(c), t.Put(lp, Merged(t.Get(lp), t.Get(c)));
    forall l: Loc | t.IsLoc(l) && Dense(t, l)
      ensures Dense(t', l)
    {
      DenseElsewhere(t, t', lp, l);
    }
    assert t.LeveledEntry(e, t.Level(c)) && t'.LeveledEntry(t'.Get(lp), t'.Level(lp));
    if e.skip != 0 {
      SameSingle(t, t', e.ptr);
      assert forall j: nat :: j < P_L2_SIZE ==> Dense(t, At(e.ptr, j));
    }
  }

  lemma KeepsDenseTransitive(t0: Table, t1: Table, t2: Table)
    requires t0.Leveled() && t1.Leveled() && t2.Leveled() && t0.lab == t1.lab == t2.lab
    requires KeepsDense(t0, t1) && KeepsDense(t1, t2)
    ensures KeepsDense(t0, t2)
  {
    hide Dense;
    forall l: Loc | t0.IsLoc(l) && Dense(t0, l)
      ensures Dense(t2, l)
    {
      assert Dense(t1, l);
    }
  }

  /** The first `i` slots of node `p` are dense. */
  ghost predicate DenseUpTo(t: Table, p: nat, i: nat)
    requires t.Leveled() && p < |t.nodes| && i <= P_L2_SIZE
  {
    forall j: nat :: j < i ==> Dense(t, At(p, j))
  }

  lemma DenseMore(t1: Table, t2: Table, p: nat, i: nat)
    requires t1.Leveled() && t2.Leveled() && t1.lab == t2.lab && p < |t1.nodes| && i < P_L2_SIZE
    requires DenseUpTo(t1, p, i) && KeepsDense(t1, t2) && Dense(t2, At(p, i))
    ensures DenseUpTo(t2, p, i + 1)
  {
    hide Dense;
    forall j: nat | j < i + 1
      ensures Dense(t2, At(p, j))
    {
      if j < i {
        assert Dense(t1, At(p, j));
      }
    }
  }

  lemma DenseLeaf(t: Table, l: Loc)
    requires t.Leveled() && t.IsLoc(l) && (t.Get(l).skip == 0 || t.Get(l).ptr == NODE_NIL)
    ensures Dense(t, l)
  {
  }

  lemma DenseHere(t: Table, lp: Loc)
    requires t.Leveled() && t.IsLoc(lp) && t.Get(lp).skip != 0 && t.Get(lp).ptr != NODE_NIL
    requires t.LeveledEntry(t.Get(lp), t.Level(lp)) && !Single(t, t.Get(lp).ptr) && DenseUpTo(t, t.Get(lp).ptr, P_L2_SIZE)
    ensures Dense(t, lp)
  {
  }

  /** Skipping a node with a single child loses no page. */
  lemma MergeRefines(t: Table, lp: Loc, v: nat)
    requires t.Leveled() && t.IsLoc(lp) && t.Get(lp).skip != 0 && t.Get(lp).ptr != NODE_NIL
    requires v < P_L2_SIZE && t.IsLoc(At(t.Get(lp).ptr, v)) && t.Get(At(t.Get(lp).ptr, v)).ptr != NODE_NIL
    requires forall j: nat :: j < P_L2_SIZE && j != v ==> t.Get(At(t.Get(lp).ptr, j)).ptr == NODE_NIL
    ensures Refines(t, t.Put(lp, Merged(t.Get(lp), t.Get(At(t.Get(lp).ptr, v)))))
    ensures OnlyBelow(t, t.Put(lp, Merged(t.Get(lp), t.Get(At(t.Get(lp).ptr, v)))), lp)
  {
    var e, child := t.Get(lp), t.Get(At(t.Get(lp).ptr, v));
    var t' := t.Put(lp, Merged(e, child));
    MergeLeveled(t, lp, v);
    forall x: nat | t.From(lp, x) != SECTION_UNASSIGNED
      ensures t'.From(lp, x) == t.From(lp, x)
    {
      MergeWalk(t, lp, v, x);
    }
    forall l: Loc | t.IsLoc(l)
      ensures Kept(t, t', l)
    {
      forall x: nat | t.From(l, x) != SECTION_UNASSIGNED
        ensures t'.From(l, x) == t.From(l, x)
      {
        OneLocKept(t, t', lp, l, x);
      }
    }
  }

  lemma MergeLeveled(t: Table, lp: Loc, v: nat)
    requires t.Leveled() && t.IsLoc(lp) && t.Get(lp).skip != 0 && t.Get(lp).ptr != NODE_NIL
    requires v < P_L2_SIZE && t.IsLoc(At(t.Get(lp).ptr, v)) && t.Get(At(t.Get(lp).ptr, v)).ptr != NODE_NIL
    ensures var t' := t.Put(lp, Merged(t.Get(lp), t.Get(At(t.Get(lp).ptr, v))));
            t'.Leveled() && forall l: Loc :: t.IsLoc(l) && l != lp ==> t'.Get(l) == t.Get(l)
  {
    hide Walk;
    var c := At(t.Get(lp).ptr, v);
    var t' := t.Put(lp, Merged(t.Get(lp), t.Get(c)));
    assert t.LeveledEntry(t.Get(lp), t.Level(lp)) && t.LeveledEntry(t.Get(c), t.Level(c));
    forall l: Loc | t'.IsLoc(l)
      ensures t'.LeveledEntry(t'.Get(l), t'.Level(l))
    {
      assert t.IsLoc(l);
      assert t.LeveledEntry(t.Get(l), t.Level(l));
    }
  }

  lemma MergeWalk(t: Table, lp: Loc, v: nat, x: nat)
    requires t.Leveled() && t.IsLoc(lp) && t.Get(lp).skip != 0 && t.Get(lp).ptr != NODE_NIL
    requires v < P_L2_SIZE && t.IsLoc(At(t.Get(lp).ptr, v)) && t.Get(At(t.Get(lp).ptr, v)).ptr != NODE_NIL
    requires forall j: nat :: j < P_L2_SIZE && j != v ==> t.Get(At(t.Get(lp).ptr, j)).ptr == NODE_NIL
    requires t.From(lp, x) != SECTION_UNASSIGNED
    ensures t.Put(lp, Merged(t.Get(lp), t.Get(At(t.Get(lp).ptr, v)))).From(lp, x) == t.From(lp, x)
  {
    var c := Next(t, lp, x);
    assert t.LeveledEntry(t.Get(lp), t.Level(lp)) && t.LeveledEntry(t.Get(c), t.Level(c));
    assert c.slot == v;
    MergeLeveled(t, lp, v);
    var t' := t.Put(lp, Merged(t.Get(lp), t.Get(c)));
    if t.Get(c).skip != 0 {
      var d := Next(t, c, x);
      LowerSame(t, t', lp, d, x);
      assert t'.From(lp, x) == t'.From(d, x);
    }
  }

  /** Walks only go down, so a change at `c` is not seen from below it. */
  lemma {:induction false} LowerSame(t: Table, t': Table, c: Loc, l: Loc, x: nat)
    requires t.Leveled() && t'.Leveled() && t.levels == t'.levels && t.lab == t'.lab
    requires forall k: Loc :: t.IsLoc(k) && k != c ==> t'.Get(k) == t.Get(k)
    requires t.IsLoc(c) && t.IsLoc(l) && t.Level(l) < t.Level(c)
    ensures t'.From(l, x) == t.From(l, x)
    decreases t.Level(l)
  {
    hide Walk, SlotOf;
    if t.Get(l).skip != 0 && t.Get(l).ptr != NODE_NIL {
      var k := Next(t, l, x);
      assert k == Next(t', l, x);
      LowerSame(t, t', c, k, x);
    } else {
      WalkEnds(t.nodes, t.Get(l), t.Level(l), x);
      WalkEnds(t'.nodes, t.Get(l), t.Level(l), x);
    }
  }

  // ---------------------------------------------------------------- the scan of one node

  lemma NothingCompacted(t: Table, lp: Loc)
    requires t.Leveled() && t.IsLoc(lp)
    ensures Refines(t, t) && OnlyBelow(t, t, lp) && KeepsDense(t, t)
  {
  }

  /** The loop of phys_page_compact on the node below `lp` after its first `i` slots. */
  ghost predicate Compacting(t0: Table, t: Table, lp: Loc, i: nat, valid: nat, v: nat) {
    && Refines(t0, t) && t0.IsLoc(lp) && OnlyBelow(t0, t, lp)
    && t.Get(lp) == t0.Get(lp) && t0.Get(lp).skip != 0 && t0.Get(lp).ptr != NODE_NIL
    && t0.LeveledEntry(t0.Get(lp), t0.Level(lp)) && i <= P_L2_SIZE
    && Scanned(t, t0.Get(lp).ptr, i, valid, v)
    && (t0.levels < 64 ==> KeepsDense(t0, t) && DenseUpTo(t, t0.Get(lp).ptr, i))
  }

  lemma CompactingStart(t: Table, lp: Loc)
    requires t.Leveled() && t.IsLoc(lp) && t.Get(lp).skip != 0 && t.Get(lp).ptr != NODE_NIL
    ensures Compacting(t, t, lp, 0, 0, P_L2_SIZE)
  {
    hide Dense, Kept, Walk;
    assert t.LeveledEntry(t.Get(lp), t.Level(lp));
    NothingCompacted(t, lp);
  }

  lemma CompactingFacts(t0: Table, t: Table, lp: Loc, i: nat, valid: nat, v: nat)
    requires Compacting(t0, t, lp, i, valid, v) && i < P_L2_SIZE
    ensures t.Leveled() && t0.Leveled() && t.lab == t0.lab && t.levels == t0.levels && t0.IsLoc(lp) && t.IsLoc(lp)
    ensures t.IsLoc(At(t0.Get(lp).ptr, i)) && t.Level(At(t0.Get(lp).ptr, i)) < t0.Level(lp)
  {
    hide Dense, Kept, Walk, KeepsDense;
  }

  lemma CompactingUnused(t0: Table, t: Table, lp: Loc, i: nat, valid: nat, v: nat)
    requires Compacting(t0, t, lp, i, valid, v) && i < P_L2_SIZE && t.IsLoc(At(t0.Get(lp).ptr, i)) && t.Get(At(t0.Get(lp).ptr, i)).ptr == NODE_NIL
    ensures Compacting(t0, t, lp, i + 1, valid, v)
  {
    hide Dense, Kept, Walk, KeepsDense, OnlyBelow;
    DenseLeaf(t, At(t0.Get(lp).ptr, i));
  }

  lemma CompactingUsed(t0: Table, t1: Table, t2: Table, lp: Loc, i: nat, valid: nat, v: nat)
    requires Compacting(t0, t1, lp, i, valid, v) && i < P_L2_SIZE && t1.IsLoc(At(t0.Get(lp).ptr, i)) && t1.Get(At(t0.Get(lp).ptr, i)).ptr != NODE_NIL
    requires Refines(t1, t2) && OnlyBelow(t1, t2, At(t0.Get(lp).ptr, i))
    requires t1.levels < 64 ==> KeepsDense(t1, t2) && Dense(t2, At(t0.Get(lp).ptr, i))
    ensures Compacting(t0, t2, lp, i + 1, valid + 1, i)
  {
    CompactChild(t0, t1, t2, lp, i, valid, v);
    hide Dense, Kept, Walk, KeepsDense, OnlyBelow, Scanned, DenseUpTo;
    if t0.levels < 64 {
      KeepsDenseTransitive(t0, t1, t2);
      DenseMore(t1, t2, t0.Get(lp).ptr, i);
    }
  }

  lemma CompactingEnd(t0: Table, t: Table, lp: Loc, valid: nat, v: nat)
    requires Compacting(t0, t, lp, P_L2_SIZE, valid, v)
    ensures Refines(t0, t) && t.Leveled() && t0.IsLoc(lp) && t.IsLoc(lp) && OnlyBelow(t0, t, lp) && t.Get(lp) == t0.Get(lp) && t0.Get(lp).ptr < |t.nodes|
    ensures t0.levels < 64 ==> KeepsDense(t0, t)
    ensures valid != 1 && t0.levels < 64 ==> Dense(t, lp)
    ensures valid == 1 ==> v < P_L2_SIZE && OnlyUsed(t, t0.Get(lp).ptr, v)
    ensures valid == 1 && t0.levels < 64 ==> Dense(t, At(t0.Get(lp).ptr, v))
  {
    hide Dense, Kept, Walk, KeepsDense, Single;
    ScannedSingle(t, t0.Get(lp).ptr, valid, v);
    if t0.levels < 64 && valid != 1 {
      DenseHere(t, lp);
    }
  }

  lemma CompactingMerged(t0: Table, t2: Table, t3: Table, lp: Loc)
    requires Refines(t0, t2) && Refines(t2, t3) && t0.IsLoc(lp) && OnlyBelow(t0, t2, lp) && OnlyBelow(t2, t3, lp)
    requires t0.levels < 64 ==> KeepsDense(t0, t2) && KeepsDense(t2, t3)
    ensures Refines(t0, t3) && OnlyBelow(t0, t3, lp) && (t0.levels < 64 ==> KeepsDense(t0, t3))
  {
    hide Dense, Kept, Walk;
    RefinesTransitive(t0, t2, t3);
    if t0.levels < 64 { KeepsDenseTransitive(t0, t2, t3); }
  }
}
