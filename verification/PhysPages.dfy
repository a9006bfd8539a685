/** The radix tree that maps a guest page number to a section number: its layout,
    what a lookup means, and how a lookup reacts to a change in one slot. */
module PhysPages {
  import opened Arithmetic

  const P_L2_SIZE: nat := 512
  /** The largest value of the 26-bit `ptr` field: "no node here". */
  const NODE_NIL: nat := 0x3FF_FFFF
  const SECTION_UNASSIGNED: nat := 0

  /** `skip` is how many levels lie between the entry and the node it points to,
      0 for a leaf; `ptr` is a node number, or a section number for a leaf. */
  datatype Entry = Entry(skip: nat, ptr: nat)

  type Node = seq<Entry>

  /** Where an entry is stored: the root variable, or a slot of a node. */
  datatype Loc = Root | At(node: nat, slot: nat)

  /** Level and first page of every node. Labels exist for the proof only. */
  datatype Labels = Labels(lev: seq<nat>, base: seq<nat>)

  /** Number of pages below one entry of a level-k node. */
  function Span(k: nat): (s: nat)
    ensures s >= 1
  {
    if k == 0 then 1 else P_L2_SIZE * Span(k - 1)
  }

  /** The 9 bits of page number `x` that select a slot at level `k`. */
  function SlotOf(x: nat, k: nat): (j: nat)
    ensures j < P_L2_SIZE
  {
    (x / Span(k)) % P_L2_SIZE
  }

  /** First page of slot `j` in a level-k node that starts at page `b`. */
  function SlotBase(b: nat, j: nat, k: nat): nat {
    if j == 0 then b else SlotBase(b, j - 1, k) + Span(k)
  }

  predicate InSlot(x: nat, b: nat, j: nat, k: nat) {
    SlotBase(b, j, k) <= x < SlotBase(b, j, k) + Span(k)
  }

  /** The loop of phys_page_find without its final range check: the section number
      reached for page `x` from entry `e`, when `i` levels are left. */
  function Walk(nodes: seq<Node>, e: Entry, i: nat, x: nat): nat
    decreases i
  {
    if e.skip == 0 || e.skip > i then e.ptr
    else if e.ptr == NODE_NIL then SECTION_UNASSIGNED
    else if e.ptr < |nodes| && |nodes[e.ptr]| == P_L2_SIZE then
      Walk(nodes, nodes[e.ptr][SlotOf(x, i - e.skip)], i - e.skip, x)
    else SECTION_UNASSIGNED
  }

  // ---------------------------------------------------------------- arithmetic

  lemma SlotBaseIs(b: nat, j: nat, k: nat)
    ensures SlotBase(b, j, k) == b + j * Span(k)
  {
    if j > 0 {
      SlotBaseIs(b, j - 1, k);
      assert j * Span(k) == (j - 1) * Span(k) + Span(k);
    }
  }

  /** Slot `j` of a node starts at a multiple of the slot's span. */
  lemma SlotProduct(b: nat, j: nat, k: nat)
    requires b % Span(k + 1) == 0
    ensures b / Span(k + 1) >= 0
    ensures Span(k) * (P_L2_SIZE * (b / Span(k + 1)) + j) == b + j * Span(k)
  {
    var s := Span(k);
    DivMod(b, Span(k + 1));
    var q := b / Span(k + 1);
    assert P_L2_SIZE * s == Span(k + 1);
    assert b == (P_L2_SIZE * s) * q;
    assert s * (P_L2_SIZE * q + j) == P_L2_SIZE * (s * q) + s * j;
  }

  /** A page inside an aligned node is in the slot that SlotOf computes, and in no other. */
  lemma SlotOfIs(x: nat, b: nat, j: nat, k: nat)
    requires b % Span(k + 1) == 0
    requires j < P_L2_SIZE
    requires InSlot(x, b, j, k)
    ensures SlotOf(x, k) == j
  {
    hide Span, SlotBase;
    SlotBaseIs(b, j, k);
    SlotProduct(b, j, k);
    SlotBits(x, Span(k), b / Span(k + 1), j);
  }

  lemma SlotBits(x: nat, s: nat, q: nat, j: nat)
    requires s > 0 && j < P_L2_SIZE && s * (P_L2_SIZE * q + j) <= x < s * (P_L2_SIZE * q + j) + s
    ensures (x / s) % P_L2_SIZE == j
  {
    QuotientUnique(x, s, P_L2_SIZE * q + j);
  }

  lemma SlotContains(x: nat, b: nat, k: nat)
    requires b % Span(k + 1) == 0
    requires b <= x < b + Span(k + 1)
    ensures InSlot(x, b, SlotOf(x, k), k)
  {
    var s := Span(k);
    var j := (x - b) / s;
    DivMod(x - b, s);
    Product(s, P_L2_SIZE - 1, j);
    Product(s, j, j);
    SlotBaseIs(b, j, k);
    SlotOfIs(x, b, j, k);
  }

  lemma SlotMultiple(b: nat, j: nat, k: nat)
    requires b % Span(k + 1) == 0
    ensures SlotBase(b, j, k) % Span(k) == 0
  {
    var m := P_L2_SIZE * (b / Span(k + 1)) + j;
    SlotProduct(b, j, k);
    SlotBaseIs(b, j, k);
    QuotientUnique(Span(k) * m, Span(k), m);
    DivMod(Span(k) * m, Span(k));
  }

  /** Slots of an aligned node are themselves aligned and stay inside the node. */
  lemma SlotAligned(b: nat, j: nat, k: nat)
    requires b % Span(k + 1) == 0
    requires j < P_L2_SIZE
    ensures SlotBase(b, j, k) % Span(k) == 0
    ensures b <= SlotBase(b, j, k)
    ensures SlotBase(b, j, k) + Span(k) == SlotBase(b, j + 1, k) <= b + Span(k + 1)
  {
    SlotMultiple(b, j, k);
    var s := Span(k);
    SlotBaseIs(b, j, k);
    SlotBaseIs(b, P_L2_SIZE, k);
    Product(s, j, P_L2_SIZE);
  }

  /** An aligned page number inside a slot is the slot's first page. */
  lemma AlignedInSlot(x: nat, b: nat, j: nat, k: nat)
    requires b % Span(k + 1) == 0
    requires j < P_L2_SIZE
    requires InSlot(x, b, j, k)
    ensures x % Span(k) == 0 <==> x == SlotBase(b, j, k)
  {
    SlotAligned(b, j, k);
    var s := Span(k);
    var c := SlotBase(b, j, k);
    DivMod(c, s);
    DivMod(x, s);
    QuotientUnique(x, s, c / s);
  }

  // ---------------------------------------------------------------- tables

  /** The page table as a value: root entry, nodes and labels. `levels` is P_L2_LEVELS. */
  datatype Table = Table(levels: nat, root: Entry, nodes: seq<Node>, lab: Labels) {

    ghost predicate IsLoc(l: Loc) {
      l.At? ==> l.node < |nodes| && l.slot < P_L2_SIZE && |nodes[l.node]| == P_L2_SIZE && |lab.lev| == |lab.base| == |nodes|
    }

    ghost function Get(l: Loc): Entry
      requires IsLoc(l)
    {
      if l.Root? then root else nodes[l.node][l.slot]
    }

    /** Levels left below the entry at `l`, and its first page. */
    ghost function Level(l: Loc): nat
      requires IsLoc(l)
    {
      if l.Root? then levels else lab.lev[l.node]
    }

    ghost function Base(l: Loc): nat
      requires IsLoc(l)
    {
      if l.Root? then 0 else SlotBase(lab.base[l.node], l.slot, lab.lev[l.node])
    }

    ghost predicate InLoc(l: Loc, x: nat)
      requires IsLoc(l)
    {
      Base(l) <= x < Base(l) + Span(Level(l))
    }

    /** The section that page `x` reaches from the entry at `l`. */
    ghost function From(l: Loc, x: nat): nat
      requires IsLoc(l)
    {
      Walk(nodes, Get(l), Level(l), x)
    }

    ghost function Page(x: nat): nat {
      Walk(nodes, root, levels, x)
    }

    /** An entry with `i` levels left either is a leaf or descends exactly to a node of
        level `i - skip`. */
    ghost predicate LeveledEntry(e: Entry, i: nat) {
      if e.skip == 0 then
        e.ptr < NODE_NIL
      else
        e.skip <= i && (e.ptr == NODE_NIL || (e.ptr < |nodes| && e.ptr < |lab.lev| && lab.lev[e.ptr] == i - e.skip))
    }

    /** Every node has 512 entries and every entry points to a node of the level its skip says. */
    ghost predicate Leveled() {
      && |lab.lev| == |lab.base| == |nodes|
      && (forall n :: 0 <= n < |nodes| ==> |nodes[n]| == P_L2_SIZE)
      && forall l: Loc :: IsLoc(l) ==> LeveledEntry(Get(l), Level(l))
    }

    /** Before compaction: an entry whose pages start at `b` goes down one level at a time to
        the node that starts at `b`, and above level 0 only real sections are leaves. */
    ghost predicate PlacedEntry(e: Entry, i: nat, b: nat) {
      if e.skip == 0 then
        i > 0 ==> e.ptr != SECTION_UNASSIGNED
      else
        e.skip == 1 && (e.ptr == NODE_NIL || (e.ptr < |lab.base| && lab.base[e.ptr] == b))
    }

    ghost predicate Placed() {
      && Leveled()
      && levels >= 1
      && (forall n :: 0 <= n < |nodes| ==> lab.lev[n] < levels && lab.base[n] % Span(lab.lev[n] + 1) == 0)
      && forall l: Loc :: IsLoc(l) ==> PlacedEntry(Get(l), Level(l), Base(l))
    }

    /** All section numbers stored in leaves are in `s`. */
    ghost predicate LeavesIn(s: set<nat>) {
      forall l: Loc :: IsLoc(l) && Get(l).skip == 0 ==> Get(l).ptr in s
    }

    ghost predicate ExtendedBy(t: Table) {
      levels == t.levels && lab.lev <= t.lab.lev && lab.base <= t.lab.base && |nodes| <= |t.nodes|
    }

    ghost function Put(l: Loc, e: Entry): Table
      requires IsLoc(l)
    {
      if l.Root? then this.(root := e) else this.(nodes := PutEntry(nodes, l.node, l.slot, e))
    }
  }

  function PutEntry(nodes: seq<Node>, n: nat, j: nat, e: Entry): (nodes': seq<Node>)
    requires n < |nodes| && j < |nodes[n]|
    ensures |nodes'| == |nodes|
    ensures forall m :: 0 <= m < |nodes| ==> |nodes'[m]| == |nodes[m]|
    ensures forall m, k :: 0 <= m < |nodes| && 0 <= k < |nodes[m]| ==>
              nodes'[m][k] == if (m, k) == (n, j) then e else nodes[m][k]
  {
    nodes[n := nodes[n][j := e]]
  }

  lemma BaseAligned(t: Table, l: Loc)
    requires t.Placed() && t.IsLoc(l)
    ensures t.Base(l) % Span(t.Level(l)) == 0
  {
    if l.At? {
      SlotMultiple(t.lab.base[l.node], l.slot, t.lab.lev[l.node]);
    }
  }

  lemma {:induction false} PageIn(t: Table, s: set<nat>, l: Loc, x: nat)
    requires t.Leveled() && t.LeavesIn(s) && SECTION_UNASSIGNED in s && t.IsLoc(l)
    ensures t.From(l, x) in s
    decreases t.Level(l)
  {
    var e := t.Get(l);
    assert t.LeveledEntry(e, t.Level(l));
    if e.skip != 0 && e.ptr != NODE_NIL {
      PageIn(t, s, At(e.ptr, SlotOf(x, t.Level(l) - e.skip)), x);
    }
  }

  /** The slot below entry `l` that page `x` goes through. */
  ghost function Below(t: Table, l: Loc, x: nat): (l': Loc)
    requires t.Placed() && t.IsLoc(l) && t.Get(l).skip != 0 && t.Get(l).ptr != NODE_NIL
    ensures t.IsLoc(l') && t.Level(l') == t.Level(l) - 1
  {
    assert t.LeveledEntry(t.Get(l), t.Level(l));
    assert t.PlacedEntry(t.Get(l), t.Level(l), t.Base(l));
    At(t.Get(l).ptr, SlotOf(x, t.Level(l) - 1))
  }

  lemma BelowFollows(t: Table, l: Loc, x: nat)
    requires t.Placed() && t.IsLoc(l) && t.Get(l).skip != 0 && t.Get(l).ptr != NODE_NIL
    requires t.InLoc(l, x)
    ensures t.InLoc(Below(t, l, x), x)
    ensures t.From(l, x) == t.From(Below(t, l, x), x)
  {
    assert t.LeveledEntry(t.Get(l), t.Level(l));
    assert t.PlacedEntry(t.Get(l), t.Level(l), t.Base(l));
    BaseAligned(t, l);
    SlotContains(x, t.Base(l), t.Level(l) - 1);
  }

  lemma WalkEnds(nodes: seq<Node>, e: Entry, i: nat, x: nat)
    requires e.skip == 0 || e.ptr == NODE_NIL
    ensures Walk(nodes, e, i, x) == if e.skip == 0 || e.skip > i then e.ptr else SECTION_UNASSIGNED
  {
  }

  /** Nodes may be added and the entry at `c` may change. If page `x` reaches the same section
      from `c` as before, it does so from every entry whose pages include `x`. */
  lemma {:induction false} OneLoc(t: Table, t': Table, c: Loc, x: nat, l: Loc)
    requires t.Placed() && t'.Placed() && t.ExtendedBy(t')
    requires t.IsLoc(c)
    requires forall k: Loc :: t.IsLoc(k) && k != c ==> t'.Get(k) == t.Get(k)
    requires t.InLoc(c, x) ==> t'.From(c, x) == t.From(c, x)
    requires t.IsLoc(l) && t.InLoc(l, x)
    ensures t'.From(l, x) == t.From(l, x)
    decreases t.Level(l)
  {
    hide Walk, Span, SlotOf, SlotBase;
    if l == c {
    } else if t.Get(l).skip != 0 && t.Get(l).ptr != NODE_NIL {
      var k := Below(t, l, x);
      BelowFollows(t, l, x);
      BelowFollows(t', l, x);
      OneLoc(t, t', c, x, k);
      assert t'.From(k, x) == t.From(k, x);
    } else {
      WalkEnds(t.nodes, t.Get(l), t.Level(l), x);
      WalkEnds(t'.nodes, t.Get(l), t.Level(l), x);
    }
  }

  /** Outside pages [lo, hi) every entry leads where it led before. */
  ghost predicate Framed(t: Table, t': Table, lo: nat, hi: nat)
    requires t.Leveled() && t'.Leveled()
  {
    && t.ExtendedBy(t')
    && forall l: Loc, x: nat :: t.IsLoc(l) && t.InLoc(l, x) && !(lo <= x < hi) ==> t'.From(l, x) == t.From(l, x)
  }

  /** Changing one entry whose pages outside [lo, hi) keep their meaning is a framed change. */
  lemma OneLocFramed(t: Table, t': Table, c: Loc, lo: nat, hi: nat)
    requires t.Placed() && t'.Placed() && t.ExtendedBy(t')
    requires t.IsLoc(c)
    requires forall k: Loc :: t.IsLoc(k) && k != c ==> t'.Get(k) == t.Get(k)
    requires forall x: nat :: t.InLoc(c, x) && !(lo <= x < hi) ==> t'.From(c, x) == t.From(c, x)
    ensures Framed(t, t', lo, hi)
  {
    forall l: Loc, x: nat | t.IsLoc(l) && t.InLoc(l, x) && !(lo <= x < hi)
      ensures t'.From(l, x) == t.From(l, x)
    {
      OneLoc(t, t', c, x, l);
    }
  }

  lemma FramedTransitive(t0: Table, t1: Table, t2: Table, lo: nat, mid: nat, hi: nat)
    requires t0.Leveled() && t1.Leveled() && t2.Leveled()
    requires lo <= mid <= hi
    requires Framed(t0, t1, lo, mid) && Framed(t1, t2, mid, hi)
    ensures Framed(t0, t2, lo, hi)
  {
    forall l: Loc, x: nat | t0.IsLoc(l) && t0.InLoc(l, x) && !(lo <= x < hi)
      ensures t2.From(l, x) == t0.From(l, x)
    {
      assert t1.From(l, x) == t0.From(l, x);
    }
  }

  /** `t'` is `t` with pages [index, index + nb) set to `leaf`. */
  ghost predicate PagesSet(t: Table, t': Table, index: nat, nb: nat, leaf: nat) {
    && t.Placed() && t'.Placed() && t.levels == t'.levels
    && (forall x: nat :: x < Span(t.levels) ==> t'.Page(x) == if index <= x < index + nb then leaf else t.Page(x))
    && (forall s: set<nat> :: leaf in s && SECTION_UNASSIGNED in s && t.LeavesIn(s) ==> t'.LeavesIn(s))
  }

  // ---------------------------------------------------------------- single updates

  /** A node as phys_map_node_alloc leaves it. */
  function EmptyNode(leaf: bool): (node: Node)
    ensures |node| == P_L2_SIZE
  {
    seq(P_L2_SIZE, _ => if leaf then Entry(0, SECTION_UNASSIGNED) else Entry(1, NODE_NIL))
  }

  ghost function AddNode(t: Table, level: nat, b: nat): Table {
    t.(nodes := t.nodes + [EmptyNode(level == 0)], lab := Labels(t.lab.lev + [level], t.lab.base + [b]))
  }

  lemma PutPlaced(t: Table, c: Loc, e: Entry)
    requires t.Placed() && t.IsLoc(c)
    requires t.LeveledEntry(e, t.Level(c)) && t.PlacedEntry(e, t.Level(c), t.Base(c))
    ensures t.Put(c, e).Placed()
    ensures forall l: Loc :: t.IsLoc(l) ==> t.Put(c, e).Get(l) == if l == c then e else t.Get(l)
  {
    hide Walk, Span, SlotOf, SlotBase;
    var t' := t.Put(c, e);
    forall l: Loc | t'.IsLoc(l)
      ensures t'.LeveledEntry(t'.Get(l), t'.Level(l))
      ensures t'.PlacedEntry(t'.Get(l), t'.Level(l), t'.Base(l))
    {
      assert t.IsLoc(l);
      assert t.LeveledEntry(t.Get(l), t.Level(l));
      assert t.PlacedEntry(t.Get(l), t.Level(l), t.Base(l));
    }
  }

  lemma AddNodePlaced(t: Table, level: nat, b: nat)
    requires t.Placed()
    requires level < t.levels && b % Span(level + 1) == 0 && |t.nodes| < NODE_NIL
    ensures AddNode(t, level, b).Placed() && t.ExtendedBy(AddNode(t, level, b))
  {
    var t' := AddNode(t, level, b);
    forall l: Loc | t'.IsLoc(l)
      ensures t'.LeveledEntry(t'.Get(l), t'.Level(l))
      ensures t'.PlacedEntry(t'.Get(l), t'.Level(l), t'.Base(l))
    {
      if l.Root? || l.node < |t.nodes| {
        assert t.IsLoc(l);
        assert t.LeveledEntry(t.Get(l), t.Level(l));
        assert t.PlacedEntry(t.Get(l), t.Level(l), t.Base(l));
      }
    }
  }

  /** Hanging a fresh node below an empty entry changes no page. */
  lemma LinkEmptyFramed(t: Table, c: Loc)
    requires t.Placed() && t.IsLoc(c)
    requires |t.nodes| < NODE_NIL && t.Get(c) == Entry(1, NODE_NIL)
    ensures t.Level(c) > 0
    ensures var t' := AddNode(t, t.Level(c) - 1, t.Base(c)).Put(c, Entry(1, |t.nodes|));
            t'.Placed() && Framed(t, t', 0, 0) && forall l: Loc :: t.IsLoc(l) && l != c ==> t'.Get(l) == t.Get(l)
  {
    assert t.LeveledEntry(t.Get(c), t.Level(c));
    var level := t.Level(c) - 1;
    BaseAligned(t, c);
    AddNodePlaced(t, level, t.Base(c));
    var t1 := AddNode(t, level, t.Base(c));
    PutPlaced(t1, c, Entry(1, |t.nodes|));
    var t' := t1.Put(c, Entry(1, |t.nodes|));
    forall x: nat
      ensures t'.From(c, x) == t.From(c, x)
    {
      assert t'.From(c, x) == Walk(t'.nodes, EmptyNode(level == 0)[SlotOf(x, level)], level, x);
    }
    OneLocFramed(t, t', c, 0, 0);
  }

  /** Turning an entry into a leaf changes the pages of that entry and no others. */
  lemma LeafFramed(t: Table, c: Loc, leaf: nat)
    requires t.Placed() && t.IsLoc(c) && 0 < leaf < NODE_NIL
    ensures var t' := t.Put(c, Entry(0, leaf));
            && t'.Placed() && Framed(t, t', t.Base(c), t.Base(c) + Span(t.Level(c)))
            && (forall x: nat :: t'.From(c, x) == leaf)
            && forall l: Loc :: t.IsLoc(l) && l != c ==> t'.Get(l) == t.Get(l)
  {
    PutPlaced(t, c, Entry(0, leaf));
    OneLocFramed(t, t.Put(c, Entry(0, leaf)), c, t.Base(c), t.Base(c) + Span(t.Level(c)));
  }

  // ---------------------------------------------------------------- the node graph is a tree

  /** Following the slots of `path` from the entry at `l` leads to node `n`. */
  ghost predicate Leads(t: Table, l: Loc, path: seq<nat>, n: nat)
    decreases |path|
  {
    && t.IsLoc(l) && t.Get(l).skip != 0 && t.Get(l).ptr != NODE_NIL
    && if path == [] then t.Get(l).ptr == n else path[0] < P_L2_SIZE && Leads(t, At(t.Get(l).ptr, path[0]), path[1..], n)
  }

  /** The depth of the node gives the length of the path, and its pages lie below the entry. */
  lemma {:induction false} LeadsBelow(t: Table, l: Loc, path: seq<nat>, n: nat)
    requires t.Placed() && Leads(t, l, path, n)
    ensures n < |t.nodes| && t.lab.lev[n] + 1 + |path| == t.Level(l) && t.InLoc(l, t.lab.base[n])
    decreases |path|
  {
    hide Walk, SlotOf;
    assert t.LeveledEntry(t.Get(l), t.Level(l)) && t.PlacedEntry(t.Get(l), t.Level(l), t.Base(l));
    if path != [] {
      LeadsBelow(t, At(t.Get(l).ptr, path[0]), path[1..], n);
      BaseAligned(t, l);
      SlotAligned(t.Base(l), path[0], t.Level(l) - 1);
    }
  }

  /** No node is reached in two ways. */
  lemma {:induction false} OneWay(t: Table, l: Loc, p: seq<nat>, q: seq<nat>, n: nat)
    requires t.Placed() && Leads(t, l, p, n) && Leads(t, l, q, n)
    ensures p == q
    decreases |p|
  {
    hide Walk, Span, SlotOf, SlotBase;
    LeadsBelow(t, l, p, n);
    LeadsBelow(t, l, q, n);
    if p != [] {
      assert t.LeveledEntry(t.Get(l), t.Level(l)) && t.PlacedEntry(t.Get(l), t.Level(l), t.Base(l));
      BaseAligned(t, l);
      LeadsBelow(t, At(t.Get(l).ptr, p[0]), p[1..], n);
      LeadsBelow(t, At(t.Get(l).ptr, q[0]), q[1..], n);
      SlotOfIs(t.lab.base[n], t.Base(l), p[0], t.Level(l) - 1);
      SlotOfIs(t.lab.base[n], t.Base(l), q[0], t.Level(l) - 1);
      OneWay(t, At(t.Get(l).ptr, p[0]), p[1..], q[1..], n);
    }
  }
}
