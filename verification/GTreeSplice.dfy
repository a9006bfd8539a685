/** Removing a node with two children: its in-order successor takes its place. */
module GTreeSplice {
  import opened GTreeShape
  import opened GTreeFocus
  import opened GTreeEntries
  import opened GTreeHeight
  import opened GTreeSearch
  import opened GTreeInsert
  import opened GTreeRemove
  import opened GTreeThreads
  import opened GTreeSpine

  /** A node `t` with two children in focus, and the spine to its in-order successor `u`. */
  ghost predicate Splicing(m: Memory, c: Ctx, t: Tree, sc: Ctx, u: Tree) {
    && Focus(m, c, t, Height(t)) && Balanced(t) && t.Branch? && t.l.Branch? && t.r.Branch?
    && OnSpine(m, t.r, sc, u, t.n, Succ(c, NULL)) && u.l == Leaf
  }

  /** Nodes in `a` have the same fields in both memories. */
  ghost predicate Agree(m: Memory, m': Memory, a: set<Ptr>) {
    forall x :: x in a && x in m ==> x in m' && m'[x] == m[x]
  }

  ghost function WithSucc(m: Memory, l: Tree, next: Ptr): Memory
    requires l.Branch? && Rightmost(l) in m
  {
    m[Rightmost(l) := m[Rightmost(l)].(right := next)]
  }

  lemma LeftPart(m: Memory, m': Memory, c: Ctx, t: Tree, next: Ptr)
    requires Focus(m, c, t, Height(t)) && t.Branch? && t.l.Branch? && Rightmost(t.l) in m
    requires Agree(WithSucc(m, t.l, next), m', Nodes(t.l))
    ensures Rep(m', t.l, Pred(c, NULL), next)
  {
    FocusRoot(m, c, t, Height(t));
    hide Rep, CtxRep, CtxBalanced, Separate;
    Open(m, t, Pred(c, NULL), Succ(c, NULL));
    SetSucc(m, t.l, Pred(c, NULL), t.n, next);
    RepFrame(WithSucc(m, t.l, next), m', t.l, Pred(c, NULL), next);
  }

  lemma AbovePart(m: Memory, m': Memory, c: Ctx, t: Tree, next: Ptr)
    requires Focus(m, c, t, Height(t)) && t.Branch? && next != NULL
    requires c == Top || (c.n in m && Agree(WithChild(m, c, next), m', CtxNodes(c)))
    ensures CtxRep(m', c, next, Height(t), NULL, NULL)
  {
    hide Rep, CtxBalanced, Balanced;
    FocusRoot(m, c, t, Height(t));
    if c == Top {
    } else {
      hide CtxRep;
      OpenCtx(m, c, t.n, Height(t));
      var m2 := WithChild(m, c, next);
      OneChanged(m, m2, c.n);
      ParentChanged(m, m2, c, t, AboveHeight(c, Height(t)), Pred(c, NULL), Succ(c, NULL));
      CloseCtx(m2, c, next, Height(t));
      CtxRepFrame(m2, m', c, next, Height(t), NULL, NULL);
    }
  }

  /** The nodes that keep their fields: all of the right subtree but the successor and its parent. */
  ghost predicate RestAgrees(m: Memory, m': Memory, sc: Ctx, u: Tree)
    requires u.Branch?
  {
    && Agree(m, m', Nodes(u.r))
    && (sc != Top ==> Agree(m, m', CtxNodes(sc.up)) && (sc.InLeft? ==> Agree(m, m', Nodes(sc.r))))
  }

  /** Everything but the right subtree after the splice. */
  ghost predicate OuterSpliced(m: Memory, m': Memory, c: Ctx, t: Tree, next: Ptr)
    requires t.Branch? && t.l.Branch?
  {
    && m'.Keys == m.Keys - {t.n}
    && Rightmost(t.l) in m && Agree(WithSucc(m, t.l, next), m', Nodes(t.l))
    && (c == Top || (c.n in m && Agree(WithChild(m, c, next), m', CtxNodes(c))))
  }

  /** The tree after the splice: seen from the successor, or from the parent it left. */
  ghost function SplicedCtx(c: Ctx, t: Tree, sc: Ctx, u: Tree): Ctx
    requires t.Branch? && u.Branch? && LeftOnly(sc)
  {
    if sc == Top then c else Append(InRight(c, t.l, u.n, u.k, u.v), sc.up)
  }

  ghost function SplicedTree(t: Tree, sc: Ctx, u: Tree): Tree
    requires t.Branch? && u.Branch? && LeftOnly(sc)
  {
    if sc == Top then Branch(t.l, u.n, u.k, u.v, u.r) else Branch(u.r, sc.n, sc.k, sc.v, sc.r)
  }

  ghost function SplicedHeight(t: Tree, sc: Ctx, u: Tree): int
    requires LeftOnly(sc)
  {
    if sc == Top then Height(t) else AboveHeight(sc, Height(u))
  }

  lemma SpineApart(m: Memory, c: Ctx, t: Tree, sc: Ctx, u: Tree)
    requires Splicing(m, c, t, sc, u)
    ensures Nodes(t.r) == CtxNodes(sc) + Nodes(u) && u.n in Nodes(u)
    ensures Nodes(u) !! CtxNodes(sc)
    ensures CtxApart(c) && Apart(t) && Nodes(t) !! CtxNodes(c) && m.Keys == CtxNodes(c) + Nodes(t) && NULL !in m
  {
    hide Rep, CtxRep, CtxBalanced, Balanced, Apart, CtxApart;
    PlugNodes(sc, u);
  }

  lemma SeparateShort(m: Memory, m': Memory, c: Ctx, t: Tree, u: Tree)
    requires Splicing(m, c, t, Top, u) && m'.Keys == m.Keys - {t.n}
    ensures Separate(m', c, Branch(t.l, u.n, u.k, u.v, u.r))
  {
    SpineApart(m, c, t, Top, u);
    assert t.r == u && t.n in Nodes(t);
    hide Rep, CtxRep, CtxBalanced, Balanced, CtxApart, CtxNodes;
  }

  lemma ShapeShort(t: Tree, u: Tree)
    requires Balanced(t) && t.Branch? && t.r == u && u.Branch? && u.l == Leaf
    ensures ShrunkShape(Branch(t.l, u.n, u.k, u.v, u.r), Height(t))
  {
  }

  /** The successor is the right child itself. */
  lemma SpliceShort(m: Memory, m': Memory, c: Ctx, t: Tree, u: Tree)
    requires Splicing(m, c, t, Top, u) && OuterSpliced(m, m', c, t, u.n) && RestAgrees(m, m', Top, u)
    requires Holds(m', u.n, Linked(u.k, u.v, t.l.n, Height(t.l), Root(u.r), Height(u.r), Pred(c, NULL), Succ(c, NULL)))
    ensures Shrunk(m', c, Branch(t.l, u.n, u.k, u.v, u.r), Height(t))
  {
    SeparateShort(m, m', c, t, u);
    hide Rep, CtxRep, CtxBalanced, Balanced, Separate, ShrunkShape, Linked;
    ShapeShort(t, u);
    FocusRoot(m, c, t, Height(t));
    Open(m, u, t.n, Succ(c, NULL));
    Open(m, t, Pred(c, NULL), Succ(c, NULL));
    Open(m, t.l, Pred(c, NULL), t.n);
    LeftPart(m, m', c, t, u.n);
    AbovePart(m, m', c, t, u.n);
    RepFrame(m, m', u.r, u.n, Succ(c, NULL));
    Close(m', Branch(t.l, u.n, u.k, u.v, u.r), Pred(c, NULL), Succ(c, NULL));
  }

  /** Below the successor's old parent `sc.n`, the spine above it, and the successor in its new place. */
  lemma SpineOpen(m: Memory, r: Tree, sc: Ctx, u: Tree, n: Ptr, s: Ptr)
    requires OnSpine(m, r, sc, u, n, s) && sc != Top && u.l == Leaf
    ensures sc.InLeft? && LeftOnly(sc.up) && sc.n != NULL && sc.n in m
    ensures m[sc.n] == Linked(sc.k, sc.v, u.n, Height(u), Root(sc.r), Height(sc.r), n, Succ(sc.up, s))
    ensures CtxRep(m, sc.up, sc.n, AboveHeight(sc, Height(u)), n, s)
    ensures Rep(m, sc.r, sc.n, Succ(sc.up, s)) && Rep(m, u.r, u.n, sc.n)
    ensures u.n != NULL && u.n in m && m[u.n] == Linked(u.k, u.v, NULL, 0, Root(u.r), Height(u.r), n, sc.n)
  {
    hide Rep;
    AppendEnds(Top, sc.up);
    Open(m, u, n, Succ(sc, s));
  }

  lemma LongInner(m: Memory, m': Memory, r: Tree, sc: Ctx, u: Tree, n: Ptr, s: Ptr)
    requires OnSpine(m, r, sc, u, n, s) && sc != Top && u.l == Leaf && RestAgrees(m, m', sc, u)
    requires Holds(m', sc.n, Linked(sc.k, sc.v, Root(u.r), Height(u.r), Root(sc.r), Height(sc.r), u.n, Succ(sc.up, s)))
    ensures LeftOnly(sc.up) && CtxRep(m', sc.up, sc.n, AboveHeight(sc, Height(u)), u.n, s)
    ensures sc.InLeft? && Rep(m', Branch(u.r, sc.n, sc.k, sc.v, sc.r), u.n, Succ(sc.up, s))
  {
    SpineOpen(m, r, sc, u, n, s);
    hide Rep, CtxRep, SpineSound, Linked, LeftOnly;
    CtxRepFrame(m, m', sc.up, sc.n, AboveHeight(sc, Height(u)), n, s);
    Rebase(m', sc.up, sc.n, AboveHeight(sc, Height(u)), n, u.n, s);
    RepFrame(m, m', u.r, u.n, sc.n);
    RepFrame(m, m', sc.r, sc.n, Succ(sc.up, s));
    Close(m', Branch(u.r, sc.n, sc.k, sc.v, sc.r), u.n, Succ(sc.up, s));
  }

  /** The parts of the tree around the long splice are disjoint. */
  lemma LongParts(m: Memory, c: Ctx, t: Tree, sc: Ctx, u: Tree)
    requires Splicing(m, c, t, sc, u) && sc != Top
    ensures CtxNodes(c) !! Nodes(t.l) !! CtxNodes(sc.up) !! {sc.n} !! Nodes(sc.r) !! {u.n} !! Nodes(u.r) !! {t.n}
    ensures m.Keys == CtxNodes(c) + Nodes(t.l) + CtxNodes(sc.up) + {sc.n} + Nodes(sc.r) + {u.n} + Nodes(u.r) + {t.n} && NULL !in m
    ensures CtxApart(c) && Apart(t.l) && CtxApart(sc.up) && Apart(sc.r) && Apart(u.r)
  {
    hide Rep, CtxRep, CtxBalanced, Balanced;
    SpineApart(m, c, t, sc, u);
  }

  lemma SeparateParts(m: Memory, c: Ctx, sc: Ctx, t: Tree)
    requires LeftOnly(sc) && t.Branch? && c.InRight? && NULL !in m
    requires CtxNodes(c.up) !! Nodes(c.l) !! CtxNodes(sc) !! {t.n} !! Nodes(t.r) !! {c.n} !! Nodes(t.l)
    requires m.Keys == CtxNodes(c.up) + Nodes(c.l) + CtxNodes(sc) + {t.n} + Nodes(t.r) + {c.n} + Nodes(t.l)
    requires CtxApart(c.up) && Apart(c.l) && CtxApart(sc) && Apart(t.r) && Apart(t.l)
    ensures Separate(m, Append(c, sc), t)
  {
    hide Append, LeftOnly;
    AppendNodes(c, sc);
    AppendApart(c, sc);
  }

  lemma SeparateLong(m: Memory, m': Memory, c: Ctx, t: Tree, sc: Ctx, u: Tree)
    requires Splicing(m, c, t, sc, u) && sc != Top && m'.Keys == m.Keys - {t.n}
    ensures Separate(m', SplicedCtx(c, t, sc, u), SplicedTree(t, sc, u))
  {
    hide Rep, CtxRep, CtxBalanced, Balanced, Append, Separate;
    LongParts(m, c, t, sc, u);
    hide Apart, CtxApart, Nodes, CtxNodes;
    SeparateParts(m', InRight(c, t.l, u.n, u.k, u.v), sc.up, SplicedTree(t, sc, u));
  }

  lemma BalancedAbove(c: Ctx, t: Tree, next: Ptr, k: Key, v: Value)
    requires t.Branch? && Balanced(t) && CtxBalanced(c, Height(t))
    ensures CtxBalanced(InRight(c, t.l, next, k, v), Height(t.r))
  {
  }

  lemma BalancedLong(c: Ctx, t: Tree, sc: Ctx, u: Tree)
    requires t.Branch? && Balanced(t) && CtxBalanced(c, Height(t))
    requires sc != Top && LeftOnly(sc) && Plug(sc, u) == t.r && SpineSound(sc, u) && u.Branch? && u.l == Leaf
    ensures CtxBalanced(SplicedCtx(c, t, sc, u), SplicedHeight(t, sc, u))
    ensures ShrunkShape(SplicedTree(t, sc, u), SplicedHeight(t, sc, u))
  {
    assert CtxBalanced(sc.up, AboveHeight(sc, Height(u))) && Balanced(u.r) && Height(u.r) == Height(u) - 1;
    hide Append, ShrunkShape, CtxBalanced, Balanced, Plug, Apart, CtxApart, Nodes, CtxNodes, Height;
    SpineHeight(sc, u);
    BalancedAbove(c, t, u.n, u.k, u.v);
    ShrunkUp(sc, u.r, Height(u));
    AppendBalanced(InRight(c, t.l, u.n, u.k, u.v), sc.up, AboveHeight(sc, Height(u)));
  }

  /** The successor is further down: its old parent is where balance is restored first. */
  lemma SpliceLong(m: Memory, m': Memory, c: Ctx, t: Tree, sc: Ctx, u: Tree)
    requires Splicing(m, c, t, sc, u) && sc != Top && OuterSpliced(m, m', c, t, u.n) && RestAgrees(m, m', sc, u)
    requires Holds(m', u.n, Linked(u.k, u.v, t.l.n, Height(t.l), t.r.n, Height(t.r), Pred(c, NULL), Succ(c, NULL)))
    requires Holds(m', sc.n, Linked(sc.k, sc.v, Root(u.r), Height(u.r), Root(sc.r), Height(sc.r), u.n, Succ(sc.up, Succ(c, NULL))))
    ensures Shrunk(m', SplicedCtx(c, t, sc, u), SplicedTree(t, sc, u), SplicedHeight(t, sc, u))
  {
    hide Rep, CtxRep, CtxBalanced, Balanced, Separate, ShrunkShape, Linked, SpineSound, RestAgrees;
    var c1 := InRight(c, t.l, u.n, u.k, u.v);
    var h := AboveHeight(sc, Height(u));
    SeparateLong(m, m', c, t, sc, u);
    BalancedLong(c, t, sc, u);
    LeftPart(m, m', c, t, u.n);
    AbovePart(m, m', c, t, u.n);
    LongInner(m, m', t.r, sc, u, t.n, Succ(c, NULL));
    RootOfPlug(sc, u);
    SpineHeight(sc, u);
    CloseCtx(m', c1, t.r.n, Height(t.r));
    AppendRep(m', c1, sc.up, sc.n, h);
    AppendEnds(c1, sc.up);
  }

  lemma Shift<T>(x: seq<T>, r: seq<T>, a: seq<T>)
    ensures [] + ([] + x + r) + a == x + ([] + r + a)
  {
  }

  lemma FirstOut(u: Tree, a: Entries)
    requires u.Branch? && u.l == Leaf
    ensures [] + InOrder(u) + a == [(u.k, u.v)] + ([] + InOrder(u.r) + a)
  {
    Shift([(u.k, u.v)], InOrder(u.r), a);
  }

  /** Without its leftmost node, a subtree has the rest of its entries. */
  lemma WithoutFirst(sc: Ctx, u: Tree)
    requires LeftOnly(sc) && u.Branch? && u.l == Leaf
    ensures InOrder(Plug(sc, u)) == [(u.k, u.v)] + InOrder(Plug(sc, u.r))
  {
    hide Plug, Before, After, InOrder, LeftOnly;
    SpineBefore(sc);
    PlugInOrder(sc, u);
    PlugInOrder(sc, u.r);
    FirstOut(u, After(sc));
  }

  lemma SplicedPlug(c: Ctx, t: Tree, sc: Ctx, u: Tree)
    requires t.Branch? && LeftOnly(sc) && u.Branch?
    ensures Plug(SplicedCtx(c, t, sc, u), SplicedTree(t, sc, u)) == Plug(c, Branch(t.l, u.n, u.k, u.v, Plug(sc, u.r)))
  {
    if sc != Top {
      AppendPlug(InRight(c, t.l, u.n, u.k, u.v), sc.up, SplicedTree(t, sc, u));
    }
  }

  /** Either way the successor has taken the place of the removed node. */
  lemma SplicedInOrder(c: Ctx, t: Tree, sc: Ctx, u: Tree)
    requires t.Branch? && LeftOnly(sc) && Plug(sc, u) == t.r && u.Branch? && u.l == Leaf
    ensures InOrder(Plug(SplicedCtx(c, t, sc, u), SplicedTree(t, sc, u))) == Before(c) + (InOrder(t.l) + InOrder(t.r)) + After(c)
  {
    hide Plug, Before, After, SplicedCtx, SplicedTree, LeftOnly;
    var t' := Branch(t.l, u.n, u.k, u.v, Plug(sc, u.r));
    WithoutFirst(sc, u);
    SplicedPlug(c, t, sc, u);
    PlugInOrder(c, t');
    assert InOrder(t') == InOrder(t.l) + InOrder(t.r);
  }

  // ------------------------------------------------------- the code

  /** What the relinking reads. */
  lemma SpliceFields(m: Memory, c: Ctx, t: Tree, sc: Ctx, u: Tree)
    requires Splicing(m, c, t, sc, u)
    ensures t.n != NULL && t.n in m && m[t.n] == Linked(t.k, t.v, t.l.n, Height(t.l), t.r.n, Height(t.r), Pred(c, NULL), Succ(c, NULL))
    ensures u.n != NULL && u.n in m && m[u.n] == Linked(u.k, u.v, NULL, 0, Root(u.r), Height(u.r), t.n, Succ(sc, Succ(c, NULL)))
    ensures t.l.n != NULL && t.r.n != NULL && Rep(m, t.l, Pred(c, NULL), t.n) && (u.r.Branch? ==> u.r.n != NULL)
    ensures sc != Top ==> sc.InLeft? && sc.n != NULL && sc.n in m
    ensures sc != Top ==> m[sc.n] == Linked(sc.k, sc.v, u.n, Height(u), Root(sc.r), Height(sc.r), t.n, Succ(sc.up, Succ(c, NULL)))
    ensures Height(u) == Height(u.r) + 1
    ensures c != Top ==> c.n != NULL && c.n in m
  {
    hide Rep, CtxRep, CtxBalanced, SpineSound, Separate, Balanced;
    FocusRoot(m, c, t, Height(t));
    Open(m, t, Pred(c, NULL), Succ(c, NULL));
    Open(m, t.l, Pred(c, NULL), t.n);
    Open(m, t.r, t.n, Succ(c, NULL));
    Open(m, u, t.n, Succ(sc, Succ(c, NULL)));
    if u.r.Branch? { Open(m, u.r, u.n, Succ(sc, Succ(c, NULL))); }
    if sc != Top { SpineOpen(m, t.r, sc, u, t.n, Succ(c, NULL)); }
  }

  /** The five nodes that change are five different nodes, each in its own part of the tree. */
  lemma SpliceDistinct(m: Memory, c: Ctx, t: Tree, sc: Ctx, u: Tree)
    requires Splicing(m, c, t, sc, u)
    ensures Rightmost(t.l) in Nodes(t.l) && Rightmost(t.l) in m && (c != Top ==> c.n in CtxNodes(c))
    ensures CtxNodes(c) !! Nodes(t.l) !! {u.n} !! Nodes(u.r) !! {t.n}
    ensures CtxNodes(c) <= m.Keys && Nodes(t.l) <= m.Keys && Nodes(u.r) <= m.Keys
    ensures sc != Top ==> CtxNodes(c) !! Nodes(t.l) !! CtxNodes(sc.up) !! {sc.n} !! Nodes(sc.r) !! {u.n} !! Nodes(u.r) !! {t.n}
    ensures sc != Top ==> CtxNodes(sc.up) <= m.Keys && Nodes(sc.r) <= m.Keys
  {
    hide Rep, CtxRep, CtxBalanced, Balanced;
    Ends(t.l);
    SpineApart(m, c, t, sc, u);
    if sc != Top {
      LongParts(m, c, t, sc, u);
    }
  }

  /** The common end of the relinking, as one update of the memory. */
  ghost function Placed(m: Memory, c: Ctx, t: Tree, next: Ptr): Memory
    requires t.Branch? && t.l.Branch? && Rightmost(t.l) in m && next in m && t.n in m && (c != Top ==> c.n in m)
  {
    var m1 := m[Rightmost(t.l) := m[Rightmost(t.l)].(right := next)];
    var m2 := m1[next := m1[next].(leftChild := true, left := m1[t.n].left, balance := m1[t.n].balance)];
    (if c == Top then m2 else WithChild(m2, c, next)) - {t.n}
  }

  /** It touches one node to the left, one above, and the successor. */
  lemma PlacedOuter(m: Memory, m1: Memory, c: Ctx, t: Tree, next: Ptr)
    requires t.Branch? && t.l.Branch? && next in m && t.n in m && Rightmost(t.l) in Nodes(t.l)
    requires CtxNodes(c) !! Nodes(t.l) !! {next} !! {t.n} && CtxNodes(c) <= m.Keys && Nodes(t.l) <= m.Keys && (c != Top ==> c.n in CtxNodes(c))
    requires m1.Keys == m.Keys && Agree(m, m1, Nodes(t.l)) && Agree(m, m1, CtxNodes(c))
    ensures OuterSpliced(m, Placed(m1, c, t, next), c, t, next)
    ensures forall x :: x in m && x !in Nodes(t.l) && x !in CtxNodes(c) && x != next && x != t.n ==> x in Placed(m1, c, t, next) && Placed(m1, c, t, next)[x] == m1[x]
    ensures next in Placed(m1, c, t, next) && Placed(m1, c, t, next)[next] == m1[next].(leftChild := true, left := m1[t.n].left, balance := m1[t.n].balance)
  {
    hide Nodes, CtxNodes, Rightmost;
  }

  lemma PlacedShort(m: Memory, c: Ctx, t: Tree, u: Tree)
    requires Splicing(m, c, t, Top, u) && t.n in m && u.n in m && Rightmost(t.l) in m && (c != Top ==> c.n in m)
    ensures Shrunk(Placed(m[t.n := m[t.n].(balance := m[t.n].balance - 1)], c, t, u.n), c, SplicedTree(t, Top, u), Height(t))
  {
    hide Rep, CtxRep, CtxBalanced, Balanced, SpineSound, Separate, Apart, CtxApart, Nodes, CtxNodes, Shrunk, Height, Rightmost;
    SpliceFields(m, c, t, Top, u);
    SpliceDistinct(m, c, t, Top, u);
    PlacedOuter(m, m[t.n := m[t.n].(balance := m[t.n].balance - 1)], c, t, u.n);
    hide Placed, OuterSpliced;
    SpliceShort(m, Placed(m[t.n := m[t.n].(balance := m[t.n].balance - 1)], c, t, u.n), c, t, u);
  }

  /** The successor's old parent and the successor after the first step of a long splice. */
  ghost function Detached(m: Memory, t: Tree, sc: Ctx, u: Tree): Memory
    requires sc != Top && t.Branch? && u.Branch? && sc.n in m && u.n in m && t.n in m
  {
    var p := if u.r.Branch? then m[sc.n].(left := u.r.n, balance := m[sc.n].balance + 1) else m[sc.n].(leftChild := false, balance := m[sc.n].balance + 1);
    m[sc.n := p][u.n := m[u.n].(rightChild := true, right := m[t.n].right)]
  }

  lemma PlacedLong(m: Memory, c: Ctx, t: Tree, sc: Ctx, u: Tree)
    requires Splicing(m, c, t, sc, u) && sc != Top && sc.n in m && t.n in m && u.n in m && Rightmost(t.l) in m && (c != Top ==> c.n in m)
    ensures Shrunk(Placed(Detached(m, t, sc, u), c, t, u.n), SplicedCtx(c, t, sc, u), SplicedTree(t, sc, u), SplicedHeight(t, sc, u))
  {
    hide Rep, CtxRep, CtxBalanced, Balanced, SpineSound, Separate, Apart, CtxApart, Nodes, CtxNodes, Shrunk, Height, Rightmost, Append;
    SpliceFields(m, c, t, sc, u);
    SpliceDistinct(m, c, t, sc, u);
    PlacedOuter(m, Detached(m, t, sc, u), c, t, u.n);
    hide Placed, OuterSpliced;
    SpliceLong(m, Placed(Detached(m, t, sc, u), c, t, u.n), c, t, sc, u);
  }

  /** The successor, found below the right child, replaces the node. */
  method Relink(mem0: Memory, node: Ptr, next: Ptr, nextp: Ptr, parent: Ptr, leftNode: bool, root0: Ptr,
                ghost c: Ctx, ghost t: Tree, ghost sc: Ctx, ghost u: Tree)
    returns (mem: Memory, root: Ptr)
    requires Splicing(mem0, c, t, sc, u) && node == t.n && next == u.n && nextp == (if sc == Top then node else sc.n)
    requires parent == Parent(c) && (leftNode <==> c.InLeft?) && root0 == RootOf(c, t.n)
    ensures LeftOnly(sc) && Shrunk(mem, SplicedCtx(c, t, sc, u), SplicedTree(t, sc, u), SplicedHeight(t, sc, u))
    ensures root == RootOf(c, next)
  {
    hide Rep, CtxRep, Balanced, SpineSound, Focus, Nodes, CtxNodes, Shrunk, Height, Rightmost, Append;
    mem, root := mem0, root0;
    SpliceFields(mem, c, t, sc, u);
    SpliceDistinct(mem, c, t, sc, u);
    var prev := mem[node].left;
    if nextp != node {
      if mem[next].rightChild {
        mem := mem[nextp := mem[nextp].(left := mem[next].right)];
      } else {
        mem := mem[nextp := mem[nextp].(leftChild := false)];
      }
      mem := mem[nextp := mem[nextp].(balance := mem[nextp].balance + 1)];
      mem := mem[next := mem[next].(rightChild := true, right := mem[node].right)];
    } else {
      mem := mem[node := mem[node].(balance := mem[node].balance - 1)];
    }
    assert mem == if sc == Top then mem0[node := mem0[node].(balance := mem0[node].balance - 1)] else Detached(mem0, t, sc, u);
    ghost var m1 := mem;
    RepFrame(mem0, mem, t.l, Pred(c, NULL), node);
    prev := WalkRight(mem, prev, t.l, Pred(c, NULL), node);
    mem := mem[prev := mem[prev].(right := next)];
    mem := mem[next := mem[next].(leftChild := true, left := mem[node].left, balance := mem[node].balance)];
    if parent == NULL {
      root := next;
    } else if leftNode {
      mem := mem[parent := mem[parent].(left := next)];
    } else {
      mem := mem[parent := mem[parent].(right := next)];
    }
    mem := mem - {node};
    assert mem == Placed(m1, c, t, next);
    if sc == Top {
      PlacedShort(mem0, c, t, u);
    } else {
      PlacedLong(mem0, c, t, sc, u);
    }
  }

  lemma {:induction false} AppendRoot(c: Ctx, sc: Ctx, root: Ptr)
    requires LeftOnly(sc)
    ensures RootOf(Append(c, sc), root) == RootOf(c, RootOf(sc, root))
    decreases sc
  {
    if sc != Top {
      AppendRoot(c, sc.up, sc.n);
    }
  }

  /** The path after the successor walk, when the slot of the removed node holds the successor. */
  lemma SplicedPath(path: seq<Ptr>, c: Ctx, t: Tree, sc: Ctx, u: Tree)
    requires t.Branch? && u.Branch? && LeftOnly(sc) && path == PathOf(c) + [u.n] + SpineNodes(sc)
    ensures path[..|path| - 1] == PathOf(SplicedCtx(c, t, sc, u)) && path[|path| - 1] == SplicedTree(t, sc, u).n
    ensures RootOf(SplicedCtx(c, t, sc, u), SplicedTree(t, sc, u).n) == RootOf(c, u.n)
  {
    hide Append;
    if sc != Top {
      AppendPath(InRight(c, t.l, u.n, u.k, u.v), sc.up);
      AppendRoot(InRight(c, t.l, u.n, u.k, u.v), sc.up, sc.n);
    }
  }

  /** There is room in the path for every node of the spine, and for the successor. */
  lemma SpineRoom(w: Tree, c: Ctx, t: Tree, sc: Ctx, u: Tree)
    requires Plug(c, t) == w && Balanced(w) && |InOrder(w)| < TOO_MANY_NODES
    requires t.Branch? && LeftOnly(sc) && u.Branch? && Plug(sc, u) == t.r
    ensures |PathOf(c)| + |SpineNodes(sc)| + Height(u) <= MAX_GTREE_HEIGHT
  {
    hide Balanced, Append, Height, PathOf, SpineNodes;
    var c1 := InRight(c, t.l, t.n, t.k, t.v);
    AppendPlug(c1, sc, u);
    AppendPath(c1, sc);
    PathFits(Append(c1, sc), u);
    HeightBound(w);
    PathOneMore(c, c1);
  }

  lemma PathOneMore(c: Ctx, c1: Ctx)
    requires c1 != Top && c1.up == c
    ensures |PathOf(c1)| == |PathOf(c)| + 1
  {
  }

  /** Walking down the left spine of the right child, recording it in the path. */
  method FindSuccessor(mem: Memory, path: array<Ptr>, oldIdx: nat, node: Ptr, ghost w: Tree, ghost c: Ctx, ghost t: Tree)
    returns (next: Ptr, nextp: Ptr, idx: nat, ghost sc: Ctx, ghost u: Tree)
    requires path.Length == MAX_GTREE_HEIGHT && oldIdx <= path.Length && OnPath(path[..oldIdx], c)
    requires Focus(mem, c, t, Height(t)) && Balanced(t) && t.Branch? && t.l.Branch? && t.r.Branch? && node == t.n
    requires Plug(c, t) == w && Balanced(w) && |InOrder(w)| < TOO_MANY_NODES
    modifies path
    ensures Splicing(mem, c, t, sc, u) && next == u.n && nextp == (if sc == Top then node else sc.n)
    ensures oldIdx <= idx < path.Length && path[..oldIdx] == PathOf(c) && path[oldIdx + 1..idx + 1] == SpineNodes(sc)
  {
    hide Rep, CtxRep, CtxBalanced, Balanced, Separate, Height, PathOf, InOrder, OnSpine;
    SpliceStart(mem, c, t);
    next := mem[node].right;
    nextp := node;
    idx := oldIdx;
    sc, u := Top, t.r;
    SpineStep(w, c, t, sc, u, mem);
    while mem[next].leftChild
      invariant OnSpine(mem, t.r, sc, u, node, Succ(c, NULL)) && u.Branch? && next == u.n
      invariant nextp == (if sc == Top then node else sc.n)
      invariant oldIdx <= idx < path.Length && path[..oldIdx] == PathOf(c) && path[oldIdx + 1..idx + 1] == SpineNodes(sc)
      invariant next in mem && mem[next].leftChild == u.l.Branch?
      decreases u
    {
      SpineStep(w, c, t, sc, u, mem);
      SpineDown(mem, t.r, sc, u, node, Succ(c, NULL));
      idx := idx + 1;
      nextp := next;
      path[idx] := next;
      next := mem[next].left;
      sc, u := InLeft(sc, u.n, u.k, u.v, u.r), u.l;
      SpineStep(w, c, t, sc, u, mem);
    }
  }

  lemma SpliceStart(m: Memory, c: Ctx, t: Tree)
    requires Focus(m, c, t, Height(t)) && Balanced(t) && t.Branch? && t.l.Branch? && t.r.Branch?
    ensures t.n in m && m[t.n].right == t.r.n && OnSpine(m, t.r, Top, t.r, t.n, Succ(c, NULL))
  {
    FocusRoot(m, c, t, Height(t));
    Open(m, t, Pred(c, NULL), Succ(c, NULL));
    Open(m, t.r, t.n, Succ(c, NULL));
  }

  /** What one step of the walk reads and writes. */
  lemma SpineStep(w: Tree, c: Ctx, t: Tree, sc: Ctx, u: Tree, m: Memory)
    requires Plug(c, t) == w && Balanced(w) && |InOrder(w)| < TOO_MANY_NODES
    requires t.Branch? && OnSpine(m, t.r, sc, u, t.n, Succ(c, NULL))
    ensures u.n in m && m[u.n].leftChild == u.l.Branch? && (u.l.Branch? ==> m[u.n].left == u.l.n)
    ensures |PathOf(c)| + |SpineNodes(sc)| + (if u.l.Branch? then 2 else 1) <= MAX_GTREE_HEIGHT
  {
    hide Balanced, PathOf, SpineNodes, Plug, Rep, CtxRep, SpineSound;
    SpineRoom(w, c, t, sc, u);
    Open(m, u, t.n, Succ(sc, Succ(c, NULL)));
    if u.l.Branch? { Open(m, u.l, t.n, u.n); }
  }
}
