/** A tree seen from one of its nodes: moving the focus down and up, and changing what is there. */
module GTreeFocus {
  import opened GTreeShape
  import opened GTreeRotate

  /** The nodes of the subtree and of its surroundings are distinct, and are all there is. */
  ghost predicate Separate(m: Memory, c: Ctx, t: Tree) {
    && CtxApart(c) && Apart(t) && Nodes(t) !! CtxNodes(c)
    && m.Keys == CtxNodes(c) + Nodes(t)
    && NULL !in m
  }

  /** The memory holds exactly the tree Plug(c, t), linked as it says, except that the nodes above
      the hole of `c` still count it with height `h`. */
  ghost predicate Focus(m: Memory, c: Ctx, t: Tree, h: int) {
    && CtxRep(m, c, Root(t), h, NULL, NULL)
    && Rep(m, t, Pred(c, NULL), Succ(c, NULL))
    && Separate(m, c, t)
    && CtxBalanced(c, h)
  }

  lemma SeparateDown(m: Memory, c: Ctx, t: Tree)
    requires Separate(m, c, t) && t.Branch?
    ensures Separate(m, InLeft(c, t.n, t.k, t.v, t.r), t.l) && Separate(m, InRight(c, t.l, t.n, t.k, t.v), t.r)
  {
  }

  lemma DownLeft(m: Memory, c: Ctx, t: Tree)
    requires Focus(m, c, t, Height(t)) && t.Branch? && Balanced(t)
    ensures Focus(m, InLeft(c, t.n, t.k, t.v, t.r), t.l, Height(t.l)) && Balanced(t.l)
  {
    hide Rep, Linked, Separate, CtxRep, Holds;
    SeparateDown(m, c, t);
    Open(m, t, Pred(c, NULL), Succ(c, NULL));
    CloseCtx(m, InLeft(c, t.n, t.k, t.v, t.r), Root(t.l), Height(t.l));
  }

  lemma DownRight(m: Memory, c: Ctx, t: Tree)
    requires Focus(m, c, t, Height(t)) && t.Branch? && Balanced(t)
    ensures Focus(m, InRight(c, t.l, t.n, t.k, t.v), t.r, Height(t.r)) && Balanced(t.r)
  {
    hide Rep, Linked, Separate, CtxRep, Holds;
    SeparateDown(m, c, t);
    Open(m, t, Pred(c, NULL), Succ(c, NULL));
    CloseCtx(m, InRight(c, t.l, t.n, t.k, t.v), Root(t.r), Height(t.r));
  }

  /** What the focus shows is the tree. */
  lemma WholeTree(m: Memory, c: Ctx, t: Tree)
    requires Focus(m, c, t, Height(t)) && Balanced(t)
    ensures var w := Plug(c, t); Rep(m, w, NULL, NULL) && Apart(w) && Balanced(w) && m.Keys == Nodes(w)
  {
    PlugRep(m, c, t, NULL, NULL);
    PlugApart(c, t);
    PlugBalanced(c, t);
    PlugNodes(c, t);
  }

  lemma {:induction false} NeighboursInside(c: Ctx)
    ensures Pred(c, NULL) in CtxNodes(c) + {NULL} && Succ(c, NULL) in CtxNodes(c) + {NULL}
    decreases c
  {
    if c != Top {
      NeighboursInside(c.up);
    }
  }

  /** The node above the hole. */
  ghost function Parent(c: Ctx): Ptr {
    if c == Top then NULL else c.n
  }

  /** The path array after descending to the hole. */
  ghost function PathOf(c: Ctx): seq<Ptr> {
    if c == Top then [NULL] else PathOf(c.up) + [c.n]
  }

  /** The root pointer of the whole when the subtree in the hole has root `r`. */
  ghost function RootOf(c: Ctx, r: Ptr): Ptr {
    if c == Top then r else RootOf(c.up, c.n)
  }

  lemma {:induction false} RootOfPlug(c: Ctx, t: Tree)
    ensures Root(Plug(c, t)) == RootOf(c, Root(t))
    decreases c
  {
    match c
    case Top =>
    case InLeft(up, n, k, v, r) => RootOfPlug(up, Branch(t, n, k, v, r));
    case InRight(up, l, n, k, v) => RootOfPlug(up, Branch(l, n, k, v, t));
  }

  /** `node == bparent->left` tells on which side of its parent the node is. */
  lemma WhichSide(m: Memory, c: Ctx, t: Tree, h: int)
    requires Focus(m, c, t, h) && t.Branch? && c != Top
    ensures c.n in m && (m[c.n].left == t.n <==> c.InLeft?)
  {
    NeighboursInside(c.up);
    Open(m, t, Pred(c, NULL), Succ(c, NULL));
    assert t.n in Nodes(t) && t.n != NULL;
    if c.InRight? && c.l.Branch? {
      assert c.l.n in Nodes(c.l);
    }
  }

  ghost function WithChild(m: Memory, c: Ctx, root: Ptr): Memory
    requires c != Top && c.n in m
  {
    m[c.n := if c.InLeft? then m[c.n].(left := root) else m[c.n].(right := root)]
  }

  /** The parent's own fields and the rest of the context, apart. */
  lemma OpenCtx(m: Memory, c: Ctx, root: Ptr, h: int)
    requires c != Top && CtxRep(m, c, root, h, NULL, NULL)
    ensures CtxRep(m, c.up, c.n, AboveHeight(c, h), NULL, NULL)
    ensures c.InLeft? ==> Holds(m, c.n, Linked(c.k, c.v, root, h, Root(c.r), Height(c.r), Pred(c.up, NULL), Succ(c.up, NULL))) && Rep(m, c.r, c.n, Succ(c.up, NULL))
    ensures c.InRight? ==> Holds(m, c.n, Linked(c.k, c.v, Root(c.l), Height(c.l), root, h, Pred(c.up, NULL), Succ(c.up, NULL))) && Rep(m, c.l, Pred(c.up, NULL), c.n)
  {
    hide Linked, Rep;
  }

  lemma CloseCtx(m: Memory, c: Ctx, root: Ptr, h: int)
    requires c != Top && CtxRep(m, c.up, c.n, AboveHeight(c, h), NULL, NULL)
    requires c.InLeft? ==> Holds(m, c.n, Linked(c.k, c.v, root, h, Root(c.r), Height(c.r), Pred(c.up, NULL), Succ(c.up, NULL))) && Rep(m, c.r, c.n, Succ(c.up, NULL))
    requires c.InRight? ==> Holds(m, c.n, Linked(c.k, c.v, Root(c.l), Height(c.l), root, h, Pred(c.up, NULL), Succ(c.up, NULL))) && Rep(m, c.l, Pred(c.up, NULL), c.n)
    ensures CtxRep(m, c, root, h, NULL, NULL)
  {
    hide Linked, Rep;
  }

  /** Changing the parent node leaves the rest of the context and the subtree alone. */
  lemma ParentChanged(m: Memory, m': Memory, c: Ctx, t: Tree, h: int, p: Ptr, s: Ptr)
    requires c != Top && Separate(m, c, t) && CtxRep(m, c.up, c.n, h, NULL, NULL) && Rep(m, t, p, s)
    requires OnlyChanged(m, m', {c.n})
    ensures CtxRep(m', c.up, c.n, h, NULL, NULL) && Rep(m', t, p, s) && Separate(m', c, t)
    ensures c.InLeft? && Rep(m, c.r, c.n, Succ(c.up, NULL)) ==> Rep(m', c.r, c.n, Succ(c.up, NULL))
    ensures c.InRight? && Rep(m, c.l, Pred(c.up, NULL), c.n) ==> Rep(m', c.l, Pred(c.up, NULL), c.n)
  {
    hide Rep, CtxRep;
    assert c.n in CtxNodes(c);
    CtxRepFrame(m, m', c.up, c.n, h, NULL, NULL);
    RepFrame(m, m', t, p, s);
    if c.InLeft? && Rep(m, c.r, c.n, Succ(c.up, NULL)) {
      RepFrame(m, m', c.r, c.n, Succ(c.up, NULL));
    }
    if c.InRight? && Rep(m, c.l, Pred(c.up, NULL), c.n) {
      RepFrame(m, m', c.l, Pred(c.up, NULL), c.n);
    }
  }

  lemma BelowChanged(m: Memory, m': Memory, c: Ctx, t: Tree, t': Tree, h: int)
    requires Separate(m, c, t) && CtxRep(m, c, Root(t), h, NULL, NULL)
    requires OnlyChanged(m, m', Nodes(t)) && Nodes(t') == Nodes(t) && Apart(t')
    ensures CtxRep(m', c, Root(t), h, NULL, NULL) && Separate(m', c, t')
  {
    hide CtxRep, CtxApart, Apart;
    assert forall x :: x in CtxNodes(c) ==> x !in Nodes(t);
    CtxRepFrame(m, m', c, Root(t), h, NULL, NULL);
  }

  /** A subtree of the same nodes but another root takes the place of the old one. */
  lemma Reroot(m: Memory, m': Memory, c: Ctx, t: Tree, t': Tree, h: int)
    requires Focus(m, c, t, h) && t.Branch? && t'.Branch? && c != Top
    requires OnlyChanged(m, m', Nodes(t)) && Nodes(t') == Nodes(t) && Apart(t') && Rep(m', t', Pred(c, NULL), Succ(c, NULL))
    requires t'.n != NULL && t.n != NULL
    ensures c.n in m' && Focus(WithChild(m', c, t'.n), c, t', h)
  {
    hide Rep, CtxRep, Separate, OnlyChanged, CtxBalanced, Nodes, Apart;
    BelowChanged(m, m', c, t, t', h);
    OpenCtx(m', c, t.n, h);
    var m2 := WithChild(m', c, t'.n);
    OneChanged(m', m2, c.n);
    ParentChanged(m', m2, c, t', AboveHeight(c, h), Pred(c, NULL), Succ(c, NULL));
    CloseCtx(m2, c, t'.n, h);
  }

  lemma OneChanged(m: Memory, m': Memory, n: Ptr)
    requires n in m && n in m' && m' == m[n := m'[n]]
    ensures OnlyChanged(m, m', {n})
  {
  }

  lemma RerootTop(m: Memory, m': Memory, t: Tree, t': Tree, h: int)
    requires Focus(m, Top, t, h)
    requires OnlyChanged(m, m', Nodes(t)) && Nodes(t') == Nodes(t) && Apart(t') && Rep(m', t', NULL, NULL)
    ensures Focus(m', Top, t', h)
  {
  }

  /** The whole subtree at the parent, once the parent's balance accounts for the change. */
  ghost function Above(c: Ctx, t: Tree): Tree
    requires c != Top
  {
    if c.InLeft? then Branch(t, c.n, c.k, c.v, c.r) else Branch(c.l, c.n, c.k, c.v, t)
  }

  ghost function AboveHeight(c: Ctx, h: int): int
    requires c != Top
  {
    if c.InLeft? then 1 + Max(h, Height(c.r)) else 1 + Max(h, Height(c.l))
  }

  lemma SeparateUp(m: Memory, c: Ctx, t: Tree)
    requires c != Top && Separate(m, c, t)
    ensures Separate(m, c.up, Above(c, t))
  {
  }

  /** Moving up: the parent's balance is corrected by the change of height below it. */
  lemma MoveUp(m: Memory, c: Ctx, t: Tree, h: int, b: int)
    requires Focus(m, c, t, h) && c != Top && c.n in m
    requires b == if c.InLeft? then m[c.n].balance - (Height(t) - h) else m[c.n].balance + (Height(t) - h)
    ensures Focus(m[c.n := m[c.n].(balance := b)], c.up, Above(c, t), AboveHeight(c, h))
  {
    var m2 := m[c.n := m[c.n].(balance := b)];
    assert CtxBalanced(c.up, AboveHeight(c, h));
    hide Rep, CtxRep, Separate, OnlyChanged, CtxBalanced;
    OpenCtx(m, c, Root(t), h);
    OneChanged(m, m2, c.n);
    ParentChanged(m, m2, c, t, AboveHeight(c, h), Pred(c, NULL), Succ(c, NULL));
    Close(m2, Above(c, t), Pred(c.up, NULL), Succ(c.up, NULL));
    SeparateUp(m2, c, t);
  }
}
