/** Removal: the node is unlinked, threads are repaired, then balance is restored going up. */
module GTreeRemove {
  import opened GTreeShape
  import opened GTreeRotate
  import opened GTreeFocus
  import opened GTreeEntries
  import opened GTreeHeight
  import opened GTreeSearch
  import opened GTreeInsert
  import opened GTreeThreads

  // ------------------------------------------------------- going up

  /** During removal: the subtree in focus may have lost one of the height `h` that the nodes above
      still count, exactly when it is level, and may lean by two. */
  ghost predicate ShrunkShape(t: Tree, h: int) {
    && t.Branch? && Balanced(t.l) && Balanced(t.r) && -2 <= Balance(t) <= 2
    && Height(t) == (if Balance(t) == 0 then h - 1 else h)
  }

  ghost predicate Shrunk(m: Memory, c: Ctx, t: Tree, h: int) {
    && Focus(m, c, t, h)
    && ShrunkShape(t, h)
  }

  lemma RestoredShrunk(t: Tree, h: int)
    requires ShrunkShape(t, h)
    ensures ShrunkShape(Restored(t), h) && Balanced(Restored(t))
  {
    if Leaning(t) {
      RebalancedOk(t);
    }
  }

  /** A child that lost one level. */
  lemma ShrunkUp(c: Ctx, t: Tree, h: int)
    requires c != Top && Balanced(t) && Height(t) == h - 1 && CtxBalanced(c, h)
    ensures ShrunkShape(Above(c, t), AboveHeight(c, h))
  {
  }

  lemma ShrunkStep(m: Memory, c: Ctx, t: Tree, h: int, b: int)
    requires Shrunk(m, c, t, h) && Balanced(t) && Balance(t) == 0 && c != Top && c.n in m
    requires b == if c.InLeft? then m[c.n].balance + 1 else m[c.n].balance - 1
    ensures Shrunk(m[c.n := m[c.n].(balance := b)], c.up, Above(c, t), AboveHeight(c, h))
  {
    hide Rep, CtxRep, Balanced, CtxBalanced, Separate, Above, AboveHeight;
    ShrunkUp(c, t, h);
    MoveUp(m, c, t, h, b);
  }

  /** The last loop of g_tree_remove_internal. */
  method RestoreShrunk(mem0: Memory, path: array<Ptr>, idx0: nat, node0: Ptr, root0: Ptr, ghost c0: Ctx, ghost t0: Tree, ghost h0: int)
    returns (mem: Memory, root: Ptr, ghost w: Tree)
    requires idx0 <= path.Length && OnPath(path[..idx0], c0)
    requires Shrunk(mem0, c0, t0, h0) && node0 == t0.n && root0 == RootOf(c0, t0.n)
    ensures Whole(mem, w) && root == Root(w) && InOrder(w) == InOrder(Plug(c0, t0))
  {
    hide Rep, CtxRep, Focus, Balanced, Rebalanced, InOrder, Restored, OnPath;
    mem, root := mem0, root0;
    var idx: nat, balance := idx0, node0;
    ghost var c, t, h := c0, t0, h0;
    while true
      invariant idx <= path.Length && OnPath(path[..idx], c)
      invariant Shrunk(mem, c, t, h) && balance == t.n && root == RootOf(c, t.n)
      invariant InOrder(Plug(c, t)) == InOrder(Plug(c0, t0))
      decreases c
    {
      PathStep(path[..idx], c);
      idx := idx - 1;
      var bparent := path[idx];
      FocusRoot(mem, c, t, h);
      if c != Top { WhichSide(mem, c, t, h); }
      var leftNode := bparent != NULL && balance == mem[bparent].left;
      RestoredShrunk(t, h);
      mem, balance, root := Restore(mem, balance, bparent, leftNode, root, c, t, h);
      SameInOrder(c, t, Restored(t));
      t := Restored(t);
      FocusRoot(mem, c, t, h);
      if mem[balance].balance != 0 || bparent == NULL {
        Finished(mem, c, t, h);
        w := Plug(c, t);
        return;
      }
      ShrunkStep(mem, c, t, h, if leftNode then mem[bparent].balance + 1 else mem[bparent].balance - 1);
      if leftNode {
        mem := mem[bparent := mem[bparent].(balance := mem[bparent].balance + 1)];
      } else {
        mem := mem[bparent := mem[bparent].(balance := mem[bparent].balance - 1)];
      }
      balance := bparent;
      assert path[..idx] == path[..idx + 1][..idx];
      t, h, c := Above(c, t), AboveHeight(c, h), c.up;
    }
  }

  // ------------------------------------------------------- a node with at most one child

  /** The parent of a removed node when subtree `t` takes its place. */
  ghost function ParentAfter(c: Ctx, parent: Node, t: Tree): Node
    requires c != Top
  {
    if c.InLeft? then
      parent.(leftChild := t.Branch?, left := if t.Branch? then t.n else Pred(c, NULL), balance := parent.balance + 1)
    else
      parent.(rightChild := t.Branch?, right := if t.Branch? then t.n else Succ(c, NULL), balance := parent.balance - 1)
  }

  lemma SeparateLess(m: Memory, m': Memory, c: Ctx, t: Tree, t': Tree)
    requires Separate(m, c, t) && t.Branch? && m'.Keys == m.Keys - {t.n}
    requires Nodes(t') == Nodes(t) - {t.n} && Apart(t')
    ensures Separate(m', c, t')
  {
    assert t.n in Nodes(t);
    hide CtxApart, Apart, Nodes, CtxNodes;
  }

  lemma AboveFrame(m: Memory, m': Memory, c: Ctx, h: int)
    requires c != Top && CtxApart(c) && CtxRep(m, c.up, c.n, h, NULL, NULL)
    requires forall x :: x in CtxNodes(c) && x != c.n && x in m ==> x in m' && m'[x] == m[x]
    ensures CtxRep(m', c.up, c.n, h, NULL, NULL)
    ensures c.InLeft? && Rep(m, c.r, c.n, Succ(c.up, NULL)) ==> Rep(m', c.r, c.n, Succ(c.up, NULL))
    ensures c.InRight? && Rep(m, c.l, Pred(c.up, NULL), c.n) ==> Rep(m', c.l, Pred(c.up, NULL), c.n)
  {
    hide Rep, CtxRep;
    CtxRepFrame(m, m', c.up, c.n, h, NULL, NULL);
    if c.InLeft? && Rep(m, c.r, c.n, Succ(c.up, NULL)) {
      RepFrame(m, m', c.r, c.n, Succ(c.up, NULL));
    }
    if c.InRight? && Rep(m, c.l, Pred(c.up, NULL), c.n) {
      RepFrame(m, m', c.l, Pred(c.up, NULL), c.n);
    }
  }

  /** Putting `t'` in the place of `t`, one level lower. */
  lemma Dropped(m: Memory, m': Memory, c: Ctx, t: Tree, t': Tree)
    requires c != Top && Focus(m, c, t, Height(t)) && t.Branch?
    requires Balanced(t') && Height(t') == Height(t) - 1 && Apart(t') && Nodes(t') == Nodes(t) - {t.n}
    requires m'.Keys == m.Keys - {t.n} && Rep(m', t', Pred(c, NULL), Succ(c, NULL))
    requires forall x :: x in CtxNodes(c) && x != c.n && x in m ==> x in m' && m'[x] == m[x]
    requires c.n in m && c.n in m' && m'[c.n] == ParentAfter(c, m[c.n], t')
    ensures Shrunk(m', c.up, Above(c, t'), AboveHeight(c, Height(t)))
  {
    hide Rep, CtxRep, Separate, Apart, CtxApart, Nodes, CtxNodes, ShrunkShape;
    SeparateLess(m, m', c, t, t');
    SeparateUp(m', c, t');
    ShrunkUp(c, t', Height(t));
    OpenCtx(m, c, t.n, Height(t));
    CtxApartOf(m, c, t);
    AboveFrame(m, m', c, AboveHeight(c, Height(t)));
    if t'.Branch? { Open(m', t', Pred(c, NULL), Succ(c, NULL)); }
    Close(m', Above(c, t'), Pred(c.up, NULL), Succ(c.up, NULL));
  }

  lemma CtxApartOf(m: Memory, c: Ctx, t: Tree)
    requires Separate(m, c, t)
    ensures CtxApart(c)
  {
  }

  ghost predicate Thin(t: Tree) {
    t.Branch? && (t.l == Leaf || t.r == Leaf)
  }

  ghost function OnlyChild(t: Tree): Tree
    requires Thin(t)
  {
    if t.l == Leaf then t.r else t.l
  }

  lemma ThinShape(t: Tree)
    requires Thin(t) && Balanced(t) && Apart(t)
    ensures var t' := OnlyChild(t); Balanced(t') && Height(t') == Height(t) - 1 && Apart(t') && Nodes(t') == Nodes(t) - {t.n}
  {
  }

  /** The same without a node above. */
  lemma DroppedTop(m: Memory, m': Memory, t: Tree)
    requires Focus(m, Top, t, Height(t)) && Thin(t) && Balanced(t)
    requires m'.Keys == m.Keys - {t.n} && Rep(m', OnlyChild(t), NULL, NULL)
    ensures Whole(m', OnlyChild(t))
  {
    ThinShape(t);
    hide Rep, CtxRep, Balanced;
    SeparateLess(m, m', Top, t, OnlyChild(t));
  }

  /** What the unlinking of a thin node leaves. */
  ghost predicate Unlinked(m: Memory, root: Ptr, balance: Ptr, c: Ctx, t: Tree, t': Tree) {
    && (c == Top ==> balance == NULL && Whole(m, t') && root == Root(t'))
    && (c != Top ==> balance == c.n && Shrunk(m, c.up, Above(c, t'), AboveHeight(c, Height(t))) && root == RootOf(c.up, c.n))
  }

  lemma ThinDropped(m: Memory, m1: Memory, m': Memory, root: Ptr, balance: Ptr, c: Ctx, t: Tree)
    requires Focus(m, c, t, Height(t)) && Thin(t) && Balanced(t)
    requires OnlyChanged(m, m1, Nodes(OnlyChild(t))) && Rep(m1, OnlyChild(t), Pred(c, NULL), Succ(c, NULL))
    requires balance == Parent(c)
    requires c == Top ==> m' == m1 - {t.n} && root == Root(OnlyChild(t))
    requires c != Top ==> c.n in m1 && m' == m1[c.n := ParentAfter(c, m1[c.n], OnlyChild(t))] - {t.n} && root == RootOf(c.up, c.n)
    ensures Unlinked(m', root, balance, c, t, OnlyChild(t))
  {
    hide Rep, CtxRep, Balanced, CtxBalanced, Whole, Shrunk, ParentAfter, OnlyChild, Height;
    ThinApart(m, c, t);
    ThinShape(t);
    RepFrame(m1, m', OnlyChild(t), Pred(c, NULL), Succ(c, NULL));
    if c == Top {
      DroppedTop(m, m', t);
    } else {
      Dropped(m, m', c, t, OnlyChild(t));
    }
  }

  lemma ThinApart(m: Memory, c: Ctx, t: Tree)
    requires Separate(m, c, t) && Thin(t)
    ensures Apart(t) && t.n in m && t.n !in Nodes(OnlyChild(t)) && t.n !in CtxNodes(c)
    ensures Nodes(OnlyChild(t)) !! CtxNodes(c) && Nodes(OnlyChild(t)) <= m.Keys && CtxNodes(c) <= m.Keys
    ensures c != Top ==> c.n in CtxNodes(c)
  {
    assert t.n in Nodes(t);
  }

  /** The thread of the neighbour inside the only child is passed on to the neighbour outside. */
  lemma ThinThread(m: Memory, c: Ctx, t: Tree)
    requires Focus(m, c, t, Height(t)) && Thin(t)
    ensures t.r.Branch? ==> var x := Leftmost(t.r); x in Nodes(t.r) && x in m && Rep(m[x := m[x].(left := Pred(c, NULL))], t.r, Pred(c, NULL), Succ(c, NULL))
    ensures t.l.Branch? ==> var x := Rightmost(t.l); x in Nodes(t.l) && x in m && Rep(m[x := m[x].(right := Succ(c, NULL))], t.l, Pred(c, NULL), Succ(c, NULL))
  {
    hide Rep, CtxRep, CtxBalanced;
    ThinApart(m, c, t);
    Open(m, t, Pred(c, NULL), Succ(c, NULL));
    if t.r.Branch? {
      SetPred(m, t.r, t.n, Pred(c, NULL), Succ(c, NULL));
    }
    if t.l.Branch? {
      SetSucc(m, t.l, Pred(c, NULL), t.n, Succ(c, NULL));
    }
  }

  /** The node and its parent as the unlinking reads them. */
  lemma ThinFields(m: Memory, c: Ctx, t: Tree)
    requires Focus(m, c, t, Height(t)) && Thin(t)
    ensures t.n != NULL && t.n in m && t.n != Parent(c) && (c != Top ==> c.n in m && c.n != NULL)
    ensures m[t.n].leftChild == t.l.Branch? && m[t.n].left == (if t.l.Branch? then t.l.n else Pred(c, NULL))
    ensures m[t.n].rightChild == t.r.Branch? && m[t.n].right == (if t.r.Branch? then t.r.n else Succ(c, NULL))
    ensures Rep(m, t.l, Pred(c, NULL), t.n) && Rep(m, t.r, t.n, Succ(c, NULL))
    ensures c.InLeft? ==> m[c.n].leftChild
    ensures c.InRight? ==> m[c.n].rightChild
    ensures t.n !in Nodes(OnlyChild(t)) && Parent(c) !in Nodes(OnlyChild(t))
  {
    hide Rep, CtxRep, CtxBalanced;
    ThinApart(m, c, t);
    Fields(m, t, Pred(c, NULL), Succ(c, NULL));
    FocusRoot(m, c, t, Height(t));
    if c != Top { OpenCtx(m, c, t.n, Height(t)); }
  }

  /** Unlinking a node without left child. */
  method UnlinkNoLeft(mem0: Memory, node: Ptr, parent: Ptr, leftNode: bool, root0: Ptr, ghost c: Ctx, ghost t: Tree)
    returns (mem: Memory, root: Ptr)
    requires Focus(mem0, c, t, Height(t)) && Balanced(t) && t.Branch? && t.l == Leaf && node == t.n
    requires parent == Parent(c) && (leftNode <==> c.InLeft?) && root0 == RootOf(c, t.n)
    ensures Unlinked(mem, root, parent, c, t, OnlyChild(t))
  {
    hide Rep, CtxRep, Focus, Balanced, Unlinked, Height, Nodes;
    mem, root := mem0, root0;
    ThinFields(mem, c, t);
    ghost var m1 := mem;
    if !mem[node].rightChild {
      LeafRep(mem, Pred(c, NULL), Succ(c, NULL));
      if parent == NULL {
        root := NULL;
      } else if leftNode {
        mem := mem[parent := mem[parent].(leftChild := false, left := mem[node].left, balance := mem[parent].balance + 1)];
      } else {
        mem := mem[parent := mem[parent].(rightChild := false, right := mem[node].right, balance := mem[parent].balance - 1)];
      }
    } else {
      var tmp := NodeNext(mem, node, t, Succ(c, NULL));
      ThinThread(mem, c, t);
      mem := mem[tmp := mem[tmp].(left := mem[node].left)];
      m1 := mem;
      if parent == NULL {
        root := mem[node].right;
      } else if leftNode {
        mem := mem[parent := mem[parent].(left := mem[node].right, balance := mem[parent].balance + 1)];
      } else {
        mem := mem[parent := mem[parent].(right := mem[node].right, balance := mem[parent].balance - 1)];
      }
    }
    mem := mem - {node};
    ThinDropped(mem0, m1, mem, root, parent, c, t);
  }

  /** Unlinking a node with a left child only. */
  method UnlinkNoRight(mem0: Memory, node: Ptr, parent: Ptr, leftNode: bool, root0: Ptr, ghost c: Ctx, ghost t: Tree)
    returns (mem: Memory, root: Ptr)
    requires Focus(mem0, c, t, Height(t)) && Balanced(t) && t.Branch? && t.l.Branch? && t.r == Leaf && node == t.n
    requires parent == Parent(c) && (leftNode <==> c.InLeft?) && root0 == RootOf(c, t.n)
    ensures Unlinked(mem, root, parent, c, t, OnlyChild(t))
  {
    hide Rep, CtxRep, Focus, Balanced, Unlinked, Height, Nodes;
    mem, root := mem0, root0;
    ThinFields(mem, c, t);
    var tmp := NodePrevious(mem, node, t, Pred(c, NULL));
    ThinThread(mem, c, t);
    mem := mem[tmp := mem[tmp].(right := mem[node].right)];
    ghost var m1 := mem;
    if parent == NULL {
      root := mem[node].left;
    } else if leftNode {
      mem := mem[parent := mem[parent].(left := mem[node].left, balance := mem[parent].balance + 1)];
    } else {
      mem := mem[parent := mem[parent].(right := mem[node].left, balance := mem[parent].balance - 1)];
    }
    mem := mem - {node};
    ThinDropped(mem0, m1, mem, root, parent, c, t);
  }
}
