/** Insertion: the new node is linked with its threads, then balance is restored going up. */
module GTreeInsert {
  import opened NodeMemory
  import opened GTreeShape
  import opened GTreeRotate
  import opened GTreeFocus
  import opened GTreeEntries
  import opened GTreeHeight
  import opened GTreeSearch

  // ------------------------------------------------------- restoring balance

  /** The subtree in focus after the rebalancing that its balance factor calls for. */
  ghost function Restored(t: Tree): Tree {
    if Leaning(t) then Rebalanced(t) else t
  }

  /** What a focus says about the node there and the one above it. */
  lemma FocusRoot(m: Memory, c: Ctx, t: Tree, h: int)
    requires Focus(m, c, t, h)
    ensures Apart(t)
    ensures Rep(m, t, Pred(c, NULL), Succ(c, NULL))
    ensures t.Branch? ==> t.n != NULL && t.n in m && m[t.n].balance == Balance(t)
    ensures c != Top ==> c.n != NULL && c.n in m
  {
    if t.Branch? {
      Open(m, t, Pred(c, NULL), Succ(c, NULL));
    }
    if c != Top {
      OpenCtx(m, c, Root(t), h);
    }
  }

  lemma RebalancedInFocus(m: Memory, m': Memory, c: Ctx, t: Tree, h: int)
    requires Focus(m, c, t, h) && Leaning(t)
    requires OnlyChanged(m, m', Nodes(t)) && Rebalanced(t).Branch? && Rep(m', Rebalanced(t), Pred(c, NULL), Succ(c, NULL))
    ensures c != Top ==> c.n in m' && Focus(WithChild(m', c, Rebalanced(t).n), c, Rebalanced(t), h)
    ensures c == Top ==> Focus(m', c, Rebalanced(t), h)
    ensures InOrder(Rebalanced(t)) == InOrder(t)
  {
    hide Rep, CtxRep, Focus, Balanced, Rebalanced;
    FocusRoot(m, c, t, h);
    RebalancedSame(t);
    assert Rebalanced(t).n != NULL by { Open(m', Rebalanced(t), Pred(c, NULL), Succ(c, NULL)); }
    if c == Top {
      RerootTop(m, m', t, Rebalanced(t), h);
    } else {
      Reroot(m, m', c, t, Rebalanced(t), h);
    }
  }

  /** One rebalancing step of the upward loops: the subtree in focus is rotated if need be, and its
      new root linked to the node above or to the tree. */
  method Restore(mem0: Memory, node0: Ptr, bparent: Ptr, leftNode: bool, root0: Ptr, ghost c: Ctx, ghost t: Tree, ghost h: int)
    returns (mem: Memory, node: Ptr, root: Ptr)
    requires Focus(mem0, c, t, h) && t.Branch? && node0 == t.n
    requires bparent == Parent(c) && (leftNode <==> c.InLeft?) && root0 == RootOf(c, t.n)
    requires Balanced(t.l) && Balanced(t.r) && -2 <= Balance(t) <= 2
    ensures Restored(t).Branch? && Focus(mem, c, Restored(t), h)
    ensures node == Restored(t).n && root == RootOf(c, node)
    ensures InOrder(Restored(t)) == InOrder(t)
  {
    hide Rep, CtxRep, Focus, Balanced, Rebalanced, InOrder, Height;
    mem, node, root := mem0, node0, root0;
    FocusRoot(mem, c, t, h);
    if mem[node].balance < -1 || mem[node].balance > 1 {
      mem, node := BalanceNode(mem0, node0, t, Pred(c, NULL), Succ(c, NULL));
      RebalancedInFocus(mem0, mem, c, t, h);
      if bparent == NULL {
        root := node;
      } else if leftNode {
        mem := mem[bparent := mem[bparent].(left := node)];
      } else {
        mem := mem[bparent := mem[bparent].(right := node)];
      }
    }
  }

  // ------------------------------------------------------- going up

  /** During insertion: the subtree in focus may have grown by one over the height `h` that the
      nodes above still count, and may lean by two, but then towards a child that leans too. */
  ghost predicate Grown(m: Memory, c: Ctx, t: Tree, h: int) {
    && Focus(m, c, t, h)
    && GrownShape(t, h)
  }

  ghost predicate GrownShape(t: Tree, h: int) {
    && t.Branch? && Balanced(t.l) && Balanced(t.r) && -2 <= Balance(t) <= 2
    && Height(t) == (if Balance(t) == 0 then h else h + 1)
    && (Balance(t) == 2 || Balance(t) == -2 ==> Balance(TallChild(t)) != 0)
  }

  lemma RestoredGrown(t: Tree, h: int)
    requires GrownShape(t, h)
    ensures GrownShape(Restored(t), h) && Balanced(Restored(t))
  {
    if Leaning(t) {
      RebalancedOk(t);
    }
  }

  /** The balance correction of the parent keeps the picture one level up. */
  lemma GrownUp(c: Ctx, t: Tree, h: int)
    requires c != Top && GrownShape(t, h) && Balanced(t) && Balance(t) != 0 && CtxBalanced(c, h)
    ensures GrownShape(Above(c, t), AboveHeight(c, h))
  {
  }

  /** The path array down to the hole of `c`. */
  ghost predicate OnPath(path: seq<Ptr>, c: Ctx) {
    path == PathOf(c)
  }

  lemma PathStep(path: seq<Ptr>, c: Ctx)
    requires OnPath(path, c)
    ensures |path| > 0 && path[|path| - 1] == Parent(c)
    ensures c != Top ==> OnPath(path[..|path| - 1], c.up)
  {
  }

  /** Once the nodes above count the right height, the whole tree is in order. */
  lemma Finished(m: Memory, c: Ctx, t: Tree, h: int)
    requires Focus(m, c, t, h) && Balanced(t) && (c == Top || h == Height(t))
    ensures Whole(m, Plug(c, t)) && Root(Plug(c, t)) == RootOf(c, Root(t))
  {
    assert CtxBalanced(Top, Height(t)) && CtxRep(m, Top, Root(t), Height(t), NULL, NULL);
    hide Rep, CtxRep, CtxBalanced, Balanced;
    WholeTree(m, c, t);
    RootOfPlug(c, t);
  }

  lemma SameInOrder(c: Ctx, t: Tree, t': Tree)
    requires InOrder(t') == InOrder(t)
    ensures InOrder(Plug(c, t')) == InOrder(Plug(c, t))
  {
    PlugInOrder(c, t);
    PlugInOrder(c, t');
  }

  lemma GrownStep(m: Memory, c: Ctx, t: Tree, h: int, b: int)
    requires Grown(m, c, t, h) && Balanced(t) && Balance(t) != 0 && c != Top && c.n in m
    requires b == if c.InLeft? then m[c.n].balance - 1 else m[c.n].balance + 1
    ensures Grown(m[c.n := m[c.n].(balance := b)], c.up, Above(c, t), AboveHeight(c, h))
  {
    hide Rep, CtxRep, Balanced, CtxBalanced, Separate, Above, AboveHeight;
    GrownUp(c, t, h);
    MoveUp(m, c, t, h, b);
  }

  /** The second loop of g_tree_insert_internal. */
  method RestoreGrown(mem0: Memory, path: array<Ptr>, idx0: nat, node0: Ptr, root0: Ptr, ghost c0: Ctx, ghost t0: Tree, ghost h0: int)
    returns (mem: Memory, root: Ptr, ghost w: Tree)
    requires idx0 <= path.Length && OnPath(path[..idx0], c0)
    requires Grown(mem0, c0, t0, h0) && node0 == t0.n && root0 == RootOf(c0, t0.n)
    ensures Whole(mem, w) && root == Root(w) && InOrder(w) == InOrder(Plug(c0, t0))
  {
    hide Rep, CtxRep, Focus, Balanced, Rebalanced, InOrder, Restored, OnPath;
    mem, root := mem0, root0;
    var idx: nat, node := idx0, node0;
    ghost var c, t, h := c0, t0, h0;
    while true
      invariant idx <= path.Length && OnPath(path[..idx], c)
      invariant Grown(mem, c, t, h) && node == t.n && root == RootOf(c, t.n)
      invariant InOrder(Plug(c, t)) == InOrder(Plug(c0, t0))
      decreases c
    {
      PathStep(path[..idx], c);
      idx := idx - 1;
      var bparent := path[idx];
      FocusRoot(mem, c, t, h);
      if c != Top { WhichSide(mem, c, t, h); }
      var leftNode := bparent != NULL && node == mem[bparent].left;
      RestoredGrown(t, h);
      mem, node, root := Restore(mem, node, bparent, leftNode, root, c, t, h);
      SameInOrder(c, t, Restored(t));
      t := Restored(t);
      FocusRoot(mem, c, t, h);
      if mem[node].balance == 0 || bparent == NULL {
        Finished(mem, c, t, h);
        w := Plug(c, t);
        return;
      }
      GrownStep(mem, c, t, h, if leftNode then mem[bparent].balance - 1 else mem[bparent].balance + 1);
      if leftNode {
        mem := mem[bparent := mem[bparent].(balance := mem[bparent].balance - 1)];
      } else {
        mem := mem[bparent := mem[bparent].(balance := mem[bparent].balance + 1)];
      }
      node := bparent;
      assert path[..idx] == path[..idx + 1][..idx];
      t, h, c := Above(c, t), AboveHeight(c, h), c.up;
    }
  }

  // ------------------------------------------------------- linking the new node

  ghost function NewNode(child: Ptr, key: Key, value: Value): Tree {
    Branch(Leaf, child, key, value, Leaf)
  }

  lemma ApartMore(t: Tree, child: Ptr, key: Key, value: Value)
    requires t.Branch? && Apart(t) && child !in Nodes(t)
    ensures t.l == Leaf ==> var t' := t.(l := NewNode(child, key, value)); Apart(t') && Nodes(t') == Nodes(t) + {child}
    ensures t.r == Leaf ==> var t' := t.(r := NewNode(child, key, value)); Apart(t') && Nodes(t') == Nodes(t) + {child}
  {
    var new_ := NewNode(child, key, value);
    assert Nodes(new_) == {child};
  }

  lemma SeparateMore(m: Memory, m': Memory, c: Ctx, t: Tree, child: Ptr, key: Key, value: Value)
    requires Separate(m, c, t) && t.Branch? && child !in m && child != NULL
    requires m'.Keys == m.Keys + {child}
    ensures t.l == Leaf ==> Separate(m', c, t.(l := NewNode(child, key, value)))
    ensures t.r == Leaf ==> Separate(m', c, t.(r := NewNode(child, key, value)))
  {
    hide CtxApart, Apart, Nodes, CtxNodes;
    ApartMore(t, child, key, value);
  }

  lemma NewNodeGrown(t: Tree, child: Ptr, key: Key, value: Value)
    requires t.Branch? && Balanced(t)
    ensures t.l == Leaf ==> GrownShape(t.(l := NewNode(child, key, value)), Height(t))
    ensures t.r == Leaf ==> GrownShape(t.(r := NewNode(child, key, value)), Height(t))
  {
    assert Height(NewNode(child, key, value)) == 1 && Balanced(NewNode(child, key, value));
  }

  lemma NewNodeRep(m: Memory, child: Ptr, key: Key, value: Value, p: Ptr, s: Ptr)
    requires Holds(m, child, Node(key, value, p, s, 0, false, false))
    ensures Rep(m, NewNode(child, key, value), p, s)
  {
  }

  /** Everything but the node in focus keeps its fields. */
  lemma AroundFocus(m: Memory, m': Memory, c: Ctx, t: Tree, h: int)
    requires Focus(m, c, t, h) && t.Branch?
    requires forall x :: x in m && x != t.n ==> x in m' && m'[x] == m[x]
    ensures CtxRep(m', c, t.n, h, NULL, NULL)
    ensures Rep(m', t.l, Pred(c, NULL), t.n) && Rep(m', t.r, t.n, Succ(c, NULL))
  {
    FocusRoot(m, c, t, h);
    Open(m, t, Pred(c, NULL), Succ(c, NULL));
    assert t.n in Nodes(t) && t.n !in Nodes(t.l) && t.n !in Nodes(t.r) && t.n !in CtxNodes(c);
    hide Rep, CtxRep, Apart, CtxApart, Nodes, CtxNodes;
    CtxRepFrame(m, m', c, t.n, h, NULL, NULL);
    RepFrame(m, m', t.l, Pred(c, NULL), t.n);
    RepFrame(m, m', t.r, t.n, Succ(c, NULL));
  }

  /** The new left child has the threads that its place calls for. */
  lemma LinkedLeft(m: Memory, m': Memory, c: Ctx, t: Tree, child: Ptr, key: Key, value: Value)
    requires Focus(m, c, t, Height(t)) && Balanced(t) && t.Branch? && t.l == Leaf && t.n in m
    requires child != NULL && child !in m
    requires m' == m[child := Node(key, value, m[t.n].left, t.n, 0, false, false)][t.n := m[t.n].(left := child, leftChild := true, balance := m[t.n].balance - 1)]
    ensures Grown(m', c, t.(l := NewNode(child, key, value)), Height(t))
  {
    var t', p, s := t.(l := NewNode(child, key, value)), Pred(c, NULL), Succ(c, NULL);
    hide CtxRep, CtxBalanced, Separate, Balanced, Rep, GrownShape;
    SeparateMore(m, m', c, t, child, key, value);
    NewNodeGrown(t, child, key, value);
    Open(m, t, p, s);
    AroundFocus(m, m', c, t, Height(t));
    NewNodeRep(m', child, key, value, p, t.n);
    Close(m', t', p, s);
  }

  lemma LinkedRight(m: Memory, m': Memory, c: Ctx, t: Tree, child: Ptr, key: Key, value: Value)
    requires Focus(m, c, t, Height(t)) && Balanced(t) && t.Branch? && t.r == Leaf && t.n in m
    requires child != NULL && child !in m
    requires m' == m[child := Node(key, value, t.n, m[t.n].right, 0, false, false)][t.n := m[t.n].(right := child, rightChild := true, balance := m[t.n].balance + 1)]
    ensures Grown(m', c, t.(r := NewNode(child, key, value)), Height(t))
  {
    var t', p, s := t.(r := NewNode(child, key, value)), Pred(c, NULL), Succ(c, NULL);
    hide CtxRep, CtxBalanced, Separate, Balanced, Rep, GrownShape;
    SeparateMore(m, m', c, t, child, key, value);
    NewNodeGrown(t, child, key, value);
    Open(m, t, p, s);
    AroundFocus(m, m', c, t, Height(t));
    NewNodeRep(m', child, key, value, t.n, s);
    Close(m', t', p, s);
  }

  // ------------------------------------------------------- g_tree_insert_internal

  /** A node of the same rank gets the new value and perhaps the new key. */
  ghost function Overwrite(t: Tree, key: Key, value: Value, replace: bool): Tree
    requires t.Branch?
  {
    t.(k := if replace then key else t.k, v := value)
  }

  lemma OverwrittenEntries(m: Memory, w: Tree, c: Ctx, t: Tree, key: Key, value: Value, replace: bool)
    requires Reached(m, w, c, t, key.rank) && t.Branch? && t.k.rank == key.rank
    ensures InOrder(Plug(c, Overwrite(t, key, value, replace))) == Put(InOrder(w), key, value, replace)
    ensures |InOrder(Plug(c, Overwrite(t, key, value, replace)))| == |InOrder(w)|
  {
    hide Focus, Balanced, Sorted, AllBelow, AllAbove, Put, Plug, Before, After;
    Compared(m, w, c, t, key.rank);
    PlugInOrder(c, t);
    PlugInOrder(c, Overwrite(t, key, value, replace));
    PutInMiddle(Before(c), InOrder(t.l), (t.k, t.v), InOrder(t.r), After(c), key, value, replace);
  }

  lemma Overwritten(m: Memory, m': Memory, w: Tree, c: Ctx, t: Tree, key: Key, value: Value, replace: bool)
    requires Reached(m, w, c, t, key.rank) && t.Branch? && t.k.rank == key.rank && t.n in m
    requires m' == m[t.n := m[t.n].(key := if replace then key else m[t.n].key, value := value)]
    ensures Whole(m', Plug(c, Overwrite(t, key, value, replace)))
    ensures Root(Plug(c, Overwrite(t, key, value, replace))) == Root(w)
  {
    hide Rep, CtxRep, Separate, CtxBalanced, Sorted, AllBelow, AllAbove, Plug, Whole, Before, After, InOrder;
    var t', p, s := Overwrite(t, key, value, replace), Pred(c, NULL), Succ(c, NULL);
    Open(m, t, p, s);
    AroundFocus(m, m', c, t, Height(t));
    Close(m', t', p, s);
    SameNodes(m, m', c, t, t');
    Finished(m', c, t', Height(t'));
    RootOfPlug(c, t);
  }

  lemma SameNodes(m: Memory, m': Memory, c: Ctx, t: Tree, t': Tree)
    requires Separate(m, c, t) && m'.Keys == m.Keys && t.Branch? && t'.Branch? && t'.n == t.n && t'.l == t.l && t'.r == t.r
    ensures Separate(m', c, t')
  {
  }

  lemma PutInMiddle(b: Entries, x: Entries, e: (Key, Value), y: Entries, a: Entries, key: Key, value: Value, replace: bool)
    requires AllBelow(b + x, key.rank) && e.0.rank == key.rank
    ensures Put(b + (x + [e] + y) + a, key, value, replace) == b + (x + [(if replace then key else e.0, value)] + y) + a
  {
    hide Put;
    var e' := (if replace then key else e.0, value);
    assert b + (x + [e] + y) + a == (b + x) + [e] + (y + a);
    PutOver(b + x, e, y + a, key, value, replace);
    assert b + (x + [e'] + y) + a == (b + x) + [e'] + (y + a);
  }

  /** A new node below the last node of the search is where the order wants it. */
  lemma NewInOrder(m: Memory, w: Tree, c: Ctx, child: Ptr, key: Key, value: Value, replace: bool)
    requires Reached(m, w, c, Leaf, key.rank)
    ensures InOrder(Plug(c, NewNode(child, key, value))) == Put(InOrder(w), key, value, replace)
    ensures |Put(InOrder(w), key, value, replace)| == |InOrder(w)| + 1
  {
    hide Focus, Sorted, AllBelow, AllAbove, Put, Plug, Before, After;
    PlugInOrder(c, Leaf);
    PlugInOrder(c, NewNode(child, key, value));
    PutNew(Before(c), After(c), key, value, replace);
    assert InOrder(NewNode(child, key, value)) == [(key, value)];
    assert Before(c) + [] + After(c) == Before(c) + After(c);
  }

  lemma PathPush(path: seq<Ptr>, longer: seq<Ptr>, c: Ctx, c': Ctx)
    requires OnPath(path, c) && c' != Top && c'.up == c && longer == path + [c'.n]
    ensures OnPath(longer, c')
  {
  }

  lemma RoomBelow(m: Memory, w: Tree, c: Ctx, t: Tree, rank: int, path: seq<Ptr>)
    requires Whole(m, w) && Reached(m, w, c, t, rank) && t.Branch? && (t.l.Branch? || t.r.Branch?)
    requires |InOrder(w)| < TOO_MANY_NODES && OnPath(path, c)
    ensures |path| < MAX_GTREE_HEIGHT
  {
    PathRoom(c, t, w);
  }

  /** g_tree_insert_internal on the memory: the tree afterwards stands for Put. */
  method InsertInternal(mem0: Memory, root0: Ptr, nnodes0: nat, key: Key, value: Value, replace: bool, ghost w0: Tree)
    returns (mem: Memory, root: Ptr, nnodes: nat, keys: seq<Key>, values: seq<Value>, ghost w: Tree)
    requires Whole(mem0, w0) && root0 == Root(w0) && Sorted(InOrder(w0))
    requires nnodes0 == |InOrder(w0)| < TOO_MANY_NODES
    ensures Whole(mem, w) && root == Root(w) && nnodes == |InOrder(w)|
    ensures InOrder(w) == Put(InOrder(w0), key, value, replace)
    ensures keys == DisplacedKey(AsMap(InOrder(w0)), key, replace) && values == DisplacedValue(AsMap(InOrder(w0)), key)
  {
    hide Rep, CtxRep, Focus, Balanced, InOrder, Reached, Whole, Put, Grown, OnPath, AsMap;
    mem, root, nnodes, w := mem0, root0, nnodes0, w0;
    keys, values := [], [];
    RootNull(mem, w);
    ReachedTop(mem, w, key.rank);
    if root == NULL {
      var child := Allocate(mem);
      mem := mem[child := Node(key, value, NULL, NULL, 0, false, false)];
      root := child;
      nnodes := nnodes + 1;
      w := NewNode(child, key, value);
      NewInOrder(mem0, w0, Top, child, key, value, replace);
      ReachedRank(mem0, w0, Top, Leaf, key.rank);
      FirstNode(mem0, child, key, value);
      return;
    }
    var path := new Ptr[MAX_GTREE_HEIGHT];
    var idx: nat := 0;
    path[idx] := NULL;
    idx := idx + 1;
    var node := root;
    ghost var c, t, t' := Top, w0, w0;
    FirstPath(path[..idx]);
    while true
      invariant idx <= path.Length && OnPath(path[..idx], c)
      invariant Reached(mem0, w0, c, t, key.rank) && t.Branch? && node == t.n && mem == mem0 && keys == [] && values == []
      decreases t
    {
      ReachedFields(mem0, w0, c, t, key.rank);
      var cmp := key.rank - mem[node].key.rank;
      if cmp == 0 {
        ReachedRank(mem0, w0, c, t, key.rank);
        values := [mem[node].value];
        mem := mem[node := mem[node].(value := value)];
        if replace {
          keys := [mem[node].key];
          mem := mem[node := mem[node].(key := key)];
        } else {
          keys := [key];
        }
        Overwritten(mem0, mem, w0, c, t, key, value, replace);
        OverwrittenEntries(mem0, w0, c, t, key, value, replace);
        w := Plug(c, Overwrite(t, key, value, replace));
        return;
      } else if cmp < 0 {
        GoLeft(mem0, w0, c, t, key.rank);
        ghost var c' := InLeft(c, t.n, t.k, t.v, t.r);
        if mem[node].leftChild {
          RoomBelow(mem0, w0, c, t, key.rank, path[..idx]);
          ghost var p := path[..idx];
          path[idx] := node;
          idx := idx + 1;
          PathPush(p, path[..idx], c, c');
          node := mem[node].left;
          c, t := c', t.l;
        } else {
          var child := Allocate(mem);
          mem := mem[child := Node(key, value, mem[node].left, node, 0, false, false)];
          mem := mem[node := mem[node].(left := child, leftChild := true, balance := mem[node].balance - 1)];
          nnodes := nnodes + 1;
          LinkedLeft(mem0, mem, c, t, child, key, value);
          NewInOrder(mem0, w0, c', child, key, value, replace);
          ReachedRank(mem0, w0, c', Leaf, key.rank);
          t' := t.(l := NewNode(child, key, value));
          break;
        }
      } else {
        GoRight(mem0, w0, c, t, key.rank);
        ghost var c' := InRight(c, t.l, t.n, t.k, t.v);
        if mem[node].rightChild {
          RoomBelow(mem0, w0, c, t, key.rank, path[..idx]);
          ghost var p := path[..idx];
          path[idx] := node;
          idx := idx + 1;
          PathPush(p, path[..idx], c, c');
          node := mem[node].right;
          c, t := c', t.r;
        } else {
          var child := Allocate(mem);
          mem := mem[child := Node(key, value, node, mem[node].right, 0, false, false)];
          mem := mem[node := mem[node].(right := child, rightChild := true, balance := mem[node].balance + 1)];
          nnodes := nnodes + 1;
          LinkedRight(mem0, mem, c, t, child, key, value);
          NewInOrder(mem0, w0, c', child, key, value, replace);
          ReachedRank(mem0, w0, c', Leaf, key.rank);
          t' := t.(r := NewNode(child, key, value));
          break;
        }
      }
    }
    RootOfPlug(c, t);
    mem, root, w := RestoreGrown(mem, path, idx, node, root, c, t', Height(t));
  }

  lemma FirstNode(m: Memory, child: Ptr, key: Key, value: Value)
    requires child != NULL && Whole(m, Leaf)
    ensures Whole(m[child := Node(key, value, NULL, NULL, 0, false, false)], NewNode(child, key, value))
  {
  }

  lemma FirstPath(path: seq<Ptr>)
    requires path == [NULL]
    ensures OnPath(path, Top)
  {
  }
}
