/** Going down from the root towards a key. */
module GTreeSearch {
  import opened GTreeShape
  import opened GTreeFocus
  import opened GTreeEntries
  import opened GTreeHeight

  /** A whole tree in memory. */
  ghost predicate Whole(m: Memory, t: Tree) {
    && Rep(m, t, NULL, NULL) && Apart(t) && Balanced(t)
    && m.Keys == Nodes(t) && NULL !in m
  }

  /** The search for `rank` in the whole tree `w` has reached subtree `t`: everything before it is
      lower and everything after it is higher. */
  ghost predicate Reached(m: Memory, w: Tree, c: Ctx, t: Tree, rank: int) {
    && Focus(m, c, t, Height(t)) && Balanced(t)
    && Plug(c, t) == w && Sorted(InOrder(w))
    && AllBelow(Before(c), rank) && AllAbove(After(c), rank)
  }

  lemma ReachedTop(m: Memory, w: Tree, rank: int)
    requires Whole(m, w) && Sorted(InOrder(w))
    ensures Reached(m, w, Top, w, rank)
  {
  }

  lemma SplitSorted(b: Entries, x: Entries, e: (Key, Value), y: Entries, a: Entries, rank: int)
    requires Sorted(b + (x + [e] + y) + a)
    ensures AllBelow(b, rank) && e.0.rank <= rank ==> AllBelow(b + x, rank)
    ensures AllAbove(a, rank) && rank <= e.0.rank ==> AllAbove(y + a, rank)
    ensures AllBelow(b, rank) && e.0.rank < rank ==> AllBelow(b + x + [e], rank)
    ensures AllAbove(a, rank) && rank < e.0.rank ==> AllAbove([e] + y + a, rank)
  {
    var s := b + (x + [e] + y) + a;
    assert s[|b| + |x|] == e;
    assert forall i :: 0 <= i < |b + x| ==> s[i] == (b + x)[i];
    assert forall i :: 0 <= i < |y + a| ==> s[|b| + |x| + 1 + i] == (y + a)[i];
    assert forall i :: 0 < i < |[e] + y + a| ==> s[|b| + |x| + i] == ([e] + y + a)[i];
  }

  /** What the comparison with the key of the node in focus tells about all others. */
  lemma Compared(m: Memory, w: Tree, c: Ctx, t: Tree, rank: int)
    requires Reached(m, w, c, t, rank) && t.Branch?
    ensures t.k.rank <= rank ==> AllBelow(Before(c) + InOrder(t.l), rank)
    ensures rank <= t.k.rank ==> AllAbove(InOrder(t.r) + After(c), rank)
    ensures t.k.rank < rank ==> AllBelow(Before(InRight(c, t.l, t.n, t.k, t.v)), rank)
    ensures rank < t.k.rank ==> AllAbove(After(InLeft(c, t.n, t.k, t.v, t.r)), rank)
  {
    hide Focus, Balanced, Sorted, AllBelow, AllAbove, Plug;
    PlugInOrder(c, t);
    SplitSorted(Before(c), InOrder(t.l), (t.k, t.v), InOrder(t.r), After(c), rank);
  }

  lemma GoLeft(m: Memory, w: Tree, c: Ctx, t: Tree, rank: int)
    requires Reached(m, w, c, t, rank) && t.Branch? && rank < t.k.rank
    ensures Reached(m, w, InLeft(c, t.n, t.k, t.v, t.r), t.l, rank)
  {
    hide Focus, Sorted, AllBelow, AllAbove;
    Compared(m, w, c, t, rank);
    DownLeft(m, c, t);
  }

  lemma GoRight(m: Memory, w: Tree, c: Ctx, t: Tree, rank: int)
    requires Reached(m, w, c, t, rank) && t.Branch? && t.k.rank < rank
    ensures Reached(m, w, InRight(c, t.l, t.n, t.k, t.v), t.r, rank)
  {
    hide Focus, Sorted, AllBelow, AllAbove;
    Compared(m, w, c, t, rank);
    DownRight(m, c, t);
  }

  /** The fields that the search reads. */
  lemma NodeFields(m: Memory, c: Ctx, t: Tree)
    requires Focus(m, c, t, Height(t)) && t.Branch?
    ensures t.n != NULL && t.n in m && m[t.n].key == t.k && m[t.n].value == t.v
    ensures m[t.n].leftChild == t.l.Branch? && (t.l.Branch? ==> m[t.n].left == t.l.n)
    ensures m[t.n].rightChild == t.r.Branch? && (t.r.Branch? ==> m[t.n].right == t.r.n)
  {
    hide CtxRep, Separate, CtxBalanced, Rep;
    Open(m, t, Pred(c, NULL), Succ(c, NULL));
    if t.l.Branch? { Open(m, t.l, Pred(c, NULL), t.n); }
    if t.r.Branch? { Open(m, t.r, t.n, Succ(c, NULL)); }
  }

  /** There is room in the path for a node that has a child. */
  lemma PathRoom(c: Ctx, t: Tree, w: Tree)
    requires Plug(c, t) == w && Balanced(w) && |InOrder(w)| < TOO_MANY_NODES && Height(t) >= 2
    ensures |PathOf(c)| < MAX_GTREE_HEIGHT
  {
    HeightBound(w);
    PathFits(c, t);
  }

  lemma ReachedRank(m: Memory, w: Tree, c: Ctx, t: Tree, rank: int)
    requires Reached(m, w, c, t, rank)
    ensures t == Leaf ==> AsMap(InOrder(w)).Keys !! {rank}
    ensures t.Branch? && t.k.rank == rank ==> rank in AsMap(InOrder(w)) && AsMap(InOrder(w))[rank] == (t.k, t.v)
  {
    hide Focus, Balanced, Plug, AsMap;
    PlugInOrder(c, t);
    var s := InOrder(w);
    AsMapKeys(s, rank);
    if t == Leaf {
      assert forall i :: 0 <= i < |s| ==> s[i] == if i < |Before(c)| then Before(c)[i] else After(c)[i - |Before(c)|];
    } else if t.k.rank == rank {
      var i := |Before(c)| + |InOrder(t.l)|;
      assert s[i] == (t.k, t.v);
      AsMapAt(s, i);
    }
  }

  /** g_tree_find_node. */
  method FindNode(mem: Memory, root: Ptr, key: Key, ghost w: Tree) returns (node: Ptr)
    requires Whole(mem, w) && root == Root(w) && Sorted(InOrder(w))
    ensures node == NULL <==> key.rank !in AsMap(InOrder(w))
    ensures node != NULL ==> node in mem && AsMap(InOrder(w))[key.rank] == (mem[node].key, mem[node].value)
  {
    hide Rep, CtxRep, Focus, Balanced, InOrder, AsMap, Reached, Whole;
    node := root;
    ReachedTop(mem, w, key.rank);
    ghost var c, t := Top, w;
    RootNull(mem, w);
    if node == NULL {
      ReachedRank(mem, w, c, t, key.rank);
      return;
    }
    while true
      invariant Reached(mem, w, c, t, key.rank) && t.Branch? && node == t.n
      decreases t
    {
      ReachedFields(mem, w, c, t, key.rank);
      ReachedRank(mem, w, c, t, key.rank);
      var cmp := key.rank - mem[node].key.rank;
      if cmp == 0 {
        return;
      } else if cmp < 0 {
        GoLeft(mem, w, c, t, key.rank);
        c, t := InLeft(c, t.n, t.k, t.v, t.r), t.l;
        if !mem[node].leftChild {
          ReachedRank(mem, w, c, t, key.rank);
          return NULL;
        }
        node := mem[node].left;
      } else {
        GoRight(mem, w, c, t, key.rank);
        c, t := InRight(c, t.l, t.n, t.k, t.v), t.r;
        if !mem[node].rightChild {
          ReachedRank(mem, w, c, t, key.rank);
          return NULL;
        }
        node := mem[node].right;
      }
    }
  }

  lemma RootNull(m: Memory, w: Tree)
    requires Whole(m, w)
    ensures Root(w) == NULL <==> w == Leaf
  {
  }

  lemma ReachedFields(m: Memory, w: Tree, c: Ctx, t: Tree, rank: int)
    requires Reached(m, w, c, t, rank) && t.Branch?
    ensures Focus(m, c, t, Height(t)) && Balanced(t) && Plug(c, t) == w
    ensures t.n != NULL && t.n in m && m[t.n].key == t.k && m[t.n].value == t.v
    ensures m[t.n].leftChild == t.l.Branch? && (t.l.Branch? ==> m[t.n].left == t.l.n)
    ensures m[t.n].rightChild == t.r.Branch? && (t.r.Branch? ==> m[t.n].right == t.r.n)
  {
    NodeFields(m, c, t);
  }
}
