/** Rotations and rebalancing of one node. */
module GTreeRotate {
  import opened GTreeShape

  ghost function RotatedLeft(t: Tree): Tree
    requires t.Branch? && t.r.Branch?
  {
    Branch(Branch(t.l, t.n, t.k, t.v, t.r.l), t.r.n, t.r.k, t.r.v, t.r.r)
  }

  ghost function RotatedRight(t: Tree): Tree
    requires t.Branch? && t.l.Branch?
  {
    Branch(t.l.l, t.l.n, t.l.k, t.l.v, Branch(t.l.r, t.n, t.k, t.v, t.r))
  }

  /** Same nodes, same order. */
  ghost predicate SameContents(t: Tree, t': Tree) {
    Nodes(t') == Nodes(t) && InOrder(t') == InOrder(t) && Apart(t')
  }

  lemma Regroup<T>(a: seq<T>, x: seq<T>, b: seq<T>, y: seq<T>, c: seq<T>)
    ensures (a + x + b) + y + c == a + x + (b + y + c)
  {
  }

  lemma RotatedLeftSame(t: Tree)
    requires t.Branch? && t.r.Branch? && Apart(t)
    ensures SameContents(t, RotatedLeft(t))
  {
    Regroup(InOrder(t.l), [(t.k, t.v)], InOrder(t.r.l), [(t.r.k, t.r.v)], InOrder(t.r.r));
  }

  lemma RotatedRightSame(t: Tree)
    requires t.Branch? && t.l.Branch? && Apart(t)
    ensures SameContents(t, RotatedRight(t))
  {
    Regroup(InOrder(t.l.l), [(t.l.k, t.l.v)], InOrder(t.l.r), [(t.k, t.v)], InOrder(t.r));
  }

  /** The balance factors of node and child that g_tree_node_rotate_left computes from the old ones. */
  function LeftBalances(a: int, b: int): (int, int) {
    if b <= 0 then
      (a - 1, if a >= 1 then b - 1 else a + b - 2)
    else
      (a - b - 1, if a <= b then a - 2 else b - 1)
  }

  /** ... and those that g_tree_node_rotate_right computes. */
  function RightBalances(a: int, b: int): (int, int) {
    if b <= 0 then
      (a - b + 1, if b > a then b + 1 else a + 2)
    else
      (a + 1, if a <= -1 then b + 1 else a + b + 2)
  }

  /** They are exact for subtrees of any heights x, y, z. */
  lemma LeftBalancesExact(x: int, y: int, z: int)
    ensures LeftBalances(1 + Max(y, z) - x, z - y) == (y - x, z - (1 + Max(x, y)))
  {
  }

  lemma RightBalancesExact(x: int, y: int, z: int)
    ensures RightBalances(z - (1 + Max(x, y)), y - x) == (z - y, 1 + Max(y, z) - x)
  {
  }

  lemma ApartRight(t: Tree)
    requires t.Branch? && t.r.Branch? && Apart(t)
    ensures t.n != t.r.n && t.n !in Nodes(t.l) && t.n !in Nodes(t.r.l) && t.n !in Nodes(t.r.r)
    ensures t.r.n !in Nodes(t.l) && t.r.n !in Nodes(t.r.l) && t.r.n !in Nodes(t.r.r)
  {
    assert t.r.n in Nodes(t.r);
  }

  lemma ApartLeft(t: Tree)
    requires t.Branch? && t.l.Branch? && Apart(t)
    ensures t.n != t.l.n && t.n !in Nodes(t.r) && t.n !in Nodes(t.l.l) && t.n !in Nodes(t.l.r)
    ensures t.l.n !in Nodes(t.r) && t.l.n !in Nodes(t.l.l) && t.l.n !in Nodes(t.l.r)
  {
    assert t.l.n in Nodes(t.l);
  }

  /** A node with its subtrees, linked at the root. */
  ghost predicate RootHolds(m: Memory, t: Tree, p: Ptr, s: Ptr)
    requires t.Branch?
  {
    Holds(m, t.n, Linked(t.k, t.v, Root(t.l), Height(t.l), Root(t.r), Height(t.r), p, s))
  }

  lemma RotatedLeftRep(m: Memory, m': Memory, t: Tree, p: Ptr, s: Ptr)
    requires t.Branch? && t.r.Branch? && Rep(m, t, p, s) && Apart(t)
    requires OnlyChanged(m, m', {t.n, t.r.n})
    requires RootHolds(m', RotatedLeft(t).l, p, t.r.n) && RootHolds(m', RotatedLeft(t), p, s)
    ensures Rep(m', RotatedLeft(t), p, s)
  {
    ApartRight(t);
    Open(m, t, p, s);
    Open(m, t.r, t.n, s);
    hide Rep, Linked, Apart;
    RepFrame(m, m', t.l, p, t.n);
    RepFrame(m, m', t.r.l, t.n, t.r.n);
    RepFrame(m, m', t.r.r, t.r.n, s);
    Close(m', RotatedLeft(t).l, p, t.r.n);
    Close(m', RotatedLeft(t), p, s);
  }

  lemma RotatedRightRep(m: Memory, m': Memory, t: Tree, p: Ptr, s: Ptr)
    requires t.Branch? && t.l.Branch? && Rep(m, t, p, s) && Apart(t)
    requires OnlyChanged(m, m', {t.n, t.l.n})
    requires RootHolds(m', RotatedRight(t).r, t.l.n, s) && RootHolds(m', RotatedRight(t), p, s)
    ensures Rep(m', RotatedRight(t), p, s)
  {
    ApartLeft(t);
    Open(m, t, p, s);
    Open(m, t.l, p, t.n);
    hide Rep, Linked, Apart;
    RepFrame(m, m', t.l.l, p, t.l.n);
    RepFrame(m, m', t.l.r, t.l.n, t.n);
    RepFrame(m, m', t.r, t.n, s);
    Close(m', RotatedRight(t).r, t.l.n, s);
    Close(m', RotatedRight(t), p, s);
  }

  /** g_tree_node_rotate_left on the memory: links, threads and balance factors. */
  method RotateLeft(mem0: Memory, node: Ptr, ghost t: Tree, ghost p: Ptr, ghost s: Ptr) returns (mem: Memory, right: Ptr)
    requires t.Branch? && t.n == node && t.r.Branch? && Rep(mem0, t, p, s) && Apart(t)
    ensures OnlyChanged(mem0, mem, {t.n, t.r.n})
    ensures right == t.r.n && Rep(mem, RotatedLeft(t), p, s)
  {
    Open(mem0, t, p, s);
    Open(mem0, t.r, node, s);
    ApartRight(t);
    LeftBalancesExact(Height(t.l), Height(t.r.l), Height(t.r.r));
    hide Rep, LeftBalances, Apart, Nodes;
    mem := mem0;
    right := mem[node].right;
    if mem[right].leftChild {
      mem := mem[node := mem[node].(right := mem[right].left)];
    } else {
      mem := mem[node := mem[node].(rightChild := false)];
      mem := mem[right := mem[right].(leftChild := true)];
    }
    mem := mem[right := mem[right].(left := node)];
    var (aBal, bBal) := LeftBalances(mem[node].balance, mem[right].balance);
    mem := mem[right := mem[right].(balance := bBal)];
    mem := mem[node := mem[node].(balance := aBal)];
    RotatedLeftRep(mem0, mem, t, p, s);
  }

  /** g_tree_node_rotate_right. */
  method RotateRight(mem0: Memory, node: Ptr, ghost t: Tree, ghost p: Ptr, ghost s: Ptr) returns (mem: Memory, left: Ptr)
    requires t.Branch? && t.n == node && t.l.Branch? && Rep(mem0, t, p, s) && Apart(t)
    ensures OnlyChanged(mem0, mem, {t.n, t.l.n})
    ensures left == t.l.n && Rep(mem, RotatedRight(t), p, s)
  {
    Open(mem0, t, p, s);
    Open(mem0, t.l, p, node);
    ApartLeft(t);
    RightBalancesExact(Height(t.l.l), Height(t.l.r), Height(t.r));
    hide Rep, RightBalances, Apart, Nodes;
    mem := mem0;
    left := mem[node].left;
    if mem[left].rightChild {
      mem := mem[node := mem[node].(left := mem[left].right)];
    } else {
      mem := mem[node := mem[node].(leftChild := false)];
      mem := mem[left := mem[left].(rightChild := true)];
    }
    mem := mem[left := mem[left].(right := node)];
    var (aBal, bBal) := RightBalances(mem[node].balance, mem[left].balance);
    mem := mem[left := mem[left].(balance := bBal)];
    mem := mem[node := mem[node].(balance := aBal)];
    RotatedRightRep(mem0, mem, t, p, s);
  }

  // ---------------------------------------------------------------- rebalancing

  /** A node that is out of balance by one, above balanced subtrees. */
  ghost predicate Leaning(t: Tree) {
    t.Branch? && Balanced(t.l) && Balanced(t.r) && (Balance(t) == -2 || Balance(t) == 2)
  }

  ghost function TallChild(t: Tree): Tree
    requires t.Branch?
  {
    if Balance(t) < 0 then t.l else t.r
  }

  /** The double rotation first rotates the tall child the other way if it leans inwards. */
  ghost function Straightened(t: Tree): Tree
    requires Leaning(t)
  {
    if Balance(t) < 0 then
      if Balance(t.l) > 0 then t.(l := RotatedLeft(t.l)) else t
    else
      if Balance(t.r) < 0 then t.(r := RotatedRight(t.r)) else t
  }

  ghost function Rebalanced(t: Tree): Tree
    requires Leaning(t)
  {
    var t1 := Straightened(t);
    if Balance(t) < 0 then RotatedRight(t1) else RotatedLeft(t1)
  }

  lemma StraightenedSame(t: Tree)
    requires Leaning(t) && Apart(t)
    ensures SameContents(t, Straightened(t))
  {
    if Balance(t) < 0 && Balance(t.l) > 0 {
      RotatedLeftSame(t.l);
    } else if Balance(t) > 0 && Balance(t.r) < 0 {
      RotatedRightSame(t.r);
    }
  }

  lemma RebalancedSame(t: Tree)
    requires Leaning(t) && Apart(t)
    ensures SameContents(t, Rebalanced(t))
  {
    StraightenedSame(t);
    hide SameContents;
    if Balance(t) < 0 {
      RotatedRightSame(Straightened(t));
    } else {
      RotatedLeftSame(Straightened(t));
    }
  }

  /** The inner rotation keeps the height and leaves the child leaning outwards or level. */
  lemma StraightenedLeft(l: Tree)
    requires l.Branch? && Balanced(l) && Balance(l) == 1
    ensures l.r.Branch? && var m := RotatedLeft(l); Height(m) == Height(l) && Balanced(m.l) && Balanced(m.r)
    ensures var m := RotatedLeft(l); Height(m.l) == Height(l) - 1 && Height(l) - 3 <= Height(m.r) <= Height(l) - 2
  {
  }

  lemma StraightenedRight(r: Tree)
    requires r.Branch? && Balanced(r) && Balance(r) == -1
    ensures r.l.Branch? && var m := RotatedRight(r); Height(m) == Height(r) && Balanced(m.l) && Balanced(m.r)
    ensures var m := RotatedRight(r); Height(m.r) == Height(r) - 1 && Height(r) - 3 <= Height(m.l) <= Height(r) - 2
  {
  }

  lemma RebalancedOk(t: Tree)
    requires Leaning(t)
    ensures Balanced(Rebalanced(t))
    ensures Balance(TallChild(t)) == 0 ==> Height(Rebalanced(t)) == Height(t) && Balance(Rebalanced(t)) != 0
    ensures Balance(TallChild(t)) != 0 ==> Height(Rebalanced(t)) == Height(t) - 1 && Balance(Rebalanced(t)) == 0
  {
    if Balance(t) < 0 {
      if Balance(t.l) > 0 {
        StraightenedLeft(t.l);
      }
    } else {
      if Balance(t.r) < 0 {
        StraightenedRight(t.r);
      }
    }
  }


  /** A new left child of the same height, already linked, takes the place of the old one. */
  lemma ReplaceLeft(m: Memory, m': Memory, t: Tree, l: Tree, p: Ptr, s: Ptr)
    requires t.Branch? && t.l.Branch? && l.Branch? && Rep(m, t, p, s) && Apart(t) && Nodes(l) == Nodes(t.l) && Height(l) == Height(t.l)
    requires Rep(m', l, p, t.n) && OnlyChanged(m, m', Nodes(t.l))
    ensures t.n in m' && Rep(m'[t.n := m'[t.n].(left := l.n)], t.(l := l), p, s)
  {
    Open(m, t, p, s);
    hide Rep;
    var m2 := m'[t.n := m'[t.n].(left := l.n)];
    RepFrame(m', m2, l, p, t.n);
    RepFrame(m, m2, t.r, t.n, s);
    Open(m', l, p, t.n);
    Close(m2, t.(l := l), p, s);
  }

  lemma ReplaceRight(m: Memory, m': Memory, t: Tree, r: Tree, p: Ptr, s: Ptr)
    requires t.Branch? && t.r.Branch? && r.Branch? && Rep(m, t, p, s) && Apart(t) && Nodes(r) == Nodes(t.r) && Height(r) == Height(t.r)
    requires Rep(m', r, t.n, s) && OnlyChanged(m, m', Nodes(t.r))
    ensures t.n in m' && Rep(m'[t.n := m'[t.n].(right := r.n)], t.(r := r), p, s)
  {
    Open(m, t, p, s);
    hide Rep;
    var m2 := m'[t.n := m'[t.n].(right := r.n)];
    RepFrame(m', m2, r, t.n, s);
    RepFrame(m, m2, t.l, p, t.n);
    Open(m', r, t.n, s);
    Close(m2, t.(r := r), p, s);
  }

  /** The two branches of g_tree_node_balance. */
  method RaiseLeft(mem0: Memory, node: Ptr, ghost t: Tree, ghost p: Ptr, ghost s: Ptr) returns (mem: Memory, root: Ptr)
    requires Leaning(t) && t.n == node && Balance(t) < 0 && Rep(mem0, t, p, s) && Apart(t)
    ensures OnlyChanged(mem0, mem, Nodes(t))
    ensures Rebalanced(t).Branch? && root == Rebalanced(t).n && Rep(mem, Rebalanced(t), p, s)
  {
    Open(mem0, t, p, s);
    Open(mem0, t.l, p, node);
    StraightenedSame(t);
    hide Rep, Apart, InOrder;
    mem := mem0;
    if mem[mem[node].left].balance > 0 {
      StraightenedLeft(t.l);
      RotatedLeftSame(t.l);
      var child;
      mem, child := RotateLeft(mem, mem[node].left, t.l, p, node);
      ReplaceLeft(mem0, mem, t, RotatedLeft(t.l), p, s);
      mem := mem[node := mem[node].(left := child)];
    }
    assert OnlyChanged(mem0, mem, Nodes(t));
    mem, root := RotateRight(mem, node, Straightened(t), p, s);
  }

  method RaiseRight(mem0: Memory, node: Ptr, ghost t: Tree, ghost p: Ptr, ghost s: Ptr) returns (mem: Memory, root: Ptr)
    requires Leaning(t) && t.n == node && Balance(t) > 0 && Rep(mem0, t, p, s) && Apart(t)
    ensures OnlyChanged(mem0, mem, Nodes(t))
    ensures Rebalanced(t).Branch? && root == Rebalanced(t).n && Rep(mem, Rebalanced(t), p, s)
  {
    Open(mem0, t, p, s);
    Open(mem0, t.r, node, s);
    StraightenedSame(t);
    hide Rep, Apart, InOrder;
    mem := mem0;
    if mem[mem[node].right].balance < 0 {
      StraightenedRight(t.r);
      RotatedRightSame(t.r);
      var child;
      mem, child := RotateRight(mem, mem[node].right, t.r, node, s);
      ReplaceRight(mem0, mem, t, RotatedRight(t.r), p, s);
      mem := mem[node := mem[node].(right := child)];
    }
    assert OnlyChanged(mem0, mem, Nodes(t));
    mem, root := RotateLeft(mem, node, Straightened(t), p, s);
  }

  /** g_tree_node_balance. */
  method BalanceNode(mem0: Memory, node: Ptr, ghost t: Tree, ghost p: Ptr, ghost s: Ptr) returns (mem: Memory, root: Ptr)
    requires Leaning(t) && t.n == node && Rep(mem0, t, p, s) && Apart(t)
    ensures OnlyChanged(mem0, mem, Nodes(t))
    ensures Rebalanced(t).Branch? && root == Rebalanced(t).n && Rep(mem, Rebalanced(t), p, s)
  {
    Open(mem0, t, p, s);
    if mem0[node].balance < -1 {
      mem, root := RaiseLeft(mem0, node, t, p, s);
    } else {
      mem, root := RaiseRight(mem0, node, t, p, s);
    }
  }
}
