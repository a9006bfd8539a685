/** The threads: stepping from a node to its in-order neighbours. */
module GTreeThreads {
  import opened GTreeShape
  import opened GTreeFocus
  import opened GTreeSearch

  /** The nodes in order. */
  ghost function InNodes(t: Tree): seq<Ptr> {
    if t.Leaf? then [] else InNodes(t.l) + [t.n] + InNodes(t.r)
  }

  ghost function Leftmost(t: Tree): Ptr
    requires t.Branch?
  {
    if t.l.Branch? then Leftmost(t.l) else t.n
  }

  ghost function Rightmost(t: Tree): Ptr
    requires t.Branch?
  {
    if t.r.Branch? then Rightmost(t.r) else t.n
  }

  lemma {:induction false} Ends(t: Tree)
    requires t.Branch?
    ensures |InNodes(t)| > 0 && InNodes(t)[0] == Leftmost(t) && InNodes(t)[|InNodes(t)| - 1] == Rightmost(t)
    ensures Leftmost(t) in Nodes(t) && Rightmost(t) in Nodes(t)
  {
    if t.l.Branch? { Ends(t.l); }
    if t.r.Branch? { Ends(t.r); }
  }

  lemma {:induction false} InNodesAre(t: Tree, x: Ptr)
    ensures x in InNodes(t) <==> x in Nodes(t)
  {
    if t.Branch? {
      InNodesAre(t.l, x);
      InNodesAre(t.r, x);
    }
  }

  lemma {:induction false} InNodesCount(t: Tree)
    ensures |InNodes(t)| == |InOrder(t)|
  {
    if t.Branch? {
      InNodesCount(t.l);
      InNodesCount(t.r);
    }
  }

  /** The left thread of the leftmost node is the predecessor of the whole subtree. */
  lemma {:induction false} SetPred(m: Memory, t: Tree, p: Ptr, p': Ptr, s: Ptr)
    requires t.Branch? && Rep(m, t, p, s) && Apart(t)
    ensures var x := Leftmost(t); x in Nodes(t) && x in m && Rep(m[x := m[x].(left := p')], t, p', s)
    decreases t
  {
    hide Rep;
    Ends(t);
    Open(m, t, p, s);
    var x := Leftmost(t);
    if t.l.Branch? {
      SetPred(m, t.l, p, p', t.n);
      var m' := m[x := m[x].(left := p')];
      RepFrame(m, m', t.r, t.n, s);
      Open(m, t.l, p, t.n);
      Close(m', t, p', s);
    } else {
      var m' := m[x := m[x].(left := p')];
      RepFrame(m, m', t.r, t.n, s);
      LeafRep(m', p', t.n);
      Close(m', t, p', s);
    }
  }

  lemma {:induction false} SetSucc(m: Memory, t: Tree, p: Ptr, s: Ptr, s': Ptr)
    requires t.Branch? && Rep(m, t, p, s) && Apart(t)
    ensures var x := Rightmost(t); x in Nodes(t) && x in m && Rep(m[x := m[x].(right := s')], t, p, s')
    decreases t
  {
    hide Rep;
    Ends(t);
    Open(m, t, p, s);
    var x := Rightmost(t);
    if t.r.Branch? {
      SetSucc(m, t.r, t.n, s, s');
      var m' := m[x := m[x].(right := s')];
      RepFrame(m, m', t.l, p, t.n);
      Open(m, t.r, t.n, s);
      Close(m', t, p, s');
    } else {
      var m' := m[x := m[x].(right := s')];
      RepFrame(m, m', t.l, p, t.n);
      LeafRep(m', t.n, s');
      Close(m', t, p, s');
    }
  }

  lemma LeafRep(m: Memory, p: Ptr, s: Ptr)
    ensures Rep(m, Leaf, p, s)
  {
  }

  /** What the walks read. */
  lemma Fields(m: Memory, t: Tree, p: Ptr, s: Ptr)
    requires t.Branch? && Rep(m, t, p, s)
    ensures t.n != NULL && t.n in m
    ensures m[t.n].leftChild == t.l.Branch? && m[t.n].left == (if t.l.Branch? then t.l.n else p)
    ensures m[t.n].rightChild == t.r.Branch? && m[t.n].right == (if t.r.Branch? then t.r.n else s)
    ensures Rep(m, t.l, p, t.n) && Rep(m, t.r, t.n, s)
  {
    hide Rep;
    Open(m, t, p, s);
    if t.l.Branch? { Open(m, t.l, p, t.n); }
    if t.r.Branch? { Open(m, t.r, t.n, s); }
  }

  method WalkLeft(mem: Memory, start: Ptr, ghost t0: Tree, ghost p: Ptr, ghost s0: Ptr) returns (tmp: Ptr)
    requires t0.Branch? && start == t0.n && Rep(mem, t0, p, s0)
    ensures tmp == Leftmost(t0)
  {
    hide Rep;
    tmp := start;
    ghost var t, s := t0, s0;
    Fields(mem, t, p, s);
    while mem[tmp].leftChild
      invariant t.Branch? && tmp == t.n && Rep(mem, t, p, s) && Leftmost(t) == Leftmost(t0)
      invariant tmp in mem && mem[tmp].leftChild == t.l.Branch?
      decreases t
    {
      Fields(mem, t, p, s);
      tmp := mem[tmp].left;
      t, s := t.l, t.n;
      Fields(mem, t, p, s);
    }
  }

  method WalkRight(mem: Memory, start: Ptr, ghost t0: Tree, ghost p0: Ptr, ghost s: Ptr) returns (tmp: Ptr)
    requires t0.Branch? && start == t0.n && Rep(mem, t0, p0, s)
    ensures tmp == Rightmost(t0)
  {
    hide Rep;
    tmp := start;
    ghost var t, p := t0, p0;
    Fields(mem, t, p, s);
    while mem[tmp].rightChild
      invariant t.Branch? && tmp == t.n && Rep(mem, t, p, s) && Rightmost(t) == Rightmost(t0)
      invariant tmp in mem && mem[tmp].rightChild == t.r.Branch?
      decreases t
    {
      Fields(mem, t, p, s);
      tmp := mem[tmp].right;
      t, p := t.r, t.n;
      Fields(mem, t, p, s);
    }
  }

  /** g_tree_node_next on a node whose right subtree and thread are in place. */
  method NodeNext(mem: Memory, node: Ptr, ghost t: Tree, ghost s: Ptr) returns (tmp: Ptr)
    requires t.Branch? && t.n == node && node in mem && Rep(mem, t.r, node, s)
    requires mem[node].rightChild == t.r.Branch? && mem[node].right == (if t.r.Branch? then t.r.n else s)
    ensures tmp == if t.r.Branch? then Leftmost(t.r) else s
  {
    tmp := mem[node].right;
    if mem[node].rightChild {
      tmp := WalkLeft(mem, tmp, t.r, node, s);
    }
  }

  method NodePrevious(mem: Memory, node: Ptr, ghost t: Tree, ghost p: Ptr) returns (tmp: Ptr)
    requires t.Branch? && t.n == node && node in mem && Rep(mem, t.l, p, node)
    requires mem[node].leftChild == t.l.Branch? && mem[node].left == (if t.l.Branch? then t.l.n else p)
    ensures tmp == if t.l.Branch? then Rightmost(t.l) else p
  {
    tmp := mem[node].left;
    if mem[node].leftChild {
      tmp := WalkRight(mem, tmp, t.l, p, node);
    }
  }
}
