/** Walking a tree along its threads. */
module GTreeWalk {
  import opened GTreeShape
  import opened GTreeEntries
  import opened GTreeSearch
  import opened GTreeThreads

  /** The subtree whose root is the i-th node in order. */
  ghost function SubAt(t: Tree, i: nat): Tree
    requires i < |InNodes(t)|
    ensures SubAt(t, i).Branch?
  {
    var k := |InNodes(t.l)|;
    if i < k then SubAt(t.l, i) else if i == k then t else SubAt(t.r, i - k - 1)
  }

  /** The elements before and after the i-th, where `p` and `s` surround the whole. */
  ghost function After(ns: seq<Ptr>, i: nat, s: Ptr): Ptr
    requires i < |ns|
  {
    if i + 1 < |ns| then ns[i + 1] else s
  }

  ghost function Before(ns: seq<Ptr>, i: nat, p: Ptr): Ptr
    requires i < |ns|
  {
    if i > 0 then ns[i - 1] else p
  }

  lemma StepInto(l: seq<Ptr>, x: Ptr, r: seq<Ptr>, p: Ptr, s: Ptr, i: nat)
    requires i <= |l| + |r|
    ensures i < |l| ==> var ns := l + [x] + r; ns[i] == l[i] && After(ns, i, s) == After(l, i, x) && Before(ns, i, p) == Before(l, i, p)
    ensures i > |l| ==> var ns, j := l + [x] + r, i - |l| - 1; ns[i] == r[j] && After(ns, i, s) == After(r, j, s) && Before(ns, i, p) == Before(r, j, x)
    ensures i == |l| ==> var ns := l + [x] + r; ns[i] == x && After(ns, i, s) == (if r == [] then s else r[0]) && Before(ns, i, p) == (if l == [] then p else l[|l| - 1])
  {
  }

  lemma EndsIf(t: Tree)
    ensures t.Branch? <==> InNodes(t) != []
    ensures t.Branch? ==> InNodes(t)[0] == Leftmost(t) && InNodes(t)[|InNodes(t)| - 1] == Rightmost(t)
  {
    if t.Branch? { Ends(t); }
  }

  /** Child pointers and threads of the i-th node lead to its in-order neighbours. */
  lemma {:induction false} Neighbours(m: Memory, t: Tree, p: Ptr, s: Ptr, i: nat) returns (p': Ptr, s': Ptr)
    requires Rep(m, t, p, s) && i < |InNodes(t)|
    ensures var x := SubAt(t, i); Rep(m, x, p', s') && x.n == InNodes(t)[i]
    ensures var x := SubAt(t, i); After(InNodes(t), i, s) == if x.r.Branch? then Leftmost(x.r) else s'
    ensures var x := SubAt(t, i); Before(InNodes(t), i, p) == if x.l.Branch? then Rightmost(x.l) else p'
    decreases t
  {
    hide Rep, After, Before, Leftmost, Rightmost;
    var k := |InNodes(t.l)|;
    Open(m, t, p, s);
    StepInto(InNodes(t.l), t.n, InNodes(t.r), p, s, i);
    EndsIf(t.l);
    EndsIf(t.r);
    if i < k {
      p', s' := Neighbours(m, t.l, p, t.n, i);
    } else if i == k {
      p', s' := p, s;
    } else {
      p', s' := Neighbours(m, t.r, t.n, s, i - k - 1);
    }
  }

  lemma {:induction false} EntryAt(t: Tree, i: nat)
    requires i < |InNodes(t)|
    ensures |InOrder(t)| == |InNodes(t)| && InOrder(t)[i] == (SubAt(t, i).k, SubAt(t, i).v)
  {
    var k := |InNodes(t.l)|;
    InNodesCount(t);
    InNodesCount(t.l);
    if i < k {
      EntryAt(t.l, i);
    } else if i > k {
      EntryAt(t.r, i - k - 1);
    }
  }

  /** Whatever lies in the right subtree of the i-th node comes after it. */
  lemma {:induction false} RightIsLater(t: Tree, i: nat, y: Ptr)
    requires i < |InNodes(t)| && y in Nodes(SubAt(t, i).r)
    ensures y in InNodes(t)[i + 1..]
    decreases t
  {
    var k := |InNodes(t.l)|;
    if i < k {
      RightIsLater(t.l, i, y);
      var j :| 0 <= j < |InNodes(t.l)[i + 1..]| && InNodes(t.l)[i + 1..][j] == y;
      assert InNodes(t)[i + 1..][j] == y;
    } else if i == k {
      InNodesAre(t.r, y);
      assert InNodes(t)[i + 1..] == InNodes(t.r);
    } else {
      RightIsLater(t.r, i - k - 1, y);
      assert InNodes(t)[i + 1..] == InNodes(t.r)[i - k..];
    }
  }

  lemma {:induction false} NoRepeats(t: Tree, i: nat)
    requires Apart(t) && i < |InNodes(t)|
    ensures InNodes(t)[i] !in InNodes(t)[i + 1..]
    decreases t
  {
    var k := |InNodes(t.l)|;
    var x := InNodes(t)[i];
    var l, r := InNodes(t.l), InNodes(t.r);
    InNodesAre(t.l, x);
    InNodesAre(t.r, x);
    if i < k {
      NoRepeats(t.l, i);
      assert InNodes(t)[i + 1..] == l[i + 1..] + [t.n] + r;
    } else if i == k {
      assert InNodes(t)[i + 1..] == r;
    } else {
      NoRepeats(t.r, i - k - 1);
      assert InNodes(t)[i + 1..] == r[i - k..];
    }
  }

  /** g_tree_node_next of the i-th node; nodes before it may already be gone. */
  method Next(mem: Memory, node: Ptr, ghost m0: Memory, ghost w: Tree, ghost i: nat) returns (next: Ptr)
    requires Rep(m0, w, NULL, NULL) && i < |InNodes(w)| && node == InNodes(w)[i]
    requires Left(mem, m0, InNodes(w)[i..])
    ensures next == After(InNodes(w), i, NULL)
  {
    hide Rep, InNodes, After, Before, SubAt;
    ghost var p, s := Neighbours(m0, w, NULL, NULL, i);
    ghost var x := SubAt(w, i);
    Fields(m0, x, p, s);
    assert InNodes(w)[i..][0] == node;
    forall y | y in Nodes(x.r) && y in m0
      ensures y in mem && mem[y] == m0[y]
    {
      RightIsLater(w, i, y);
      assert InNodes(w)[i + 1..] == InNodes(w)[i..][1..];
    }
    RepFrame(m0, mem, x.r, node, s);
    next := NodeNext(mem, node, x, s);
  }

  method Previous(mem: Memory, node: Ptr, ghost w: Tree, ghost i: nat) returns (previous: Ptr)
    requires Rep(mem, w, NULL, NULL) && i < |InNodes(w)| && node == InNodes(w)[i]
    ensures previous == Before(InNodes(w), i, NULL)
  {
    hide Rep, InNodes, After, Before, SubAt;
    ghost var p, s := Neighbours(mem, w, NULL, NULL, i);
    ghost var x := SubAt(w, i);
    Fields(mem, x, p, s);
    previous := NodePrevious(mem, node, x, p);
  }

  /** The nodes in `nodes` are still allocated and as they were. */
  ghost predicate Left(mem: Memory, m0: Memory, nodes: seq<Ptr>) {
    forall y :: y in nodes && y in m0 ==> y in mem && mem[y] == m0[y]
  }

  method FirstNode(mem: Memory, root: Ptr, ghost w: Tree) returns (tmp: Ptr)
    requires Whole(mem, w) && root == Root(w)
    ensures tmp == if w == Leaf then NULL else Leftmost(w)
  {
    RootNull(mem, w);
    if root == NULL {
      return NULL;
    }
    tmp := WalkLeft(mem, root, w, NULL, NULL);
  }

  lemma FirstIs(w: Tree)
    ensures |InNodes(w)| == 0 <==> w == Leaf
    ensures w.Branch? ==> Leftmost(w) == InNodes(w)[0]
  {
    if w.Branch? { Ends(w); }
  }

  lemma NodeAt(m: Memory, w: Tree, i: nat)
    requires Whole(m, w) && i < |InNodes(w)|
    ensures InNodes(w)[i] != NULL && InNodes(w)[i] in m
    ensures |InOrder(w)| == |InNodes(w)| && InOrder(w)[i] == (m[InNodes(w)[i]].key, m[InNodes(w)[i]].value)
  {
    hide Rep;
    var p, s := Neighbours(m, w, NULL, NULL, i);
    Open(m, SubAt(w, i), p, s);
    EntryAt(w, i);
  }

  /** g_tree_foreach: the callback sees the entries in ascending order until it returns true. */
  method Foreach(mem: Memory, root: Ptr, func: (Key, Value) -> bool, ghost w: Tree) returns (seen: seq<(Key, Value)>)
    requires Whole(mem, w) && root == Root(w)
    ensures |seen| <= |InOrder(w)| && seen == InOrder(w)[..|seen|]
    ensures forall i :: 0 <= i < |seen| - 1 ==> !func(seen[i].0, seen[i].1)
    ensures |seen| < |InOrder(w)| ==> seen != [] && func(seen[|seen| - 1].0, seen[|seen| - 1].1)
  {
    hide Rep, InNodes, InOrder, Whole, Leftmost;
    ghost var s := InOrder(w);
    seen := [];
    InNodesCount(w);
    RootNull(mem, w);
    FirstIs(w);
    if root == NULL {
      assert s == [];
      return;
    }
    var node := FirstNode(mem, root, w);
    NodeAt(mem, w, 0);
    ghost var i: nat := 0;
    while node != NULL
      invariant i <= |s| == |InNodes(w)| && node == (if i < |s| then InNodes(w)[i] else NULL) && (node == NULL ==> i == |s|)
      invariant seen == s[..i] && forall j :: 0 <= j < i ==> !func(s[j].0, s[j].1)
      decreases |s| - i
    {
      NodeAt(mem, w, i);
      seen := seen + [(mem[node].key, mem[node].value)];
      if func(mem[node].key, mem[node].value) {
        return;
      }
      WholeRep(mem, w);
      node := Next(mem, node, mem, w, i);
      i := i + 1;
      if i < |s| { NodeAt(mem, w, i); }
    }
    assert s[..i] == s;
  }

  lemma WholeRep(m: Memory, w: Tree)
    requires Whole(m, w)
    ensures Rep(m, w, NULL, NULL) && Apart(w) && m.Keys == Nodes(w)
  {
  }

  /** Exactly the nodes from the i-th on are still allocated. */
  ghost predicate OnlyLeft(mem: Memory, m0: Memory, n: seq<Ptr>, i: nat) {
    i <= |n| && Left(mem, m0, n[i..]) && forall y :: y in mem ==> y in n[i..]
  }

  lemma AllLeft(m: Memory, w: Tree)
    requires Whole(m, w)
    ensures OnlyLeft(m, m, InNodes(w), 0)
  {
    forall y { InNodesAre(w, y); }
    assert InNodes(w)[0..] == InNodes(w);
  }

  lemma FreeOne(mem: Memory, m0: Memory, n: seq<Ptr>, i: nat)
    requires OnlyLeft(mem, m0, n, i) && i < |n| && n[i] !in n[i + 1..] && n[i] in m0
    ensures Left(mem, m0, n[i..]) && n[i] in mem && mem[n[i]] == m0[n[i]]
    ensures OnlyLeft(mem - {n[i]}, m0, n, i + 1)
  {
    assert n[i..][0] == n[i] && n[i..] == [n[i]] + n[i + 1..];
  }

  lemma NoneLeft(mem: Memory, m0: Memory, n: seq<Ptr>)
    requires OnlyLeft(mem, m0, n, |n|)
    ensures mem == map[]
  {
    assert n[|n|..] == [];
  }

  /** g_tree_remove_all: frees every node, reading none after it was freed, and passes every entry
      to the destroy functions once, in order. */
  method RemoveAll(mem0: Memory, root: Ptr, ghost w: Tree) returns (mem: Memory, destroyed: seq<(Key, Value)>)
    requires Whole(mem0, w) && root == Root(w)
    ensures mem == map[] && destroyed == InOrder(w)
  {
    hide Rep, InNodes, InOrder, Whole, Leftmost, Apart, OnlyLeft, Left;
    mem := mem0;
    destroyed := [];
    ghost var n := InNodes(w);
    InNodesCount(w);
    FirstIs(w);
    WholeRep(mem0, w);
    AllLeft(mem0, w);
    var node := FirstNode(mem, root, w);
    if w.Branch? { NodeAt(mem0, w, 0); }
    ghost var i: nat := 0;
    while node != NULL
      invariant i <= |n| && node == (if i < |n| then n[i] else NULL) && (node == NULL ==> i == |n|)
      invariant OnlyLeft(mem, mem0, n, i)
      invariant destroyed == InOrder(w)[..i]
      decreases |n| - i
    {
      NodeAt(mem0, w, i);
      NoRepeats(w, i);
      FreeOne(mem, mem0, n, i);
      var next := Next(mem, node, mem0, w, i);
      destroyed := destroyed + [(mem[node].key, mem[node].value)];
      mem := mem - {node};
      node := next;
      i := i + 1;
      if i < |n| { NodeAt(mem0, w, i); }
    }
    NoneLeft(mem, mem0, n);
  }

  /** g_tree_height. */
  method TreeHeight(mem: Memory, root: Ptr, ghost w: Tree) returns (height: int)
    requires Whole(mem, w) && root == Root(w)
    ensures height == Height(w)
  {
    hide Rep;
    RootNull(mem, w);
    if root == NULL {
      return 0;
    }
    height := 0;
    var node := root;
    ghost var t, s: Ptr := w, NULL;
    while true
      invariant t.Branch? && node == t.n && Rep(mem, t, NULL, s) && height + Height(t) == Height(w)
      decreases t
    {
      Fields(mem, t, NULL, s);
      Open(mem, t, NULL, s);
      height := height + 1 + Max(mem[node].balance, 0);
      if !mem[node].leftChild {
        return;
      }
      node := mem[node].left;
      t, s := t.l, t.n;
    }
  }
}
