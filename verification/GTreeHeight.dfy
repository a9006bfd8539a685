/** How many nodes a balanced tree of a given height has, and how deep a path can get. */
module GTreeHeight {
  import opened GTreeShape
  import opened GTreeFocus

  /** Going left (true) and right along `path` from the root leads to a node. */
  ghost predicate Leads(t: Tree, path: seq<bool>) {
    t.Branch? && (path == [] || Leads(if path[0] then t.l else t.r, path[1..]))
  }

  /** The height is the number of nodes on a longest path. */
  lemma {:induction false} NoLonger(t: Tree, path: seq<bool>)
    requires Leads(t, path)
    ensures |path| + 1 <= Height(t)
  {
    if path != [] {
      NoLonger(if path[0] then t.l else t.r, path[1..]);
    }
  }

  lemma {:induction false} Longest(t: Tree) returns (path: seq<bool>)
    requires t.Branch?
    ensures Leads(t, path) && |path| + 1 == Height(t)
  {
    if t.l.Leaf? && t.r.Leaf? {
      path := [];
    } else {
      var left := Height(t.l) >= Height(t.r);
      var rest := Longest(if left then t.l else t.r);
      path := [left] + rest;
      assert path[1..] == rest;
    }
  }

  const MAX_GTREE_HEIGHT: nat := 40

  /** F(43) - 1: the fewest nodes of a balanced tree that is too high for the path array. */
  const TOO_MANY_NODES: nat := 433494436

  function Fib(n: nat): nat {
    if n < 2 then n else Fib(n - 2) + Fib(n - 1)
  }

  lemma FibStep(n: nat)
    ensures Fib(n + 2) == Fib(n) + Fib(n + 1)
  {
  }

  lemma {:induction false} FibMonotone(n: nat, k: nat)
    ensures n <= k ==> Fib(n) <= Fib(k)
  {
    if n < k {
      FibMonotone(n, k - 1);
    }
  }

  lemma FibTenOn(n: nat)
    ensures Fib(n + 10) == 34 * Fib(n) + 55 * Fib(n + 1)
    ensures Fib(n + 11) == 55 * Fib(n) + 89 * Fib(n + 1)
  {
    hide Fib;
    FibStep(n); FibStep(n + 1); FibStep(n + 2); FibStep(n + 3); FibStep(n + 4);
    FibStep(n + 5); FibStep(n + 6); FibStep(n + 7); FibStep(n + 8); FibStep(n + 9);
  }

  lemma TooManyNodes()
    ensures Fib(43) - 1 == TOO_MANY_NODES
  {
    assert Fib(0) == 0 && Fib(1) == 1;
    hide Fib;
    FibTenOn(0);
    FibTenOn(10);
    FibTenOn(20);
    FibTenOn(30);
    FibStep(40);
    FibStep(41);
  }

  lemma EnoughForNone()
    ensures Fib(2) == 1
  {
  }

  /** A balanced tree of height h has at least F(h + 2) - 1 nodes. */
  lemma {:induction false} EnoughNodes(t: Tree)
    requires Balanced(t)
    ensures |InOrder(t)| >= Fib(Height(t) + 2) - 1
  {
    hide Fib;
    if t.Leaf? {
      EnoughForNone();
    } else {
      EnoughNodes(t.l);
      EnoughNodes(t.r);
      FibStep(Height(t));
      FibMonotone(Height(t), Height(t.l) + 2);
      FibMonotone(Height(t), Height(t.r) + 2);
    }
  }

  /** So below F(43) - 1 nodes the height fits the path array. */
  lemma HeightBound(t: Tree)
    requires Balanced(t) && |InOrder(t)| < TOO_MANY_NODES
    ensures Height(t) <= MAX_GTREE_HEIGHT
  {
    hide Fib;
    TooManyNodes();
    EnoughNodes(t);
    FibMonotone(43, Height(t) + 2);
  }

  /** A balanced tree of height h with as few nodes as that. */
  ghost function Sparse(h: nat): Tree {
    if h == 0 then Leaf
    else if h == 1 then Branch(Leaf, 1, Key(0, 0), 0, Leaf)
    else Branch(Sparse(h - 1), 1, Key(0, 0), 0, Sparse(h - 2))
  }

  /** The bound is tight: with F(43) - 1 nodes a balanced tree can already be too high. */
  lemma {:induction false} SparseIs(h: nat)
    ensures Balanced(Sparse(h)) && Height(Sparse(h)) == h && |InOrder(Sparse(h))| == Fib(h + 2) - 1
  {
    if h >= 2 {
      SparseIs(h - 1);
      SparseIs(h - 2);
    }
  }

  lemma BoundIsTight()
    ensures exists t :: Balanced(t) && |InOrder(t)| == TOO_MANY_NODES && Height(t) == MAX_GTREE_HEIGHT + 1
  {
    hide Fib, Sparse;
    TooManyNodes();
    SparseIs(41);
  }

  /** The path to a subtree is no longer than the height above it allows. */
  lemma {:induction false} PathFits(c: Ctx, t: Tree)
    ensures |PathOf(c)| + Height(t) <= Height(Plug(c, t)) + 1
    decreases c
  {
    if c != Top {
      PathFits(c.up, Above(c, t));
    }
  }
}
