/** Nodes of the threaded AVL tree and what it means that they form one. */
module GTreeShape {

  /** A key: what it is, and what key_compare sees of it. */
  datatype Key = Key(id: nat, rank: int)

  type Value = int

  /** An address; 0 is NULL. */
  type Ptr = nat

  const NULL: Ptr := 0

  /** A GTreeNode. */
  datatype Node = Node(key: Key, value: Value, left: Ptr, right: Ptr, balance: int, leftChild: bool, rightChild: bool)

  /** The allocated nodes. Following a pointer to a node that was freed is an error. */
  type Memory = map<Ptr, Node>

  /** The shape of a tree, with the contents of its nodes. For the proof only. */
  datatype Tree = Leaf | Branch(l: Tree, n: Ptr, k: Key, v: Value, r: Tree)

  ghost function Root(t: Tree): Ptr {
    if t.Branch? then t.n else NULL
  }

  function Max(a: int, b: int): int { if a < b then b else a }

  ghost function Height(t: Tree): nat {
    if t.Leaf? then 0 else 1 + Max(Height(t.l), Height(t.r))
  }

  ghost function Nodes(t: Tree): set<Ptr> {
    if t.Leaf? then {} else Nodes(t.l) + {t.n} + Nodes(t.r)
  }

  /** Keys and values in order. */
  ghost function InOrder(t: Tree): seq<(Key, Value)> {
    if t.Leaf? then [] else InOrder(t.l) + [(t.k, t.v)] + InOrder(t.r)
  }

  /** No node occurs twice. */
  ghost predicate Apart(t: Tree) {
    t.Branch? ==> t.n !in Nodes(t.l) && t.n !in Nodes(t.r) && Nodes(t.l) !! Nodes(t.r) && Apart(t.l) && Apart(t.r)
  }

  ghost function Balance(t: Tree): int {
    if t.Leaf? then 0 else Height(t.r) - Height(t.l)
  }

  ghost predicate Balanced(t: Tree) {
    t.Branch? ==> -1 <= Balance(t) <= 1 && Balanced(t.l) && Balanced(t.r)
  }

  /** The fields of a node with children `l` and `r` of heights `hl` and `hr`, and with threads to
      `p` and `s` where there is no child. */
  ghost function Linked(k: Key, v: Value, l: Ptr, hl: int, r: Ptr, hr: int, p: Ptr, s: Ptr): Node {
    Node(k, v, if l != NULL then l else p, if r != NULL then r else s, hr - hl, l != NULL, r != NULL)
  }

  /** Node `n` is allocated and has these fields. */
  ghost predicate Holds(m: Memory, n: Ptr, node: Node) {
    n != NULL && n in m && m[n] == node
  }

  /** The nodes of `t` are linked as `t` says, where `p` and `s` are the in-order neighbours of
      the whole subtree: every missing child is a thread to the in-order neighbour. */
  ghost predicate Rep(m: Memory, t: Tree, p: Ptr, s: Ptr) {
    t.Branch? ==>
      && Holds(m, t.n, Linked(t.k, t.v, Root(t.l), Height(t.l), Root(t.r), Height(t.r), p, s))
      && Rep(m, t.l, p, t.n)
      && Rep(m, t.r, t.n, s)
  }

  /** Memory `m'` has the nodes of `m`, and only those in `w` may differ. */
  ghost predicate OnlyChanged(m: Memory, m': Memory, w: set<Ptr>) {
    m'.Keys == m.Keys && forall x :: x in m && x !in w ==> m'[x] == m[x]
  }

  lemma {:induction false} RepFrame(m: Memory, m': Memory, t: Tree, p: Ptr, s: Ptr)
    requires Rep(m, t, p, s) && forall x :: x in Nodes(t) && x in m ==> x in m' && m'[x] == m[x]
    ensures Rep(m', t, p, s)
    decreases t
  {
    if t.Branch? {
      RepFrame(m, m', t.l, p, t.n);
      RepFrame(m, m', t.r, t.n, s);
    }
  }

  lemma Open(m: Memory, t: Tree, p: Ptr, s: Ptr)
    requires t.Branch? && Rep(m, t, p, s)
    ensures Holds(m, t.n, Linked(t.k, t.v, Root(t.l), Height(t.l), Root(t.r), Height(t.r), p, s))
    ensures Rep(m, t.l, p, t.n) && Rep(m, t.r, t.n, s)
  {
  }

  lemma Close(m: Memory, t: Tree, p: Ptr, s: Ptr)
    requires t.Branch? && Holds(m, t.n, Linked(t.k, t.v, Root(t.l), Height(t.l), Root(t.r), Height(t.r), p, s))
    requires Rep(m, t.l, p, t.n) && Rep(m, t.r, t.n, s)
    ensures Rep(m, t, p, s)
  {
  }

  // ---------------------------------------------------------------- contexts

  /** A tree with a hole: what surrounds the current node on the way down. */
  datatype Ctx = Top
               | InLeft(up: Ctx, n: Ptr, k: Key, v: Value, r: Tree)
               | InRight(up: Ctx, l: Tree, n: Ptr, k: Key, v: Value)

  ghost function Plug(c: Ctx, t: Tree): Tree {
    match c
    case Top => t
    case InLeft(up, n, k, v, r) => Plug(up, Branch(t, n, k, v, r))
    case InRight(up, l, n, k, v) => Plug(up, Branch(l, n, k, v, t))
  }

  /** The in-order neighbours of the hole, when those of the whole are `p` and `s`. */
  ghost function Pred(c: Ctx, p: Ptr): Ptr {
    match c
    case Top => p
    case InLeft(up, _, _, _, _) => Pred(up, p)
    case InRight(_, _, n, _, _) => n
  }

  ghost function Succ(c: Ctx, s: Ptr): Ptr {
    match c
    case Top => s
    case InLeft(_, n, _, _, _) => n
    case InRight(up, _, _, _, _) => Succ(up, s)
  }

  ghost function CtxNodes(c: Ctx): set<Ptr> {
    match c
    case Top => {}
    case InLeft(up, n, _, _, r) => CtxNodes(up) + {n} + Nodes(r)
    case InRight(up, l, n, _, _) => CtxNodes(up) + {n} + Nodes(l)
  }

  ghost predicate CtxApart(c: Ctx) {
    match c
    case Top => true
    case InLeft(up, n, _, _, r) => n !in CtxNodes(up) && n !in Nodes(r) && Nodes(r) !! CtxNodes(up) && Apart(r) && CtxApart(up)
    case InRight(up, l, n, _, _) => n !in CtxNodes(up) && n !in Nodes(l) && Nodes(l) !! CtxNodes(up) && Apart(l) && CtxApart(up)
  }

  ghost predicate CtxBalanced(c: Ctx, h: int) {
    match c
    case Top => true
    case InLeft(up, _, _, _, r) => -1 <= Height(r) - h <= 1 && Balanced(r) && CtxBalanced(up, 1 + Max(h, Height(r)))
    case InRight(up, l, _, _, _) => -1 <= h - Height(l) <= 1 && Balanced(l) && CtxBalanced(up, 1 + Max(h, Height(l)))
  }

  /** The nodes around the hole are linked as `c` says, for a hole that is filled with a subtree of
      height `h` whose root is `root` (NULL if there is none). */
  ghost predicate CtxRep(m: Memory, c: Ctx, root: Ptr, h: int, p: Ptr, s: Ptr) {
    match c
    case Top => true
    case InLeft(up, n, k, v, r) =>
      && Holds(m, n, Linked(k, v, root, h, Root(r), Height(r), Pred(up, p), Succ(up, s)))
      && Rep(m, r, n, Succ(up, s))
      && CtxRep(m, up, n, 1 + Max(h, Height(r)), p, s)
    case InRight(up, l, n, k, v) =>
      && Holds(m, n, Linked(k, v, Root(l), Height(l), root, h, Pred(up, p), Succ(up, s)))
      && Rep(m, l, Pred(up, p), n)
      && CtxRep(m, up, n, 1 + Max(h, Height(l)), p, s)
  }

  lemma {:induction false} CtxRepFrame(m: Memory, m': Memory, c: Ctx, root: Ptr, h: int, p: Ptr, s: Ptr)
    requires CtxRep(m, c, root, h, p, s) && forall x :: x in CtxNodes(c) && x in m ==> x in m' && m'[x] == m[x]
    ensures CtxRep(m', c, root, h, p, s)
    decreases c
  {
    hide Linked;
    match c
    case Top =>
    case InLeft(up, n, k, v, r) =>
      RepFrame(m, m', r, n, Succ(up, s));
      CtxRepFrame(m, m', up, n, 1 + Max(h, Height(r)), p, s);
    case InRight(up, l, n, k, v) =>
      RepFrame(m, m', l, Pred(up, p), n);
      CtxRepFrame(m, m', up, n, 1 + Max(h, Height(l)), p, s);
  }

  /** The entries before and after the hole. */
  ghost function Before(c: Ctx): seq<(Key, Value)> {
    match c
    case Top => []
    case InLeft(up, _, _, _, _) => Before(up)
    case InRight(up, l, _, k, v) => Before(up) + InOrder(l) + [(k, v)]
  }

  ghost function After(c: Ctx): seq<(Key, Value)> {
    match c
    case Top => []
    case InLeft(up, _, k, v, r) => [(k, v)] + InOrder(r) + After(up)
    case InRight(up, _, _, _, _) => After(up)
  }

  lemma {:induction false} PlugInOrder(c: Ctx, t: Tree)
    ensures InOrder(Plug(c, t)) == Before(c) + InOrder(t) + After(c)
    decreases c
  {
    match c
    case Top =>
    case InLeft(up, n, k, v, r) =>
      PlugInOrder(up, Branch(t, n, k, v, r));
    case InRight(up, l, n, k, v) =>
      PlugInOrder(up, Branch(l, n, k, v, t));
  }

  lemma {:induction false} PlugNodes(c: Ctx, t: Tree)
    ensures Nodes(Plug(c, t)) == CtxNodes(c) + Nodes(t)
    decreases c
  {
    match c
    case Top =>
    case InLeft(up, n, k, v, r) =>
      PlugNodes(up, Branch(t, n, k, v, r));
    case InRight(up, l, n, k, v) =>
      PlugNodes(up, Branch(l, n, k, v, t));
  }

  /** A tree is well linked when the subtree in the hole and its surroundings are. */
  lemma {:induction false} PlugRep(m: Memory, c: Ctx, t: Tree, p: Ptr, s: Ptr)
    requires CtxRep(m, c, Root(t), Height(t), p, s) && Rep(m, t, Pred(c, p), Succ(c, s))
    ensures Rep(m, Plug(c, t), p, s)
    decreases c
  {
    hide Linked, Rep;
    match c
    case Top =>
    case InLeft(up, n, k, v, r) =>
      Close(m, Branch(t, n, k, v, r), Pred(up, p), Succ(up, s));
      PlugRep(m, up, Branch(t, n, k, v, r), p, s);
    case InRight(up, l, n, k, v) =>
      Close(m, Branch(l, n, k, v, t), Pred(up, p), Succ(up, s));
      PlugRep(m, up, Branch(l, n, k, v, t), p, s);
  }

  lemma {:induction false} PlugApart(c: Ctx, t: Tree)
    requires CtxApart(c) && Apart(t) && Nodes(t) !! CtxNodes(c)
    ensures Apart(Plug(c, t))
    decreases c
  {
    match c
    case Top =>
    case InLeft(up, n, k, v, r) =>
      PlugApart(up, Branch(t, n, k, v, r));
    case InRight(up, l, n, k, v) =>
      PlugApart(up, Branch(l, n, k, v, t));
  }

  lemma {:induction false} PlugBalanced(c: Ctx, t: Tree)
    requires CtxBalanced(c, Height(t)) && Balanced(t)
    ensures Balanced(Plug(c, t))
    decreases c
  {
    match c
    case Top =>
    case InLeft(up, n, k, v, r) =>
      PlugBalanced(up, Branch(t, n, k, v, r));
    case InRight(up, l, n, k, v) =>
      PlugBalanced(up, Branch(l, n, k, v, t));
  }
}
