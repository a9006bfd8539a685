/** GTree: a balanced binary tree as an ordered map. */
module GTrees {
  import opened GTreeShape
  import opened GTreeFocus
  import opened GTreeEntries
  import opened GTreeHeight
  import opened GTreeSearch
  import opened GTreeInsert
  import opened GTreeRemove
  import opened GTreeThreads
  import opened GTreeSpine
  import opened GTreeSplice
  import GTreeWalk

  // ------------------------------------------------------- g_tree_remove_internal

  lemma DelInMiddle(b: Entries, x: Entries, e: (Key, Value), y: Entries, a: Entries)
    requires AllBelow(b + x, e.0.rank)
    ensures Del(b + (x + [e] + y) + a, e.0.rank) == b + (x + y) + a
  {
    hide Del;
    assert b + (x + [e] + y) + a == (b + x) + [e] + (y + a);
    DelAt(b + x, e, y + a);
    assert b + (x + y) + a == (b + x) + (y + a);
  }

  /** Taking the node in focus out of the order. */
  lemma RemovedEntries(m: Memory, w: Tree, c: Ctx, t: Tree)
    requires t.Branch? && Reached(m, w, c, t, t.k.rank)
    ensures Before(c) + (InOrder(t.l) + InOrder(t.r)) + After(c) == Del(InOrder(w), t.k.rank)
    ensures |Del(InOrder(w), t.k.rank)| == |InOrder(w)| - 1
  {
    hide Focus, Balanced, Sorted, AllBelow, AllAbove, Del, Plug, Before, After;
    Compared(m, w, c, t, t.k.rank);
    PlugInOrder(c, t);
    DelInMiddle(Before(c), InOrder(t.l), (t.k, t.v), InOrder(t.r), After(c));
  }

  lemma ThinInOrder(c: Ctx, t: Tree)
    requires Thin(t)
    ensures InOrder(Plug(c, OnlyChild(t))) == Before(c) + (InOrder(t.l) + InOrder(t.r)) + After(c)
  {
    hide Plug, Before, After;
    PlugInOrder(c, OnlyChild(t));
    assert InOrder(OnlyChild(t)) == InOrder(t.l) + InOrder(t.r);
  }

  /** Node `node`, found with its path, has at most one child. */
  method RemoveThin(mem0: Memory, path: array<Ptr>, idx: nat, node: Ptr, leftNode: bool, root0: Ptr, ghost w0: Tree, ghost c: Ctx, ghost t: Tree)
    returns (mem: Memory, root: Ptr, ghost w: Tree)
    requires idx < path.Length && OnPath(path[..idx + 1], c)
    requires Thin(t) && Reached(mem0, w0, c, t, t.k.rank) && node == t.n && root0 == Root(w0) && (leftNode <==> c.InLeft?)
    ensures Whole(mem, w) && root == Root(w) && InOrder(w) == Del(InOrder(w0), t.k.rank)
  {
    hide Rep, CtxRep, Focus, Balanced, InOrder, Reached, Whole, Del, Shrunk, Height, Before, After, Above, AboveHeight;
    mem, root := mem0, root0;
    ReachedFields(mem, w0, c, t, t.k.rank);
    RemovedEntries(mem, w0, c, t);
    RootOfPlug(c, t);
    FocusRoot(mem, c, t, Height(t));
    PathStep(path[..idx + 1], c);
    var balance := path[idx];
    if !mem[node].leftChild {
      mem, root := UnlinkNoLeft(mem, node, balance, leftNode, root, c, t);
    } else {
      mem, root := UnlinkNoRight(mem, node, balance, leftNode, root, c, t);
    }
    ThinInOrder(c, t);
    if balance != NULL {
      ThinPlug(c, t);
      assert path[..idx] == path[..idx + 1][..idx];
      mem, root, w := RestoreShrunk(mem, path, idx, balance, root, c.up, Above(c, OnlyChild(t)), AboveHeight(c, Height(t)));
    } else {
      w := OnlyChild(t);
    }
  }

  /** Node `node`, found with its path, has both children: its successor takes its place. */
  method RemoveFull(mem0: Memory, path: array<Ptr>, oldIdx: nat, node: Ptr, parent: Ptr, leftNode: bool, root0: Ptr, ghost w0: Tree, ghost c: Ctx, ghost t: Tree)
    returns (mem: Memory, root: Ptr, ghost w: Tree)
    requires path.Length == MAX_GTREE_HEIGHT && oldIdx <= path.Length && OnPath(path[..oldIdx], c)
    requires t.Branch? && t.l.Branch? && t.r.Branch? && Reached(mem0, w0, c, t, t.k.rank) && node == t.n && root0 == Root(w0)
    requires parent == Parent(c) && (leftNode <==> c.InLeft?) && Balanced(w0) && |InOrder(w0)| < TOO_MANY_NODES
    modifies path
    ensures Whole(mem, w) && root == Root(w) && InOrder(w) == Del(InOrder(w0), t.k.rank)
  {
    hide Rep, CtxRep, Focus, Balanced, InOrder, Reached, Whole, Del, Shrunk, Height, Before, After;
    hide Splicing, SplicedCtx, SplicedTree, SplicedHeight;
    mem, root := mem0, root0;
    ReachedFields(mem, w0, c, t, t.k.rank);
    RemovedEntries(mem, w0, c, t);
    RootOfPlug(c, t);
    FocusRoot(mem, c, t, Height(t));
    var next, nextp, idx;
    ghost var sc, u;
    next, nextp, idx, sc, u := FindSuccessor(mem, path, oldIdx, node, w0, c, t);
    path[oldIdx] := next;
    var balance := path[idx];
    assert path[..idx + 1] == path[..oldIdx] + [next] + path[oldIdx + 1..idx + 1];
    SplicingPath(path[..idx + 1], mem, c, t, sc, u);
    mem, root := Relink(mem, node, next, nextp, parent, leftNode, root, c, t, sc, u);
    assert path[..idx] == path[..idx + 1][..idx];
    mem, root, w := RestoreShrunk(mem, path, idx, balance, root, SplicedCtx(c, t, sc, u), SplicedTree(t, sc, u), SplicedHeight(t, sc, u));
  }

  /** The second half of g_tree_remove_internal: node `node` was found with its path. */
  method RemoveHere(mem0: Memory, path: array<Ptr>, idx0: nat, node: Ptr, root0: Ptr, ghost w0: Tree, ghost c: Ctx, ghost t: Tree)
    returns (mem: Memory, root: Ptr, ghost w: Tree)
    requires path.Length == MAX_GTREE_HEIGHT && idx0 <= path.Length && OnPath(path[..idx0], c)
    requires t.Branch? && Reached(mem0, w0, c, t, t.k.rank) && node == t.n && root0 == Root(w0)
    requires Balanced(w0) && |InOrder(w0)| < TOO_MANY_NODES
    modifies path
    ensures Whole(mem, w) && root == Root(w) && InOrder(w) == Del(InOrder(w0), t.k.rank)
  {
    hide Rep, CtxRep, Focus, Balanced, InOrder, Reached, Whole, Del, Height;
    ReachedFields(mem0, w0, c, t, t.k.rank);
    FocusRoot(mem0, c, t, Height(t));
    PathStep(path[..idx0], c);
    var idx: nat := idx0 - 1;
    var parent := path[idx];
    if c != Top { WhichSide(mem0, c, t, Height(t)); }
    var leftNode := parent != NULL && node == mem0[parent].left;
    if !mem0[node].leftChild || !mem0[node].rightChild {
      mem, root, w := RemoveThin(mem0, path, idx, node, leftNode, root0, w0, c, t);
    } else {
      mem, root, w := RemoveFull(mem0, path, idx + 1, node, parent, leftNode, root0, w0, c, t);
    }
  }

  lemma SplicingPath(path: seq<Ptr>, m: Memory, c: Ctx, t: Tree, sc: Ctx, u: Tree)
    requires Splicing(m, c, t, sc, u) && path == PathOf(c) + [u.n] + SpineNodes(sc)
    ensures u.Branch? && LeftOnly(sc) && OnPath(path[..|path| - 1], SplicedCtx(c, t, sc, u))
    ensures SplicedTree(t, sc, u).Branch? && path[|path| - 1] == SplicedTree(t, sc, u).n
    ensures RootOf(SplicedCtx(c, t, sc, u), SplicedTree(t, sc, u).n) == RootOf(c, u.n)
    ensures InOrder(Plug(SplicedCtx(c, t, sc, u), SplicedTree(t, sc, u))) == Before(c) + (InOrder(t.l) + InOrder(t.r)) + After(c)
  {
    hide Focus, Rep, CtxRep, Balanced, SpineSound, InOrder, Plug;
    SplicedPath(path, c, t, sc, u);
    SplicedInOrder(c, t, sc, u);
  }

  lemma ThinPlug(c: Ctx, t: Tree)
    requires Thin(t) && c != Top
    ensures Plug(c.up, Above(c, OnlyChild(t))) == Plug(c, OnlyChild(t)) && Above(c, OnlyChild(t)).Branch? && Above(c, OnlyChild(t)).n == c.n
  {
  }

  /** g_tree_remove_internal on the memory: the tree afterwards stands for Del. */
  method RemoveInternal(mem0: Memory, root0: Ptr, nnodes0: nat, key: Key, ghost w0: Tree)
    returns (removed: bool, mem: Memory, root: Ptr, nnodes: nat, destroyed: seq<(Key, Value)>, ghost w: Tree)
    requires Whole(mem0, w0) && root0 == Root(w0) && Sorted(InOrder(w0))
    requires nnodes0 == |InOrder(w0)| < TOO_MANY_NODES
    ensures Whole(mem, w) && root == Root(w) && nnodes == |InOrder(w)|
    ensures InOrder(w) == Del(InOrder(w0), key.rank)
    ensures removed <==> key.rank in AsMap(InOrder(w0))
    ensures !removed ==> mem == mem0 && root == root0
    ensures destroyed == if removed then [AsMap(InOrder(w0))[key.rank]] else []
  {
    hide Rep, CtxRep, Focus, Balanced, InOrder, Reached, Whole, Del, AsMap, OnPath, Height;
    mem, root, nnodes, destroyed, w := mem0, root0, nnodes0, [], w0;
    WholeFacts(mem, w);
    ReachedTop(mem, w, key.rank);
    if root == NULL {
      NotThere(mem, w, Top, key.rank);
      return false, mem, root, nnodes, [], w;
    }
    var path := new Ptr[MAX_GTREE_HEIGHT];
    var idx: nat := 0;
    path[idx] := NULL;
    idx := idx + 1;
    var node := root;
    ghost var c, t := Top, w0;
    FirstPath(path[..idx]);
    while true
      invariant idx <= path.Length && OnPath(path[..idx], c)
      invariant Reached(mem0, w0, c, t, key.rank) && t.Branch? && node == t.n
      decreases t
    {
      ReachedFields(mem0, w0, c, t, key.rank);
      var cmp := key.rank - mem[node].key.rank;
      if cmp == 0 {
        break;
      } else if cmp < 0 {
        GoLeft(mem0, w0, c, t, key.rank);
        ghost var c' := InLeft(c, t.n, t.k, t.v, t.r);
        if !mem[node].leftChild {
          NotThere(mem, w, c', key.rank);
          return false, mem, root, nnodes, [], w;
        }
        RoomBelow(mem0, w0, c, t, key.rank, path[..idx]);
        ghost var p := path[..idx];
        path[idx] := node;
        idx := idx + 1;
        PathPush(p, path[..idx], c, c');
        node := mem[node].left;
        c, t := c', t.l;
      } else {
        GoRight(mem0, w0, c, t, key.rank);
        ghost var c' := InRight(c, t.l, t.n, t.k, t.v);
        if !mem[node].rightChild {
          NotThere(mem, w, c', key.rank);
          return false, mem, root, nnodes, [], w;
        }
        RoomBelow(mem0, w0, c, t, key.rank, path[..idx]);
        ghost var p := path[..idx];
        path[idx] := node;
        idx := idx + 1;
        PathPush(p, path[..idx], c, c');
        node := mem[node].right;
        c, t := c', t.r;
      }
    }
    ReachedRank(mem0, w0, c, t, key.rank);
    ReachedFields(mem0, w0, c, t, key.rank);
    RemovedEntries(mem0, w0, c, t);
    destroyed := [(mem[node].key, mem[node].value)];
    mem, root, w := RemoveHere(mem, path, idx, node, root, w0, c, t);
    nnodes := nnodes - 1;
    removed := true;
  }

  lemma WholeFacts(m: Memory, w: Tree)
    requires Whole(m, w)
    ensures Balanced(w) && (Root(w) == NULL <==> w == Leaf)
  {
  }

  /** A search that ends without a node found nothing to remove. */
  lemma NotThere(m: Memory, w: Tree, c: Ctx, rank: int)
    requires Reached(m, w, c, Leaf, rank)
    ensures rank !in AsMap(InOrder(w)) && Del(InOrder(w), rank) == InOrder(w)
  {
    hide Focus, Balanced, Sorted, AllBelow, AllAbove, Del, Plug, Before, After, AsMap;
    ReachedRank(m, w, c, Leaf, rank);
    PlugInOrder(c, Leaf);
    assert Before(c) + [] + After(c) == Before(c) + After(c);
    DelAbsent(Before(c), After(c), rank);
  }

  // ------------------------------------------------------- the tree object

  class GTree {
    var root: Ptr
    var nnodes: nat
    var mem: Memory
    ghost var tree: Tree

    /** Strict order of the keys, exact balance factors from -1 to 1, threads to the in-order
        neighbours, and no node of the tree missing from memory or left over in it. */
    ghost predicate Valid()
      reads this
    {
      Whole(mem, tree) && root == Root(tree) && nnodes == |InOrder(tree)| && Sorted(InOrder(tree))
    }

    ghost function Contents(): Entries
      reads this
    {
      InOrder(tree)
    }

    /** The finite map that the tree stands for. */
    ghost function Map(): map<int, (Key, Value)>
      reads this
    {
      AsMap(InOrder(tree))
    }

    constructor ()
      ensures Valid() && Contents() == [] && Map() == map[]
    {
      root, nnodes, mem, tree := NULL, 0, map[], Leaf;
    }

    /** g_tree_insert and g_tree_replace; `keys` and `values` go to the destroy functions. */
    method Insert(key: Key, value: Value, replace: bool) returns (keys: seq<Key>, values: seq<Value>)
      requires Valid() && nnodes < TOO_MANY_NODES
      modifies this
      ensures Valid() && Contents() == Put(old(Contents()), key, value, replace)
      ensures nnodes == old(nnodes) + if key.rank in old(Map()) then 0 else 1
      ensures Map() == old(Map())[key.rank := (if key.rank in old(Map()) && !replace then old(Map())[key.rank].0 else key, value)]
      ensures keys == DisplacedKey(old(Map()), key, replace) && values == DisplacedValue(old(Map()), key)
      ensures KeysOf(Contents()) + multiset(keys) == KeysOf(old(Contents())) + multiset{key}
      ensures ValuesOf(Contents()) + multiset(values) == ValuesOf(old(Contents())) + multiset{value}
    {
      hide Whole, Put, AsMap, InOrder, Sorted, DisplacedKey, DisplacedValue, KeysOf, ValuesOf;
      PutKeepsOrder(InOrder(tree), key, value, replace);
      PutIsUpdate(InOrder(tree), key, value, replace);
      PutCount(InOrder(tree), key, value, replace);
      NoKeyLost(InOrder(tree), key, value, replace);
      NoValueLost(InOrder(tree), key, value, replace);
      ghost var w;
      mem, root, nnodes, keys, values, w := InsertInternal(mem, root, nnodes, key, value, replace, tree);
      tree := w;
    }

    method Remove(key: Key) returns (removed: bool, destroyed: seq<(Key, Value)>)
      requires Valid() && nnodes < TOO_MANY_NODES
      modifies this
      ensures Valid() && Contents() == Del(old(Contents()), key.rank)
      ensures removed <==> key.rank in old(Map())
      ensures nnodes == old(nnodes) - if removed then 1 else 0
      ensures Map() == old(Map()) - {key.rank}
      ensures destroyed == if removed then [old(Map())[key.rank]] else []
    {
      hide Whole, Del, AsMap, InOrder, Sorted;
      DelIsErase(InOrder(tree), key.rank);
      DelCount(InOrder(tree), key.rank);
      ghost var w;
      removed, mem, root, nnodes, destroyed, w := RemoveInternal(mem, root, nnodes, key, tree);
      tree := w;
    }

    /** g_tree_lookup: the value, or NULL (0) when the key is not there. */
    method Lookup(key: Key) returns (value: Value)
      requires Valid()
      ensures value == if key.rank in Map() then Map()[key.rank].1 else 0
    {
      hide Whole, AsMap, InOrder, Sorted;
      var node := FindNode(mem, root, key, tree);
      value := if node != NULL then mem[node].value else 0;
    }

    /** g_tree_foreach: the entries in ascending order, up to the first where the callback says stop. */
    method Foreach(func: (Key, Value) -> bool) returns (seen: seq<(Key, Value)>)
      requires Valid()
      ensures |seen| <= |Contents()| && seen == Contents()[..|seen|]
      ensures forall i, j :: 0 <= i < j < |seen| ==> seen[i].0.rank < seen[j].0.rank
      ensures forall i :: 0 <= i < |seen| - 1 ==> !func(seen[i].0, seen[i].1)
      ensures |seen| < |Contents()| ==> seen != [] && func(seen[|seen| - 1].0, seen[|seen| - 1].1)
    {
      hide Whole, InOrder;
      seen := GTreeWalk.Foreach(mem, root, func, tree);
    }

    method RemoveAll() returns (destroyed: seq<(Key, Value)>)
      requires Valid()
      modifies this
      ensures Valid() && Contents() == [] && Map() == map[] && nnodes == 0 && destroyed == old(Contents())
    {
      mem, destroyed := GTreeWalk.RemoveAll(mem, root, tree);
      root, nnodes, tree := NULL, 0, Leaf;
    }

    method Height() returns (height: int)
      requires Valid()
      ensures height == GTreeShape.Height(tree)
      ensures nnodes < TOO_MANY_NODES ==> height <= MAX_GTREE_HEIGHT
    {
      height := GTreeWalk.TreeHeight(mem, root, tree);
      if nnodes < TOO_MANY_NODES {
        HeightBound(tree);
      }
    }
  }

  lemma {:induction false} PutCount(s: Entries, key: Key, value: Value, replace: bool)
    requires Sorted(s)
    ensures |Put(s, key, value, replace)| == |s| + if key.rank in AsMap(s) then 0 else 1
  {
    if s != [] && s[0].0.rank < key.rank {
      PutCount(s[1..], key, value, replace);
    } else if s != [] && s[0].0.rank > key.rank {
      AsMapAbove(s, key.rank);
    }
  }

  lemma {:induction false} DelCount(s: Entries, rank: int)
    requires Sorted(s)
    ensures |Del(s, rank)| == |s| - if rank in AsMap(s) then 1 else 0
  {
    if s != [] {
      DelCount(s[1..], rank);
    }
  }

  // ------------------------------------------------------- runs

  datatype Op = Add(key: Key, value: Value) | Replace(key: Key, value: Value) | Delete(key: Key) | Clear

  /** What a run of operations means for a finite map. */
  ghost function Effect(m: map<int, (Key, Value)>, op: Op): map<int, (Key, Value)> {
    match op
    case Add(k, v) => m[k.rank := (if k.rank in m then m[k.rank].0 else k, v)]
    case Replace(k, v) => m[k.rank := (k, v)]
    case Delete(k) => m - {k.rank}
    case Clear => map[]
  }

  ghost function Effects(ops: seq<Op>): map<int, (Key, Value)> {
    if ops == [] then map[] else Effect(Effects(ops[..|ops| - 1]), ops[|ops| - 1])
  }

  /** Operation `i` gave the rank its value, and no later one concerns it. */
  ghost predicate LastPut(ops: seq<Op>, rank: int, i: nat)
    requires i < |ops|
  {
    && (ops[i].Add? || ops[i].Replace?) && ops[i].key.rank == rank
    && forall j :: i < j < |ops| ==> !ops[j].Clear? && ops[j].key.rank != rank
  }

  lemma {:induction false} EffectsAre(ops: seq<Op>, rank: int)
    ensures rank in Effects(ops) ==> exists i :: 0 <= i < |ops| && LastPut(ops, rank, i)
    ensures forall i :: 0 <= i < |ops| && LastPut(ops, rank, i) ==> rank in Effects(ops) && Effects(ops)[rank].1 == ops[i].value
  {
    if ops != [] {
      var n := |ops| - 1;
      var before := ops[..n];
      EffectsAre(before, rank);
      forall i | 0 <= i < n ensures LastPut(ops, rank, i) <==> LastPut(before, rank, i) && !ops[n].Clear? && ops[n].key.rank != rank {
        assert ops[i] == before[i];
        if LastPut(ops, rank, i) {
          assert forall j :: i < j < n ==> before[j] == ops[j];
        }
      }
      if !ops[n].Clear? && ops[n].key.rank == rank {
        assert !ops[n].Delete? ==> LastPut(ops, rank, n);
      } else if rank in Effects(ops) {
        var i :| 0 <= i < |before| && LastPut(before, rank, i);
        assert LastPut(ops, rank, i);
      }
    }
  }

  /** Operation `i` gave the rank its key: a replacement, or an insertion where there was none, after
      which the key was neither replaced nor removed. */
  ghost predicate LastKey(ops: seq<Op>, rank: int, i: nat)
    requires i < |ops|
  {
    && !ops[i].Clear? && ops[i].key.rank == rank
    && (ops[i].Replace? || (ops[i].Add? && rank !in Effects(ops[..i])))
    && forall j :: i < j < |ops| ==> !ops[j].Clear? && (ops[j].Add? || ops[j].key.rank != rank)
  }

  lemma {:induction false} EffectKeys(ops: seq<Op>, rank: int) returns (i: nat)
    requires rank in Effects(ops)
    ensures i < |ops| && LastKey(ops, rank, i) && Effects(ops)[rank].0 == ops[i].key
  {
    var n := |ops| - 1;
    var before, op := ops[..n], ops[n];
    if op.key.rank == rank && (op.Replace? || rank !in Effects(before)) {
      i := n;
    } else {
      i := EffectKeys(before, rank);
      assert before[..i] == ops[..i];
      assert forall j :: i < j < n ==> before[j] == ops[j];
    }
  }

  lemma {:induction false} AsMapSize(s: Entries)
    requires Sorted(s)
    ensures |AsMap(s)| == |s|
  {
    if s != [] {
      AsMapSize(s[1..]);
      AsMapAbove(s[1..], s[0].0.rank);
      assert AsMap(s).Keys == AsMap(s[1..]).Keys + {s[0].0.rank};
    }
  }

  lemma NoEffects()
    ensures Effects([]) == map[]
  {
  }

  lemma EffectsMore(ops: seq<Op>, i: nat)
    requires i < |ops|
    ensures Effects(ops[..i + 1]) == Effect(Effects(ops[..i]), ops[i])
  {
    assert ops[..i + 1][..i] == ops[..i];
  }

  /** One operation acts on the tree as on its map. */
  method Step(t: GTree, op: Op)
    requires t.Valid() && |t.Map()| < TOO_MANY_NODES
    modifies t
    ensures t.Valid() && t.Map() == Effect(old(t.Map()), op)
  {
    hide Put, Del, AsMap, Whole, Sorted, InOrder, DisplacedKey, DisplacedValue, KeysOf, ValuesOf;
    AsMapSize(t.Contents());
    match op {
      case Add(k, v) => var _, _ := t.Insert(k, v, false);
      case Replace(k, v) => var _, _ := t.Insert(k, v, true);
      case Delete(k) => var _, _ := t.Remove(k);
      case Clear => var _ := t.RemoveAll();
    }
  }

  /** Every run of insertions, replacements and removals in which the tree never gets too large
      for its path array keeps it in order and acts as the same run on a finite map. */
  method Run(ops: seq<Op>) returns (t: GTree)
    requires forall i :: 0 <= i < |ops| ==> |Effects(ops[..i])| < TOO_MANY_NODES
    ensures fresh(t) && t.Valid() && t.Map() == Effects(ops)
  {
    hide GTree.Valid, GTree.Map, Effects;
    t := new GTree();
    NoEffects();
    for i := 0 to |ops|
      invariant t.Valid() && t.Map() == Effects(ops[..i]) && fresh(t)
    {
      EffectsMore(ops, i);
      Step(t, ops[i]);
    }
    assert ops[..|ops|] == ops;
  }

  /** A lookup after the run finds the value of the last insertion of the rank, if nothing removed it,
      and NULL (0) otherwise. */
  method RunThenLookup(ops: seq<Op>, key: Key) returns (value: Value)
    requires forall i :: 0 <= i < |ops| ==> |Effects(ops[..i])| < TOO_MANY_NODES
    ensures forall i | 0 <= i < |ops| && (ops[i].Add? || ops[i].Replace?) && ops[i].key.rank == key.rank &&
                       (forall j :: i < j < |ops| ==> !ops[j].Clear? && ops[j].key.rank != key.rank) :: value == ops[i].value
    ensures value == 0 || exists i :: 0 <= i < |ops| && (ops[i].Add? || ops[i].Replace?) && ops[i].key.rank == key.rank && value == ops[i].value &&
                                      forall j :: i < j < |ops| ==> !ops[j].Clear? && ops[j].key.rank != key.rank
  {
    hide GTree.Valid, GTree.Map, Effects;
    var t := Run(ops);
    EffectsAre(ops, key.rank);
    value := t.Lookup(key);
  }
}
