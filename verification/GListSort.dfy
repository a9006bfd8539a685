/** g_list_sort: merge sort of a doubly linked list by relinking its nodes. */
module GListSort {
  import opened GListSpec

  /** A GList node. */
  datatype Node = Node(data: Data, next: Ptr, prev: Ptr)

  type Memory = map<Ptr, Node>

  ghost function First(c: Chain, q: Ptr): Ptr {
    if c.Nil? then q else c.p
  }

  ghost function Last(c: Chain): Ptr {
    if c.Nil? then NULL else if c.rest.Nil? then c.p else Last(c.rest)
  }

  /** The nodes are linked forwards in this order, the last one to `q`, and `prev` undoes `next`.
      What the first node has as `prev` is left open. */
  ghost predicate Linked(mem: Memory, c: Chain, q: Ptr) {
    c.Cons? ==>
      && c.p != NULL && c.p in mem && mem[c.p].data == c.d && mem[c.p].next == First(c.rest, q)
      && (c.rest.Cons? ==> c.rest.p in mem && mem[c.rest.p].prev == c.p)
      && Linked(mem, c.rest, q)
  }

  /** A well-formed list. */
  ghost predicate WellFormed(mem: Memory, c: Chain) {
    Linked(mem, c, NULL) && Apart(c) && (c.Cons? ==> mem[c.p].prev == NULL)
  }

  ghost predicate OnlyChanged(mem: Memory, mem': Memory, w: set<Ptr>) {
    mem'.Keys == mem.Keys && forall x :: x in mem && x !in w ==> mem'[x] == mem[x]
  }

  lemma {:induction false} LinkedFrame(mem: Memory, mem': Memory, c: Chain, q: Ptr)
    requires Linked(mem, c, q) && forall x :: x in Nodes(c) && x in mem ==> x in mem' && mem'[x] == mem[x]
    ensures Linked(mem', c, q)
    decreases c
  {
    if c.Cons? {
      LinkedFrame(mem, mem', c.rest, q);
    }
  }

  lemma {:induction false} JoinLinked(mem: Memory, a: Chain, b: Chain, q: Ptr)
    ensures Linked(mem, Join(a, b), q) <==> Linked(mem, a, First(b, q)) && Linked(mem, b, q) && (a.Cons? && b.Cons? ==> b.p in mem && mem[b.p].prev == Last(a))
    ensures First(Join(a, b), q) == First(a, First(b, q))
    ensures Last(Join(a, b)) == if b.Nil? then Last(a) else Last(b)
    decreases a
  {
    if a.Cons? {
      JoinLinked(mem, a.rest, b, q);
    }
  }

  lemma {:induction false} LastIs(mem: Memory, a: Chain, q: Ptr)
    requires a.Cons? && Linked(mem, a, q)
    ensures Last(a) in Nodes(a) && Last(a) in mem && Last(a) != NULL && mem[Last(a)].next == q
    decreases a
  {
    if a.rest.Cons? {
      LastIs(mem, a.rest, q);
    }
  }

  lemma {:induction false} SetNext(mem: Memory, a: Chain, q: Ptr, q': Ptr)
    requires a.Cons? && Linked(mem, a, q) && Apart(a) && Last(a) in mem
    ensures Linked(mem[Last(a) := mem[Last(a)].(next := q')], a, q')
    decreases a
  {
    if a.rest.Cons? {
      LastIs(mem, a.rest, q);
      SetNext(mem, a.rest, q, q');
    }
  }

  lemma SetPrev(mem: Memory, c: Chain, q: Ptr, x: Ptr)
    requires c.Cons? && Linked(mem, c, q) && Apart(c)
    ensures c.p in mem && Linked(mem[c.p := mem[c.p].(prev := x)], c, q)
  {
    LinkedFrame(mem, mem[c.p := mem[c.p].(prev := x)], c.rest, q);
  }

  lemma Open(mem: Memory, c: Chain, q: Ptr)
    requires c.Cons? && Linked(mem, c, q) && Apart(c)
    ensures c.p != NULL && c.p in mem && mem[c.p].data == c.d && mem[c.p].next == First(c.rest, q) && Linked(mem, c.rest, q)
    ensures Apart(c.rest) && c.p !in Nodes(c.rest) && Nodes(c) == {c.p} + Nodes(c.rest)
  {
  }

  // ------------------------------------------------------- g_list_sort_merge

  /** The merge half way: `done` is linked, its last node to `q`, and `a` and `b` remain. */
  ghost predicate Merging(mem: Memory, done: Chain, q: Ptr, a: Chain, b: Chain) {
    && Linked(mem, done, q) && Linked(mem, a, NULL) && Linked(mem, b, NULL)
    && Apart(done) && Apart(a) && Apart(b) && Nodes(done) !! Nodes(a) !! Nodes(b)
    && (done.Cons? ==> mem[done.p].prev == NULL)
  }

  /** The memory after the node `x` is put behind `done`. */
  ghost function Attached(mem: Memory, done: Chain, x: Ptr): Memory
    requires x in mem && (done.Cons? ==> Last(done) in mem)
  {
    var m := if done.Nil? then mem else mem[Last(done) := mem[Last(done)].(next := x)];
    m[x := m[x].(prev := Last(done))]
  }

  lemma AttachLinked(mem: Memory, done: Chain, q: Ptr, x: Ptr, d: Data, next: Ptr)
    requires Linked(mem, done, q) && Apart(done) && x !in Nodes(done) && x != NULL && x in mem && mem[x].data == d && mem[x].next == next
    requires done.Cons? ==> mem[done.p].prev == NULL
    ensures (done.Cons? ==> Last(done) in mem && Last(done) in Nodes(done)) && var m := Attached(mem, done, x); Linked(m, Join(done, Cons(x, d, Nil)), next)
    ensures var m, c := Attached(mem, done, x), Join(done, Cons(x, d, Nil)); c.Cons? && c.p in m && m[c.p].prev == NULL && Last(c) == x
  {
    var one := Cons(x, d, Nil);
    if done.Nil? {
    } else {
      hide Linked;
      LastIs(mem, done, q);
      SetNext(mem, done, q, x);
      var m1 := mem[Last(done) := mem[Last(done)].(next := x)];
      var m := Attached(mem, done, x);
      LinkedFrame(m1, m, done, x);
      Single(m, x, d);
      JoinLinked(m, done, one, next);
    }
  }

  lemma Single(mem: Memory, x: Ptr, d: Data)
    requires x != NULL && x in mem && mem[x].data == d
    ensures Linked(mem, Cons(x, d, Nil), mem[x].next) && Last(Cons(x, d, Nil)) == x
  {
  }

  /** The first node of `a` goes behind `done`. */
  lemma MergingTake(mem: Memory, done: Chain, q: Ptr, a: Chain, b: Chain)
    requires Merging(mem, done, q, a, b) && a.Cons?
    ensures a.p in mem && (done.Cons? ==> Last(done) in mem)
    ensures Merging(Attached(mem, done, a.p), Join(done, Cons(a.p, a.d, Nil)), mem[a.p].next, a.rest, b)
    ensures Last(Join(done, Cons(a.p, a.d, Nil))) == a.p && OnlyChanged(mem, Attached(mem, done, a.p), Nodes(done) + Nodes(a))
  {
    hide Linked, Apart;
    Open(mem, a, NULL);
    AttachLinked(mem, done, q, a.p, a.d, mem[a.p].next);
    var m := Attached(mem, done, a.p);
    LinkedFrame(mem, m, a.rest, NULL);
    LinkedFrame(mem, m, b, NULL);
    SingleApart(a.p, a.d);
    JoinNodes(done, Cons(a.p, a.d, Nil));
  }

  lemma SingleApart(p: Ptr, d: Data)
    ensures Nodes(Cons(p, d, Nil)) == {p} && Apart(Cons(p, d, Nil))
  {
  }

  lemma MergingSwap(mem: Memory, done: Chain, q: Ptr, a: Chain, b: Chain)
    requires Merging(mem, done, q, a, b)
    ensures Merging(mem, done, q, b, a)
  {
    hide Linked, Apart, Nodes;
  }

  /** The rest goes behind `done` as it is. */
  lemma MergingRest(mem: Memory, done: Chain, q: Ptr, a: Chain)
    requires Merging(mem, done, q, a, Nil) && done.Cons? && a.Cons?
    ensures a.p in mem && Last(done) in mem && var m := Attached(mem, done, a.p); Linked(m, Join(done, a), NULL) && First(Join(done, a), NULL) in m && m[First(Join(done, a), NULL)].prev == NULL
    ensures OnlyChanged(mem, Attached(mem, done, a.p), Nodes(done) + Nodes(a))
  {
    hide Linked, Apart;
    Open(mem, a, NULL);
    LastIs(mem, done, q);
    SetNext(mem, done, q, a.p);
    SetPrev(mem, a, NULL, Last(done));
    var m := Attached(mem, done, a.p);
    LinkedFrame(mem[Last(done) := mem[Last(done)].(next := a.p)], m, done, a.p);
    LinkedFrame(mem[a.p := mem[a.p].(prev := Last(done))], m, a, NULL);
    JoinLinked(m, done, a, NULL);
    FirstIn(done);
  }

  lemma FirstIn(c: Chain)
    requires c.Cons?
    ensures c.p in Nodes(c)
  {
  }

  lemma {:induction false} JoinThrough(done: Chain, p: Ptr, d: Data, c: Chain)
    ensures Join(Join(done, Cons(p, d, Nil)), c) == Join(done, Cons(p, d, c))
    decreases done
  {
    if done.Cons? {
      JoinThrough(done.rest, p, d, c);
    }
  }

  lemma MergeOne(done: Chain, a: Chain, b: Chain)
    requires a.Cons? && b.Cons?
    ensures a.d.rank <= b.d.rank ==> Join(Join(done, Cons(a.p, a.d, Nil)), Merge(a.rest, b)) == Join(done, Merge(a, b))
    ensures a.d.rank > b.d.rank ==> Join(Join(done, Cons(b.p, b.d, Nil)), Merge(a, b.rest)) == Join(done, Merge(a, b))
  {
    JoinThrough(done, a.p, a.d, Merge(a.rest, b));
    JoinThrough(done, b.p, b.d, Merge(a, b.rest));
  }

  /** What the loop of the merge keeps. */
  ghost predicate MergeInv(mem0: Memory, a0: Chain, b0: Chain, mem: Memory, done: Chain, q: Ptr, a: Chain, b: Chain) {
    && Merging(mem, done, q, a, b) && OnlyChanged(mem0, mem, Nodes(a0) + Nodes(b0))
    && Join(done, Merge(a, b)) == Merge(a0, b0)
    && Nodes(done) + Nodes(a) + Nodes(b) == Nodes(a0) + Nodes(b0)
    && (done.Nil? ==> a == a0 && b == b0)
  }

  /** The nodes at the front of what remains, and the last one that was taken. */
  lemma MergeFields(mem0: Memory, a0: Chain, b0: Chain, mem: Memory, done: Chain, q: Ptr, a: Chain, b: Chain)
    requires MergeInv(mem0, a0, b0, mem, done, q, a, b)
    ensures a.Cons? ==> a.p in mem && a.p != NULL && mem[a.p].data == a.d && mem[a.p].next == First(a.rest, NULL)
    ensures b.Cons? ==> b.p in mem && b.p != NULL && mem[b.p].data == b.d && mem[b.p].next == First(b.rest, NULL)
    ensures done.Cons? ==> Last(done) in mem && Last(done) != NULL
  {
    hide Linked, Apart, Merge, Join, Nodes;
    if a.Cons? { Open(mem, a, NULL); }
    if b.Cons? { Open(mem, b, NULL); }
    if done.Cons? { LastIs(mem, done, q); }
  }

  lemma TakeFirst(mem0: Memory, a0: Chain, b0: Chain, mem: Memory, done: Chain, q: Ptr, a: Chain, b: Chain)
    requires MergeInv(mem0, a0, b0, mem, done, q, a, b) && a.Cons? && b.Cons? && a.d.rank <= b.d.rank
    ensures a.p in mem && (done.Cons? ==> Last(done) in mem)
    ensures MergeInv(mem0, a0, b0, Attached(mem, done, a.p), Join(done, Cons(a.p, a.d, Nil)), mem[a.p].next, a.rest, b)
    ensures Last(Join(done, Cons(a.p, a.d, Nil))) == a.p && First(Join(done, Cons(a.p, a.d, Nil)), NULL) == First(done, a.p)
  {
    hide Linked, Apart, Attached, Merge, Join, Merging;
    MergeOne(done, a, b);
    MergingTake(mem, done, q, a, b);
    JoinNodes(done, Cons(a.p, a.d, Nil));
    SingleApart(a.p, a.d);
    NotNil(done, a.p, a.d);
  }

  lemma TakeSecond(mem0: Memory, a0: Chain, b0: Chain, mem: Memory, done: Chain, q: Ptr, a: Chain, b: Chain)
    requires MergeInv(mem0, a0, b0, mem, done, q, a, b) && a.Cons? && b.Cons? && a.d.rank > b.d.rank
    ensures b.p in mem && (done.Cons? ==> Last(done) in mem)
    ensures MergeInv(mem0, a0, b0, Attached(mem, done, b.p), Join(done, Cons(b.p, b.d, Nil)), mem[b.p].next, a, b.rest)
    ensures Last(Join(done, Cons(b.p, b.d, Nil))) == b.p && First(Join(done, Cons(b.p, b.d, Nil)), NULL) == First(done, b.p)
  {
    hide Linked, Apart, Attached, Merge, Join, Merging;
    MergeOne(done, a, b);
    MergingSwap(mem, done, q, a, b);
    MergingTake(mem, done, q, b, a);
    MergingSwap(Attached(mem, done, b.p), Join(done, Cons(b.p, b.d, Nil)), mem[b.p].next, b.rest, a);
    JoinNodes(done, Cons(b.p, b.d, Nil));
    SingleApart(b.p, b.d);
    NotNil(done, b.p, b.d);
  }

  /** One of the lists is used up. */
  lemma TakeRest(mem0: Memory, a0: Chain, b0: Chain, mem: Memory, done: Chain, q: Ptr, a: Chain, b: Chain, r: Chain)
    requires MergeInv(mem0, a0, b0, mem, done, q, a, b) && done.Cons? && r.Cons? && ((a.Nil? && r == b) || (b.Nil? && r == a))
    ensures r.p in mem && Last(done) in mem
    ensures var m := Attached(mem, done, r.p); Linked(m, Merge(a0, b0), NULL) && First(done, NULL) == First(Merge(a0, b0), NULL) && First(done, NULL) in m && m[First(done, NULL)].prev == NULL
    ensures OnlyChanged(mem0, Attached(mem, done, r.p), Nodes(a0) + Nodes(b0))
  {
    hide Linked, Apart, Attached, Join;
    if a.Nil? {
      MergingSwap(mem, done, q, a, b);
    }
    MergingRest(mem, done, q, r);
    JoinLinked(mem, done, r, NULL);
  }

  lemma NotNil(done: Chain, p: Ptr, d: Data)
    ensures Join(done, Cons(p, d, Nil)).Cons? && Join(done, Cons(p, d, Nil)).p == First(done, p)
  {
  }

  /** g_list_sort_merge of two lists that are not empty. Where the source has the local list head
      before any node was taken, `l` is NULL here. */
  method SortMerge(mem0: Memory, list1: Ptr, list2: Ptr, ghost a0: Chain, ghost b0: Chain) returns (mem: Memory, head: Ptr)
    requires a0.Cons? && b0.Cons? && list1 == a0.p && list2 == b0.p
    requires Merging(mem0, Nil, NULL, a0, b0)
    ensures Linked(mem, Merge(a0, b0), NULL) && head == First(Merge(a0, b0), NULL) && head in mem && mem[head].prev == NULL
    ensures OnlyChanged(mem0, mem, Nodes(a0) + Nodes(b0))
  {
    hide Linked, Apart, Merge, Join, Merging, Nodes;
    mem, head := mem0, NULL;
    var l1, l2, l, lprev := list1, list2, NULL, NULL;
    ghost var done, q, a, b := Nil, NULL, a0, b0;
    MergeInvStart(mem0, a0, b0);
    while l1 != NULL && l2 != NULL
      invariant MergeInv(mem0, a0, b0, mem, done, q, a, b)
      invariant l1 == First(a, NULL) && l2 == First(b, NULL) && l == lprev == Last(done) && (done.Cons? ==> head == First(done, NULL))
      invariant a.Cons? || b.Cons?
      decreases Len(a) + Len(b)
    {
      MergeFields(mem0, a0, b0, mem, done, q, a, b);
      var taken;
      ghost var before, a1, b1 := mem, a, b;
      if mem[l1].data.rank <= mem[l2].data.rank {
        TakeFirst(mem0, a0, b0, mem, done, q, a, b);
        taken, l1 := l1, mem[l1].next;
        a1 := a.rest;
      } else {
        TakeSecond(mem0, a0, b0, mem, done, q, a, b);
        taken, l2 := l2, mem[l2].next;
        b1 := b.rest;
      }
      if l == NULL {
        head := taken;
      } else {
        mem := mem[l := mem[l].(next := taken)];
      }
      l := taken;
      mem := mem[l := mem[l].(prev := lprev)];
      lprev := l;
      assert mem == Attached(before, done, taken);
      done, q, a, b := Join(done, Cons(taken, before[taken].data, Nil)), before[taken].next, a1, b1;
    }
    MergeFields(mem0, a0, b0, mem, done, q, a, b);
    var rest := if l1 != NULL then l1 else l2;
    TakeRest(mem0, a0, b0, mem, done, q, a, b, if l1 != NULL then a else b);
    ghost var before := mem;
    mem := mem[l := mem[l].(next := rest)];
    mem := mem[rest := mem[rest].(prev := l)];
    assert mem == Attached(before, done, rest);
  }

  lemma MergeInvStart(mem: Memory, a: Chain, b: Chain)
    requires Merging(mem, Nil, NULL, a, b)
    ensures MergeInv(mem, a, b, mem, Nil, NULL, a, b)
  {
  }

  // ------------------------------------------------------- g_list_sort_real

  lemma {:induction false} JoinTake(x: Chain, s: Chain)
    requires s.Cons?
    ensures Len(Join(x, s)) == Len(x) + Len(s)
    ensures Take(Join(x, s), Len(x) + 1) == Join(x, Cons(s.p, s.d, Nil)) && Drop(Join(x, s), Len(x) + 1) == s.rest
    decreases x
  {
    if x.Cons? {
      JoinTake(x.rest, s);
    }
  }

  /** How far a pointer has walked into the list. */
  ghost predicate Reached(mem: Memory, c: Chain, before: Chain, at: Chain, l: Ptr) {
    c == Join(before, at) && l == First(at, NULL) && Linked(mem, at, NULL)
  }

  lemma ReachNext(mem: Memory, c: Chain, before: Chain, at: Chain, l: Ptr)
    requires Reached(mem, c, before, at, l) && at.Cons?
    ensures l != NULL && l in mem && Reached(mem, c, Join(before, Cons(at.p, at.d, Nil)), at.rest, mem[l].next)
    ensures Len(Join(before, Cons(at.p, at.d, Nil))) == Len(before) + 1 && Len(c) == Len(before) + Len(at)
  {
    JoinThrough(before, at.p, at.d, at.rest);
    JoinNodes(before, Cons(at.p, at.d, Nil));
    JoinNodes(before, at);
  }

  /** The end of the list is where the pointer is NULL. */
  lemma ReachEnd(mem: Memory, c: Chain, before: Chain, at: Chain, l: Ptr)
    requires Reached(mem, c, before, at, l)
    ensures l == NULL <==> at.Nil?
    ensures Len(c) == Len(before) + Len(at) && (at.Nil? <==> Len(at) == 0)
  {
    JoinNodes(before, at);
  }

  /** The loop that finds the middle: one pointer goes twice as fast as the other. */
  method FindMiddle(mem: Memory, list: Ptr, ghost c: Chain) returns (l1: Ptr)
    requires Linked(mem, c, NULL) && list == First(c, NULL) && Len(c) >= 2
    ensures l1 == Last(Take(c, Len(c) / 2))
  {
    hide Join, Linked, Reached, Take;
    l1 := list;
    ghost var x, s := Nil, c;
    ReachStart(mem, c);
    ReachNext(mem, c, Nil, c, list);
    ghost var w, f := Join(Nil, Cons(c.p, c.d, Nil)), c.rest;
    var l2 := mem[list].next;
    ReachEnd(mem, c, w, f, l2);
    while true
      invariant Reached(mem, c, x, s, l1) && Reached(mem, c, w, f, l2) && f.Cons? && Len(w) == 2 * Len(x) + 1
      invariant Len(c) == Len(x) + Len(s) == Len(w) + Len(f)
      decreases f
    {
      ReachNext(mem, c, w, f, l2);
      ReachEnd(mem, c, x, s, l1);
      l2 := mem[l2].next;
      w, f := Join(w, Cons(f.p, f.d, Nil)), f.rest;
      ReachEnd(mem, c, w, f, l2);
      if l2 == NULL {
        break;
      }
      ReachNext(mem, c, w, f, l2);
      l2 := mem[l2].next;
      w, f := Join(w, Cons(f.p, f.d, Nil)), f.rest;
      ReachEnd(mem, c, w, f, l2);
      if l2 == NULL {
        break;
      }
      ReachNext(mem, c, x, s, l1);
      l1 := mem[l1].next;
      x, s := Join(x, Cons(s.p, s.d, Nil)), s.rest;
      ReachEnd(mem, c, x, s, l1);
    }
    MiddleIs(mem, c, x, s, l1);
  }

  lemma ReachStart(mem: Memory, c: Chain)
    requires Linked(mem, c, NULL)
    ensures Reached(mem, c, Nil, c, First(c, NULL))
  {
  }

  lemma MiddleIs(mem: Memory, c: Chain, x: Chain, s: Chain, l1: Ptr)
    requires Reached(mem, c, x, s, l1) && s.Cons? && (Len(c) == 2 * Len(x) + 2 || Len(c) == 2 * Len(x) + 3)
    ensures l1 == Last(Take(c, Len(c) / 2))
  {
    hide Linked, Take, Drop, Join, Len;
    JoinTake(x, s);
    JoinLinked(mem, x, Cons(s.p, s.d, Nil), NULL);
    assert Len(c) / 2 == Len(x) + 1;
  }

  /** Cutting the list behind its first half. */
  lemma CutLinked(mem: Memory, c: Chain, n: nat)
    requires Linked(mem, c, NULL) && Apart(c) && 0 < n < Len(c)
    ensures var l := Last(Take(c, n)); l != NULL && l in mem && mem[l].next == First(Drop(c, n), NULL) && Merging(mem[l := mem[l].(next := NULL)], Nil, NULL, Take(c, n), Drop(c, n))
    ensures Last(Take(c, n)) in Nodes(Take(c, n)) && Nodes(Take(c, n)) + Nodes(Drop(c, n)) == Nodes(c)
    ensures Take(c, n).Cons? && Drop(c, n).Cons? && First(Take(c, n), NULL) == First(c, NULL)
  {
    hide Linked, Apart;
    var a, b := Take(c, n), Drop(c, n);
    TakeDrop(c, n);
    JoinNodes(a, b);
    JoinLinked(mem, a, b, NULL);
    LastIs(mem, a, First(b, NULL));
    var l := Last(a);
    SetNext(mem, a, First(b, NULL), NULL);
    LinkedFrame(mem, mem[l := mem[l].(next := NULL)], b, NULL);
    NilLinked(mem[l := mem[l].(next := NULL)]);
  }

  lemma NilLinked(mem: Memory)
    ensures Linked(mem, Nil, NULL) && Apart(Nil)
  {
  }

  /** Sorting one half leaves the other as it is. */
  lemma HalfSorted(mem: Memory, mem': Memory, a: Chain, a': Chain, b: Chain)
    requires Merging(mem, Nil, NULL, a, b) && OnlyChanged(mem, mem', Nodes(a))
    requires Linked(mem', a', NULL) && Nodes(a') == Nodes(a) && Apart(a')
    ensures Merging(mem', Nil, NULL, a', b)
  {
    hide Linked, Apart;
    LinkedFrame(mem, mem', b, NULL);
    NilLinked(mem');
  }

  /** g_list_sort_real: the nodes of the list are relinked in the order that Sorting gives. */
  method SortReal(mem0: Memory, list: Ptr, ghost c: Chain) returns (mem: Memory, head: Ptr)
    requires Linked(mem0, c, NULL) && Apart(c) && list == First(c, NULL)
    ensures Linked(mem, Sorting(c), NULL) && head == First(Sorting(c), NULL) && OnlyChanged(mem0, mem, Nodes(c))
    ensures Len(c) >= 2 ==> head in mem && mem[head].prev == NULL
    ensures Len(c) < 2 ==> mem == mem0
    decreases Len(c)
  {
    hide Linked, Apart, Merging, Nodes, Take, Drop, Merge;
    mem, head := mem0, list;
    ShortList(mem0, c);
    if list == NULL || mem[list].next == NULL {
      return;
    }
    var l1 := FindMiddle(mem, list, c);
    ghost var n := Len(c) / 2;
    ghost var a, b := Take(c, n), Drop(c, n);
    CutLinked(mem, c, n);
    MergingParts(mem[l1 := mem[l1].(next := NULL)], a, b);
    var l2 := mem[l1].next;
    mem := mem[l1 := mem[l1].(next := NULL)];
    SortingNodes(a);
    SortingNodes(b);
    ghost var m1 := mem;
    mem, l1 := SortReal(mem, list, a);
    HalfSorted(m1, mem, a, Sorting(a), b);
    MergingParts(mem, Sorting(a), b);
    MergingSwap(mem, Nil, NULL, Sorting(a), b);
    ghost var m2 := mem;
    mem, l2 := SortReal(mem, l2, b);
    HalfSorted(m2, mem, b, Sorting(b), Sorting(a));
    MergingSwap(mem, Nil, NULL, Sorting(b), Sorting(a));
    NonEmpty(Sorting(a));
    NonEmpty(Sorting(b));
    mem, head := SortMerge(mem, l1, l2, Sorting(a), Sorting(b));
  }

  lemma NonEmpty(c: Chain)
    ensures c.Cons? <==> Len(c) > 0
  {
  }

  lemma ShortList(mem: Memory, c: Chain)
    requires Linked(mem, c, NULL)
    ensures First(c, NULL) == NULL <==> Len(c) == 0
    ensures Len(c) > 0 ==> First(c, NULL) in mem && (mem[First(c, NULL)].next == NULL <==> Len(c) == 1)
    ensures Len(c) <= 1 ==> Sorting(c) == c
  {
    if c.Cons? && c.rest.Cons? {
      assert c.rest.p != NULL && Len(c.rest) >= 1;
    }
  }

  lemma MergingParts(mem: Memory, a: Chain, b: Chain)
    requires Merging(mem, Nil, NULL, a, b)
    ensures Linked(mem, a, NULL) && Linked(mem, b, NULL) && Apart(a) && Apart(b)
  {
  }

  /** g_list_sort: a sorted list of the same nodes, where nodes of equal rank keep their order and
      `prev` is again the inverse of `next`. */
  method Sort(mem0: Memory, list: Ptr, ghost c: Chain) returns (mem: Memory, head: Ptr)
    requires WellFormed(mem0, c) && list == First(c, NULL)
    ensures WellFormed(mem, Sorting(c)) && head == First(Sorting(c), NULL) && OnlyChanged(mem0, mem, Nodes(c))
    ensures Sorted(Sorting(c)) && Nodes(Sorting(c)) == Nodes(c) && Len(Sorting(c)) == Len(c)
    ensures forall rank :: OfRank(Sorting(c), rank) == OfRank(c, rank)
  {
    hide Linked, Apart, Sorting, Nodes, OfRank;
    SortingSorted(c);
    SortingNodes(c);
    forall rank { SortingStable(c, rank); }
    ShortList(mem0, c);
    NonEmpty(c);
    NonEmpty(Sorting(c));
    mem, head := SortReal(mem0, list, c);
  }
}
