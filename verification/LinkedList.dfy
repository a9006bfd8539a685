/** The singly linked list with head and tail under the hook tables, on an explicit memory. */
module LinkedLists {
  import opened NodeMemory
  import opened HookLists

  /** An address; 0 is NULL. */
  type Ptr = nat

  const NULL: Ptr := 0

  datatype Item = Item(next: Ptr, data: HookId)

  /** The allocated items. Following a pointer to an item that was freed is an error. */
  type Memory = map<Ptr, Item>

  /** The items of a list in order. For the proof only. */
  datatype Chain = Nil | Cons(p: Ptr, d: HookId, rest: Chain)

  ghost function First(c: Chain, q: Ptr): Ptr {
    if c.Nil? then q else c.p
  }

  ghost function Last(c: Chain): Ptr {
    if c.Nil? then NULL else if c.rest.Nil? then c.p else Last(c.rest)
  }

  ghost function Items(c: Chain): set<Ptr> {
    if c.Nil? then {} else {c.p} + Items(c.rest)
  }

  ghost function Data(c: Chain): seq<HookId> {
    if c.Nil? then [] else [c.d] + Data(c.rest)
  }

  ghost function Join(a: Chain, b: Chain): Chain {
    if a.Nil? then b else Cons(a.p, a.d, Join(a.rest, b))
  }

  /** No item occurs twice. */
  ghost predicate Apart(c: Chain) {
    c.Cons? ==> c.p !in Items(c.rest) && Apart(c.rest)
  }

  /** The items are linked in this order, the last one to `q`. */
  ghost predicate Linked(mem: Memory, c: Chain, q: Ptr) {
    c.Cons? ==> c.p != NULL && c.p in mem && mem[c.p] == Item(First(c.rest, q), c.d) && Linked(mem, c.rest, q)
  }

  /** A list: linked from head to tail, with nothing else allocated. */
  ghost predicate Whole(mem: Memory, c: Chain, head: Ptr, tail: Ptr) {
    Linked(mem, c, NULL) && Apart(c) && mem.Keys == Items(c) && head == First(c, NULL) && tail == Last(c)
  }

  lemma {:induction false} LinkedFrame(mem: Memory, mem': Memory, c: Chain, q: Ptr)
    requires Linked(mem, c, q) && forall x :: x in Items(c) && x in mem ==> x in mem' && mem'[x] == mem[x]
    ensures Linked(mem', c, q)
    decreases c
  {
    if c.Cons? {
      LinkedFrame(mem, mem', c.rest, q);
    }
  }

  lemma {:induction false} JoinLinked(mem: Memory, a: Chain, b: Chain, q: Ptr)
    ensures Linked(mem, Join(a, b), q) <==> Linked(mem, a, First(b, q)) && Linked(mem, b, q)
    ensures First(Join(a, b), q) == First(a, First(b, q))
    decreases a
  {
    if a.Cons? {
      JoinLinked(mem, a.rest, b, q);
    }
  }

  lemma {:induction false} JoinItems(a: Chain, b: Chain)
    ensures Items(Join(a, b)) == Items(a) + Items(b)
    ensures Apart(Join(a, b)) <==> Apart(a) && Apart(b) && Items(a) !! Items(b)
    decreases a
  {
    if a.Cons? {
      JoinItems(a.rest, b);
    }
  }

  lemma {:induction false} JoinData(a: Chain, b: Chain)
    ensures Data(Join(a, b)) == Data(a) + Data(b)
    ensures Last(Join(a, b)) == if b.Nil? then Last(a) else Last(b)
    decreases a
  {
    if a.Cons? {
      JoinData(a.rest, b);
    }
  }

  lemma JoinIs(mem: Memory, a: Chain, b: Chain, q: Ptr)
    ensures Linked(mem, Join(a, b), q) <==> Linked(mem, a, First(b, q)) && Linked(mem, b, q)
    ensures Items(Join(a, b)) == Items(a) + Items(b) && Data(Join(a, b)) == Data(a) + Data(b)
    ensures Apart(Join(a, b)) <==> Apart(a) && Apart(b) && Items(a) !! Items(b)
    ensures Last(Join(a, b)) == if b.Nil? then Last(a) else Last(b)
    ensures First(Join(a, b), q) == First(a, First(b, q))
  {
    hide Join, Linked, Items, Data, Apart, Last, First;
    JoinLinked(mem, a, b, q);
    JoinItems(a, b);
    JoinData(a, b);
  }

  lemma {:induction false} LastIs(mem: Memory, a: Chain, q: Ptr)
    requires a.Cons? && Linked(mem, a, q)
    ensures Last(a) in Items(a) && Last(a) in mem && Last(a) != NULL
    decreases a
  {
    if a.rest.Cons? {
      LastIs(mem, a.rest, q);
    }
  }

  /** Linking the last item elsewhere. */
  lemma {:induction false} Relink(mem: Memory, a: Chain, q: Ptr, q': Ptr)
    requires a.Cons? && Linked(mem, a, q) && Apart(a) && Last(a) in mem
    ensures Linked(mem[Last(a) := mem[Last(a)].(next := q')], a, q')
    decreases a
  {
    if a.rest.Cons? {
      LastIs(mem, a.rest, q);
      Relink(mem, a.rest, q, q');
    }
  }

  // ------------------------------------------------------- operations

  /** A list as its users see it: the items, the first and the last. */
  datatype List = List(mem: Memory, head: Ptr, tail: Ptr)

  const EMPTY := List(map[], NULL, NULL)

  ghost predicate Shows(l: List, s: seq<HookId>, c: Chain) {
    Whole(l.mem, c, l.head, l.tail) && Data(c) == s
  }

  /** The list holds these data in this order. */
  ghost predicate Holds(l: List, s: seq<HookId>) {
    exists c :: Shows(l, s, c)
  }

  lemma EmptyHolds()
    ensures Holds(EMPTY, [])
  {
    assert Shows(EMPTY, [], Nil);
  }

  /** list_insert. */
  method Insert(l: List, data: HookId, ghost s: seq<HookId>) returns (l': List)
    requires Holds(l, s)
    ensures Holds(l', [data] + s)
  {
    ghost var c :| Shows(l, s, c);
    var item := Allocate(l.mem);
    var mem, head, tail := l.mem[item := Item(l.head, data)], l.head, l.tail;
    if c.Cons? { LastIs(l.mem, c, NULL); }
    if tail == NULL {
      tail := item;
    }
    head := item;
    LinkedFrame(l.mem, mem, c, NULL);
    l' := List(mem, head, tail);
    assert Shows(l', [data] + s, Cons(item, data, c));
  }

  lemma AppendedWhole(mem: Memory, mem': Memory, c: Chain, item: Ptr, data: HookId)
    requires Linked(mem, c, NULL) && Apart(c) && mem.Keys == Items(c) && c.Cons? && item != NULL && item !in mem && Last(c) in mem
    requires mem' == mem[item := Item(NULL, data)][Last(c) := mem[Last(c)].(next := item)]
    ensures Whole(mem', Join(c, Cons(item, data, Nil)), First(c, NULL), item)
  {
    hide Linked, Apart, Items;
    LastIs(mem, c, NULL);
    var last := Cons(item, data, Nil);
    Relink(mem, c, NULL, item);
    LinkedFrame(mem[Last(c) := mem[Last(c)].(next := item)], mem', c, item);
    Single(mem', item, data);
    JoinIs(mem', c, last, NULL);
  }

  lemma Single(mem: Memory, item: Ptr, data: HookId)
    requires item != NULL && item in mem && mem[item] == Item(NULL, data)
    ensures var c := Cons(item, data, Nil); Linked(mem, c, NULL) && Apart(c) && Items(c) == {item} && Data(c) == [data] && Last(c) == item
  {
  }

  /** list_append. */
  method Append(l: List, data: HookId, ghost s: seq<HookId>) returns (l': List)
    requires Holds(l, s)
    ensures Holds(l', s + [data])
  {
    hide Apart, Join;
    ghost var c0 :| Shows(l, s, c0);
    var item := Allocate(l.mem);
    var mem, head, tail := l.mem[item := Item(NULL, data)], l.head, l.tail;
    ghost var c := Join(c0, Cons(item, data, Nil));
    JoinIs(mem, c0, Cons(item, data, Nil), NULL);
    Single(mem, item, data);
    if head == NULL {
      head := item;
    } else {
      LastIs(l.mem, c0, NULL);
      mem := mem[tail := mem[tail].(next := item)];
      AppendedWhole(l.mem, mem, c0, item, data);
    }
    tail := item;
    l' := List(mem, head, tail);
    assert Shows(l', s + [data], c);
  }

  /** What is left when the item after `a` is unlinked and freed. */
  ghost function Unlinked(mem: Memory, a: Chain, b: Chain): Memory
    requires b.Cons? && b.p in mem && (a.Cons? ==> Last(a) in mem)
  {
    (if a.Nil? then mem else mem[Last(a) := mem[Last(a)].(next := mem[b.p].next)]) - {b.p}
  }

  lemma UnlinkedWhole(mem: Memory, a: Chain, b: Chain)
    requires b.Cons? && Whole(mem, Join(a, b), First(Join(a, b), NULL), Last(Join(a, b)))
    ensures b.p in mem && mem[b.p] == Item(First(b.rest, NULL), b.d) && (a.Cons? ==> Last(a) in mem)
    ensures Whole(Unlinked(mem, a, b), Join(a, b.rest), First(Join(a, b.rest), NULL), Last(Join(a, b.rest)))
    ensures Data(Join(a, b)) == Data(a) + [b.d] + Data(b.rest) && Data(Join(a, b.rest)) == Data(a) + Data(b.rest)
  {
    hide Join, Apart, Linked, Last, Items, Data;
    JoinIs(mem, a, b, NULL);
    JoinIs(mem, a, b.rest, NULL);
    Open(mem, b, NULL);
    if a.Cons? {
      LastIs(mem, a, b.p);
      Relink(mem, a, b.p, mem[b.p].next);
      LinkedFrame(mem[Last(a) := mem[Last(a)].(next := mem[b.p].next)], Unlinked(mem, a, b), a, First(b.rest, NULL));
    } else {
      NilLinked(Unlinked(mem, a, b), First(b.rest, NULL));
    }
    LinkedFrame(mem, Unlinked(mem, a, b), b.rest, NULL);
    JoinIs(Unlinked(mem, a, b), a, b.rest, NULL);
  }

  lemma NilLinked(mem: Memory, q: Ptr)
    ensures Linked(mem, Nil, q) && Items(Nil) == {}
  {
  }

  lemma Open(mem: Memory, b: Chain, q: Ptr)
    requires b.Cons? && Linked(mem, b, q) && Apart(b)
    ensures b.p != NULL && b.p in mem && mem[b.p] == Item(First(b.rest, q), b.d) && Linked(mem, b.rest, q)
    ensures Apart(b.rest) && b.p !in Items(b.rest) && Items(b) == {b.p} + Items(b.rest) && Data(b) == [b.d] + Data(b.rest)
  {
  }

  lemma {:induction false} WithoutIn(x: seq<HookId>, h: HookId, y: seq<HookId>)
    requires h !in x
    ensures Without(x + [h] + y, h) == x + y
  {
    if x == [] {
      assert (x + [h] + y)[1..] == y && x + y == y;
    } else {
      assert (x + [h] + y)[1..] == x[1..] + [h] + y;
      WithoutIn(x[1..], h, y);
      assert [x[0]] + (x[1..] + y) == x + y;
    }
  }

  lemma {:induction false} WithoutNone(x: seq<HookId>, h: HookId)
    requires h !in x
    ensures Without(x, h) == x
  {
    if x != [] {
      WithoutNone(x[1..], h);
    }
  }

  /** How far a walk along the list has got. */
  ghost predicate Walking(mem: Memory, c: Chain, a: Chain, b: Chain, prev: Ptr, cur: Ptr) {
    c == Join(a, b) && Linked(mem, b, NULL) && prev == Last(a) && cur == First(b, NULL)
  }

  lemma WalkOn(mem: Memory, c: Chain, a: Chain, b: Chain, prev: Ptr, cur: Ptr)
    requires Walking(mem, c, a, b, prev, cur) && cur != NULL
    ensures b.Cons? && cur == b.p && cur in mem && mem[cur].data == b.d && mem[cur].next == First(b.rest, NULL)
    ensures Walking(mem, c, Join(a, Cons(b.p, b.d, Nil)), b.rest, cur, mem[cur].next) && Data(Join(a, Cons(b.p, b.d, Nil))) == Data(a) + [b.d]
  {
    JoinThrough(a, b);
    JoinData(a, Cons(b.p, b.d, Nil));
  }

  lemma {:induction false} JoinThrough(a: Chain, b: Chain)
    requires b.Cons?
    ensures Join(Join(a, Cons(b.p, b.d, Nil)), b.rest) == Join(a, b)
    decreases a
  {
    if a.Cons? {
      JoinThrough(a.rest, b);
    }
  }

  /** list_exists. */
  method Exists(l: List, data: HookId, ghost s: seq<HookId>) returns (yes: bool)
    requires Holds(l, s)
    ensures yes <==> data in s
  {
    hide Join, Linked;
    ghost var c :| Shows(l, s, c);
    var prev, cur := NULL, l.head;
    ghost var a, b := Nil, c;
    WalkStart(l.mem, c);
    while cur != NULL
      invariant Walking(l.mem, c, a, b, prev, cur) && data !in Data(a)
      decreases b
    {
      WalkOn(l.mem, c, a, b, prev, cur);
      JoinData(a, b);
      if l.mem[cur].data == data {
        return true;
      }
      prev := cur;
      cur := l.mem[cur].next;
      a, b := Join(a, Cons(b.p, b.d, Nil)), b.rest;
    }
    WalkEnd(l.mem, c, a, b);
    return false;
  }

  lemma WalkStart(mem: Memory, c: Chain)
    requires Linked(mem, c, NULL)
    ensures Walking(mem, c, Nil, c, NULL, First(c, NULL)) && Data(Nil) == []
  {
  }

  lemma WalkEnd(mem: Memory, c: Chain, a: Chain, b: Chain)
    requires Walking(mem, c, a, b, Last(a), NULL)
    ensures Data(c) == Data(a)
  {
    JoinData(a, b);
  }

  /** list_remove: the first item with the data is unlinked and freed; what the caller's delete
      function gets is the data. */
  method Remove(l: List, data: HookId, ghost s: seq<HookId>) returns (removed: bool, l': List)
    requires Holds(l, s)
    ensures Holds(l', Without(s, data)) && (removed <==> data in s)
  {
    hide Join, Linked, Apart, Items, Without;
    ghost var c0 :| Shows(l, s, c0);
    var mem, head, tail := l.mem, l.head, l.tail;
    var prev, cur := NULL, head;
    ghost var a, b := Nil, c0;
    WalkStart(mem, c0);
    while cur != NULL
      invariant Walking(mem, c0, a, b, prev, cur) && data !in Data(a)
      decreases b
    {
      WalkOn(mem, c0, a, b, prev, cur);
      var next := mem[cur].next;
      if mem[cur].data == data {
        UnlinkedWhole(mem, a, b);
        UnlinkedEnds(mem, a, b);
        WithoutIn(Data(a), data, Data(b.rest));
        if cur == head {
          head := next;
        } else {
          mem := mem[prev := mem[prev].(next := next)];
        }
        if cur == tail {
          tail := prev;
        }
        mem := mem - {cur};
        l' := List(mem, head, tail);
        assert Shows(l', Without(s, data), Join(a, b.rest));
        return true, l';
      }
      prev := cur;
      cur := next;
      a, b := Join(a, Cons(b.p, b.d, Nil)), b.rest;
    }
    WalkEnd(mem, c0, a, b);
    WithoutNone(s, data);
    return false, l;
  }

  /** Which of head and tail change with the item. */
  lemma UnlinkedEnds(mem: Memory, a: Chain, b: Chain)
    requires b.Cons? && Whole(mem, Join(a, b), First(Join(a, b), NULL), Last(Join(a, b)))
    ensures b.p == First(Join(a, b), NULL) <==> a.Nil?
    ensures First(Join(a, b.rest), NULL) == if a.Nil? then First(b.rest, NULL) else First(Join(a, b), NULL)
    ensures b.p == Last(Join(a, b)) <==> b.rest.Nil?
    ensures Last(Join(a, b.rest)) == if b.rest.Nil? then Last(a) else Last(Join(a, b))
  {
    JoinIs(mem, a, b, NULL);
    JoinIs(mem, a, b.rest, NULL);
    if a.Cons? { assert a.p in Items(a) && b.p in Items(b); }
    if b.rest.Cons? { LastIs(mem, b.rest, NULL); }
  }

  /** One turn of the loop of list_clear: the first item is read and freed. */
  method TakeFirst(l: List, ghost s: seq<HookId>) returns (data: HookId, l': List)
    requires Holds(l, s) && l.head != NULL
    ensures s != [] && data == s[0] && Holds(l', s[1..])
  {
    hide Linked, Apart, Items, Data;
    ghost var c :| Shows(l, s, c);
    Open(l.mem, c, NULL);
    var next := l.mem[l.head].next;
    data := l.mem[l.head].data;
    var mem := l.mem - {l.head};
    LinkedFrame(l.mem, mem, c.rest, NULL);
    if c.rest.Cons? { Open(l.mem, c.rest, NULL); }
    l' := List(mem, next, if next == NULL then NULL else l.tail);
    assert Shows(l', s[1..], c.rest);
  }

  lemma HeadIs(l: List, s: seq<HookId>)
    requires Holds(l, s)
    ensures l.head == NULL <==> s == []
    ensures s == [] ==> l == EMPTY
  {
    var c :| Shows(l, s, c);
  }

  /** list_clear: every item is freed, none is read afterwards, and the delete function gets the
      data in order. */
  method Clear(l: List, ghost s: seq<HookId>) returns (l': List, deleted: seq<HookId>)
    requires Holds(l, s)
    ensures l' == EMPTY && deleted == s
  {
    hide Holds;
    l', deleted := l, [];
    ghost var rest := s;
    HeadIs(l, s);
    while l'.head != NULL
      invariant Holds(l', rest) && deleted + rest == s
      decreases |rest|
    {
      var data;
      data, l' := TakeFirst(l', rest);
      deleted := deleted + [data];
      rest := rest[1..];
      HeadIs(l', rest);
    }
    HeadIs(l', rest);
  }

  /** `cur` is the item with the data at index `k`, NULL behind the last. */
  ghost predicate AtItem(l: List, s: seq<HookId>, k: nat, cur: Ptr) {
    exists c, a, b :: Shows(l, s, c) && Walking(l.mem, c, a, b, Last(a), cur) && |Data(a)| == k
  }

  lemma AtFirst(l: List, s: seq<HookId>)
    requires Holds(l, s)
    ensures AtItem(l, s, 0, l.head)
  {
    var c :| Shows(l, s, c);
    WalkStart(l.mem, c);
  }

  /** The walk along a list: what the item holds, and where it leads. */
  lemma AtNext(l: List, s: seq<HookId>, k: nat, cur: Ptr)
    requires AtItem(l, s, k, cur)
    ensures cur == NULL <==> k == |s|
    ensures cur != NULL ==> k < |s| && cur in l.mem && l.mem[cur].data == s[k] && AtItem(l, s, k + 1, l.mem[cur].next)
  {
    var c, a, b :| Shows(l, s, c) && Walking(l.mem, c, a, b, Last(a), cur) && |Data(a)| == k;
    JoinData(a, b);
    if cur != NULL {
      WalkOn(l.mem, c, a, b, Last(a), cur);
      var a' := Join(a, Cons(b.p, b.d, Nil));
      assert Last(a') == cur by { JoinData(a, Cons(b.p, b.d, Nil)); }
      assert Walking(l.mem, c, a', b.rest, Last(a'), l.mem[cur].next);
    }
  }
}
