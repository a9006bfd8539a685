/** g_list_sort seen from memory: which nodes the pointers lead through, before and after. */
module GListOrder {
  import opened GListSpec
  import opened GListSort

  /** From `head` on, `next` leads through exactly these nodes in this order, each once, and `prev`
      leads back. */
  ghost predicate IsList(mem: Memory, head: Ptr, s: seq<Ptr>) {
    && head == (if s == [] then NULL else s[0])
    && (forall i :: 0 <= i < |s| ==> s[i] != NULL && s[i] in mem)
    && (forall i: nat :: i < |s| ==> Between(mem, s, i))
    && (forall i, j :: 0 <= i < j < |s| ==> s[i] != s[j])
  }

  ghost predicate Between(mem: Memory, s: seq<Ptr>, i: nat)
    requires i < |s| && s[i] in mem
  {
    && mem[s[i]].next == (if i + 1 < |s| then s[i + 1] else NULL)
    && mem[s[i]].prev == (if i > 0 then s[i - 1] else NULL)
  }

  /** The nodes of a chain, as places and contents. */
  ghost function Items(c: Chain): seq<(Ptr, Data)> {
    if c.Nil? then [] else [(c.p, c.d)] + Items(c.rest)
  }

  ghost function ChainOf(s: seq<(Ptr, Data)>): Chain {
    if s == [] then Nil else Cons(s[0].0, s[0].1, ChainOf(s[1..]))
  }

  lemma {:induction false} ItemsOf(s: seq<(Ptr, Data)>)
    ensures Items(ChainOf(s)) == s
  {
    if s != [] {
      ItemsOf(s[1..]);
    }
  }

  lemma {:induction false} ItemsNodes(c: Chain, x: Ptr)
    ensures x in Nodes(c) <==> exists i :: 0 <= i < |Items(c)| && Items(c)[i].0 == x
    ensures |Items(c)| == Len(c)
  {
    if c.Cons? {
      var s, t := Items(c), Items(c.rest);
      ItemsNodes(c.rest, x);
      assert s[0].0 == c.p;
      if i :| 0 <= i < |s| && s[i].0 == x && i > 0 {
        assert t[i - 1].0 == x;
      }
      if i :| 0 <= i < |t| && t[i].0 == x {
        assert s[i + 1].0 == x;
      }
    }
  }

  lemma {:induction false} ApartIs(c: Chain)
    ensures Apart(c) <==> forall i, j :: 0 <= i < j < |Items(c)| ==> Items(c)[i].0 != Items(c)[j].0
  {
    if c.Cons? {
      var s, t := Items(c), Items(c.rest);
      ApartIs(c.rest);
      ItemsNodes(c.rest, c.p);
      assert forall i :: 0 < i < |s| ==> s[i] == t[i - 1];
      if forall i, j :: 0 <= i < j < |s| ==> s[i].0 != s[j].0 {
        forall i, j | 0 <= i < j < |t| ensures t[i].0 != t[j].0 {
          assert s[i + 1].0 != s[j + 1].0;
        }
        forall i | 0 <= i < |t| ensures t[i].0 != c.p {
          assert s[0].0 != s[i + 1].0;
        }
      }
    }
  }

  /** What the i-th node of a linked chain holds. */
  ghost predicate LinkAt(mem: Memory, s: seq<(Ptr, Data)>, i: nat)
    requires i < |s|
  {
    && s[i].0 != NULL && s[i].0 in mem && mem[s[i].0].data == s[i].1
    && mem[s[i].0].next == (if i + 1 < |s| then s[i + 1].0 else NULL)
    && (i > 0 ==> mem[s[i].0].prev == s[i - 1].0)
  }

  /** Every node of it does. */
  ghost predicate AllLinked(mem: Memory, s: seq<(Ptr, Data)>) {
    forall i: nat :: i < |s| ==> LinkAt(mem, s, i)
  }

  lemma AllLinkedFirst(mem: Memory, e: (Ptr, Data), t: seq<(Ptr, Data)>)
    ensures AllLinked(mem, [e] + t) <==>
              && AllLinked(mem, t) && e.0 != NULL && e.0 in mem && mem[e.0].data == e.1
              && mem[e.0].next == (if t == [] then NULL else t[0].0)
              && (t != [] ==> t[0].0 in mem && mem[t[0].0].prev == e.0)
  {
    var s := [e] + t;
    assert forall i: nat :: i < |t| ==> t[i] == s[i + 1];
    if AllLinked(mem, s) {
      forall i: nat | i < |t| ensures LinkAt(mem, t, i) {
        assert LinkAt(mem, s, i + 1);
      }
      assert LinkAt(mem, s, 0);
      assert t != [] ==> LinkAt(mem, s, 1);
    } else {
      var i: nat :| i < |s| && !LinkAt(mem, s, i);
      if i > 0 && AllLinked(mem, t) {
        assert LinkAt(mem, t, i - 1);
      }
    }
  }

  lemma {:induction false} LinkedIs(mem: Memory, c: Chain)
    ensures Linked(mem, c, NULL) <==> AllLinked(mem, Items(c))
  {
    hide AllLinked;
    if c.Cons? {
      LinkedIs(mem, c.rest);
      AllLinkedFirst(mem, (c.p, c.d), Items(c.rest));
    } else {
      NoneLinked(mem);
    }
  }

  lemma NoneLinked(mem: Memory)
    ensures AllLinked(mem, [])
  {
  }

  ghost function Places(s: seq<(Ptr, Data)>): (r: seq<Ptr>)
    ensures |r| == |s|
  {
    seq(|s|, i requires 0 <= i < |s| => s[i].0)
  }

  /** A well-formed chain is such a list, with these contents. */
  lemma ChainIsList(mem: Memory, c: Chain)
    requires WellFormed(mem, c)
    ensures IsList(mem, First(c, NULL), Places(Items(c)))
    ensures forall i :: 0 <= i < |Items(c)| ==> mem[Places(Items(c))[i]].data == Items(c)[i].1
  {
    var s := Items(c);
    ApartIs(c);
    LinkedIs(mem, c);
    forall i: nat | i < |s| ensures s[i].0 != NULL && s[i].0 in mem && mem[s[i].0].data == s[i].1 && Between(mem, Places(s), i) {
      assert LinkAt(mem, s, i);
    }
  }

  /** And conversely. */
  lemma ListIsChain(mem: Memory, head: Ptr, s: seq<Ptr>) returns (c: Chain)
    requires IsList(mem, head, s)
    ensures forall i :: 0 <= i < |s| ==> s[i] in mem
    ensures WellFormed(mem, c) && head == First(c, NULL) && Places(Items(c)) == s
    ensures forall i :: 0 <= i < |s| ==> Items(c)[i] == (s[i], mem[s[i]].data)
  {
    var items := seq(|s|, i requires 0 <= i < |s| => (s[i], mem[s[i]].data));
    c := ChainOf(items);
    ItemsOf(items);
    ApartIs(c);
    forall i: nat | i < |items| ensures LinkAt(mem, items, i) {
      assert Between(mem, s, i);
    }
    assert s != [] ==> Between(mem, s, 0);
    LinkedIs(mem, c);
  }

  // ------------------------------------------------------- order

  lemma {:induction false} AtLeastIs(c: Chain, rank: int)
    requires AtLeast(c, rank)
    ensures forall i :: 0 <= i < |Items(c)| ==> rank <= Items(c)[i].1.rank
    decreases c
  {
    if c.Cons? {
      AtLeastIs(c.rest, rank);
    }
  }

  lemma {:induction false} SortedIs(c: Chain)
    requires Sorted(c)
    ensures forall i, j :: 0 <= i < j < |Items(c)| ==> Items(c)[i].1.rank <= Items(c)[j].1.rank
  {
    if c.Cons? {
      SortedIs(c.rest);
      AtLeastIs(c.rest, c.d.rank);
    }
  }

  /** `x` comes before `y` among the items. */
  ghost predicate Precedes(s: seq<(Ptr, Data)>, x: (Ptr, Data), y: (Ptr, Data)) {
    exists i, j :: 0 <= i < j < |s| && s[i] == x && s[j] == y
  }

  lemma PrecedesFirst(e: (Ptr, Data), s: seq<(Ptr, Data)>, x: (Ptr, Data), y: (Ptr, Data))
    ensures Precedes([e] + s, x, y) <==> (e == x && y in s) || Precedes(s, x, y)
  {
    var t := [e] + s;
    if i, j :| 0 <= i < j < |t| && t[i] == x && t[j] == y {
      assert t[j] == s[j - 1];
      if i > 0 {
        assert s[i - 1] == x;
      }
    }
    if e == x && y in s {
      var j :| 0 <= j < |s| && s[j] == y;
      assert t[0] == x && t[j + 1] == y;
    }
    if i, j :| 0 <= i < j < |s| && s[i] == x && s[j] == y {
      assert t[i + 1] == x && t[j + 1] == y;
    }
  }

  lemma {:induction false} OfRankHas(c: Chain, x: (Ptr, Data))
    ensures x in Items(OfRank(c, x.1.rank)) <==> x in Items(c)
  {
    if c.Cons? {
      OfRankHas(c.rest, x);
    }
  }

  lemma {:induction false} OfRankPrecedes(c: Chain, x: (Ptr, Data), y: (Ptr, Data))
    requires x.1.rank == y.1.rank
    ensures Precedes(Items(OfRank(c, x.1.rank)), x, y) <==> Precedes(Items(c), x, y)
  {
    hide Precedes;
    if c.Cons? {
      OfRankPrecedes(c.rest, x, y);
      OfRankHas(c.rest, y);
      PrecedesFirst((c.p, c.d), Items(c.rest), x, y);
      PrecedesFirst((c.p, c.d), Items(OfRank(c.rest, x.1.rank)), x, y);
    }
  }

  /** Sorting keeps the items, and the order of those of equal rank. */
  lemma SameItems(c: Chain, x: (Ptr, Data), y: (Ptr, Data))
    ensures x in Items(Sorting(c)) <==> x in Items(c)
    ensures x.1.rank == y.1.rank ==> (Precedes(Items(Sorting(c)), x, y) <==> Precedes(Items(c), x, y))
  {
    hide Sorting, Items, OfRank, Precedes;
    SortingStable(c, x.1.rank);
    OfRankHas(c, x);
    OfRankHas(Sorting(c), x);
    if x.1.rank == y.1.rank {
      OfRankPrecedes(c, x, y);
      OfRankPrecedes(Sorting(c), x, y);
    }
  }

  // ------------------------------------------------------- the contract

  /** The list afterwards holds the same nodes with the same contents, in ascending order, and nodes
      of equal rank in the order in which they were. */
  ghost predicate SortedFrom(mem0: Memory, was: seq<Ptr>, mem: Memory, now: seq<Ptr>) {
    && |now| == |was| && (forall x :: x in now <==> x in was)
    && mem.Keys == mem0.Keys && (forall x :: x in mem ==> mem[x].data == mem0[x].data)
    && (forall x :: x in mem && x !in was ==> mem[x] == mem0[x])
    && (forall i :: 0 <= i < |now| ==> now[i] in mem)
    && (forall i, j :: 0 <= i < j < |now| ==> mem[now[i]].data.rank <= mem[now[j]].data.rank)
    && (forall i, j :: 0 <= i < j < |now| && mem[now[i]].data.rank == mem[now[j]].data.rank ==> InTurn(was, now[i], now[j]))
  }

  ghost predicate InTurn(s: seq<Ptr>, x: Ptr, y: Ptr) {
    exists i, j :: 0 <= i < j < |s| && s[i] == x && s[j] == y
  }

  lemma Contents(mem0: Memory, mem: Memory, c: Chain, was: seq<Ptr>, now: seq<Ptr>, x: Ptr)
    requires OnlyChanged(mem0, mem, Nodes(c)) && x in mem && |Items(c)| == |was| && |Items(Sorting(c))| == |now|
    requires forall i :: 0 <= i < |was| ==> was[i] in mem0 && Items(c)[i] == (was[i], mem0[was[i]].data)
    requires forall i :: 0 <= i < |now| ==> now[i] in mem && Items(Sorting(c))[i] == (now[i], mem[now[i]].data)
    ensures mem[x].data == mem0[x].data && (x in now <==> x in was) && (x !in was ==> mem[x] == mem0[x])
  {
    hide Sorting, Items;
    ItemsNodes(c, x);
    if x in was {
      var i :| 0 <= i < |was| && was[i] == x;
      SameItems(c, Items(c)[i], Items(c)[i]);
      assert Items(c)[i] in Items(c);
    }
    if x in now {
      var i :| 0 <= i < |now| && now[i] == x;
      SameItems(c, Items(Sorting(c))[i], Items(Sorting(c))[i]);
      assert Items(Sorting(c))[i] in Items(Sorting(c));
    }
  }

  lemma InOrderOf(mem: Memory, c: Chain, was: seq<Ptr>, now: seq<Ptr>, i: nat, j: nat)
    requires |Items(c)| == |was| && |Items(Sorting(c))| == |now| && i < j < |now|
    requires forall k :: 0 <= k < |was| ==> Items(c)[k].0 == was[k]
    requires forall k :: 0 <= k < |now| ==> now[k] in mem && Items(Sorting(c))[k] == (now[k], mem[now[k]].data)
    ensures mem[now[i]].data.rank <= mem[now[j]].data.rank
    ensures mem[now[i]].data.rank == mem[now[j]].data.rank ==> InTurn(was, now[i], now[j])
  {
    hide Sorting, Items;
    SortingSorted(c);
    SortedIs(Sorting(c));
    var s := Items(Sorting(c));
    assert Precedes(s, s[i], s[j]);
    SameItems(c, s[i], s[j]);
    if s[i].1.rank == s[j].1.rank {
      var p, q :| 0 <= p < q < |Items(c)| && Items(c)[p] == s[i] && Items(c)[q] == s[j];
      assert was[p] == now[i] && was[q] == now[j];
    }
  }

  /** g_list_sort, for every list in memory. */
  method SortList(mem0: Memory, list: Ptr, ghost was: seq<Ptr>) returns (mem: Memory, head: Ptr, ghost now: seq<Ptr>)
    requires IsList(mem0, list, was)
    ensures IsList(mem, head, now) && SortedFrom(mem0, was, mem, now)
  {
    hide Sorting, Items, WellFormed, IsList, InTurn;
    ghost var c := ListIsChain(mem0, list, was);
    mem, head := Sort(mem0, list, c);
    now := Places(Items(Sorting(c)));
    ChainIsList(mem, Sorting(c));
    AllThere(mem0, list, was);
    AllThere(mem, head, now);
    ItemsNodes(c, 0);
    ItemsNodes(Sorting(c), 0);
    forall x | x in mem ensures mem[x].data == mem0[x].data && (x in now <==> x in was) && (x !in was ==> mem[x] == mem0[x]) {
      Contents(mem0, mem, c, was, now, x);
    }
    forall i: nat, j: nat | i < j < |now|
      ensures mem[now[i]].data.rank <= mem[now[j]].data.rank
      ensures mem[now[i]].data.rank == mem[now[j]].data.rank ==> InTurn(was, now[i], now[j])
    {
      InOrderOf(mem, c, was, now, i, j);
    }
  }

  lemma AllThere(mem: Memory, head: Ptr, s: seq<Ptr>)
    requires IsList(mem, head, s)
    ensures forall i :: 0 <= i < |s| ==> s[i] in mem
  {
  }
}
