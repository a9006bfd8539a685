/** Merge sort on the order of nodes: what g_list_sort is to compute. */
module GListSpec {
  /** What a node carries: what it is, and what the comparison function sees of it. */
  datatype Data = Data(id: nat, rank: int)

  /** An address; 0 is NULL. */
  type Ptr = nat

  const NULL: Ptr := 0

  /** Nodes in order. */
  datatype Chain = Nil | Cons(p: Ptr, d: Data, rest: Chain)

  ghost function Len(c: Chain): nat {
    if c.Nil? then 0 else 1 + Len(c.rest)
  }

  ghost function Join(a: Chain, b: Chain): Chain {
    if a.Nil? then b else Cons(a.p, a.d, Join(a.rest, b))
  }

  ghost function Take(c: Chain, n: nat): Chain
    requires n <= Len(c)
    ensures Len(Take(c, n)) == n
  {
    if n == 0 then Nil else Cons(c.p, c.d, Take(c.rest, n - 1))
  }

  ghost function Drop(c: Chain, n: nat): Chain
    requires n <= Len(c)
    ensures Len(Drop(c, n)) == Len(c) - n
  {
    if n == 0 then c else Drop(c.rest, n - 1)
  }

  /** Of two equal elements the one from the first list comes first. */
  ghost function Merge(a: Chain, b: Chain): Chain {
    if a.Nil? then b
    else if b.Nil? then a
    else if a.d.rank <= b.d.rank then Cons(a.p, a.d, Merge(a.rest, b))
    else Cons(b.p, b.d, Merge(a, b.rest))
  }

  ghost function Sorting(c: Chain): Chain
    decreases Len(c)
  {
    if Len(c) <= 1 then c else Merge(Sorting(Take(c, Len(c) / 2)), Sorting(Drop(c, Len(c) / 2)))
  }

  // ------------------------------------------------------- sorted

  ghost predicate AtLeast(c: Chain, rank: int) {
    c.Cons? ==> rank <= c.d.rank && AtLeast(c.rest, rank)
  }

  ghost predicate Sorted(c: Chain) {
    c.Cons? ==> AtLeast(c.rest, c.d.rank) && Sorted(c.rest)
  }

  lemma {:induction false} AtLeastLess(c: Chain, r: int, s: int)
    requires AtLeast(c, r) && s <= r
    ensures AtLeast(c, s)
    decreases c
  {
    if c.Cons? {
      AtLeastLess(c.rest, r, s);
    }
  }

  lemma {:induction false} MergeAtLeast(a: Chain, b: Chain, rank: int)
    requires AtLeast(a, rank) && AtLeast(b, rank)
    ensures AtLeast(Merge(a, b), rank)
  {
    if a.Cons? && b.Cons? {
      if a.d.rank <= b.d.rank {
        MergeAtLeast(a.rest, b, rank);
      } else {
        MergeAtLeast(a, b.rest, rank);
      }
    }
  }

  lemma {:induction false} MergeSorted(a: Chain, b: Chain)
    requires Sorted(a) && Sorted(b)
    ensures Sorted(Merge(a, b))
  {
    if a.Cons? && b.Cons? {
      if a.d.rank <= b.d.rank {
        MergeSorted(a.rest, b);
        AtLeastLess(b.rest, b.d.rank, a.d.rank);
        MergeAtLeast(a.rest, b, a.d.rank);
      } else {
        MergeSorted(a, b.rest);
        AtLeastLess(a.rest, a.d.rank, b.d.rank);
        MergeAtLeast(a, b.rest, b.d.rank);
      }
    }
  }

  lemma {:induction false} SortingSorted(c: Chain)
    ensures Sorted(Sorting(c))
    decreases Len(c)
  {
    if Len(c) > 1 {
      SortingSorted(Take(c, Len(c) / 2));
      SortingSorted(Drop(c, Len(c) / 2));
      MergeSorted(Sorting(Take(c, Len(c) / 2)), Sorting(Drop(c, Len(c) / 2)));
    } else if c.Cons? {
      assert Len(c.rest) == 0;
    }
  }

  // ------------------------------------------------------- the same nodes, equal ones in order

  /** The nodes with one rank, in order. */
  ghost function OfRank(c: Chain, rank: int): Chain {
    if c.Nil? then Nil else if c.d.rank == rank then Cons(c.p, c.d, OfRank(c.rest, rank)) else OfRank(c.rest, rank)
  }

  lemma {:induction false} OfRankJoin(a: Chain, b: Chain, rank: int)
    ensures OfRank(Join(a, b), rank) == Join(OfRank(a, rank), OfRank(b, rank))
    decreases a
  {
    if a.Cons? {
      OfRankJoin(a.rest, b, rank);
    }
  }

  lemma {:induction false} NoneOfRank(c: Chain, rank: int)
    requires AtLeast(c, rank + 1)
    ensures OfRank(c, rank) == Nil
    decreases c
  {
    if c.Cons? {
      NoneOfRank(c.rest, rank);
    }
  }

  lemma {:induction false} MergeStable(a: Chain, b: Chain, rank: int)
    requires Sorted(a) && Sorted(b)
    ensures OfRank(Merge(a, b), rank) == Join(OfRank(a, rank), OfRank(b, rank))
  {
    if a.Nil? {
    } else if b.Nil? {
      JoinNil(OfRank(a, rank));
    } else if a.d.rank <= b.d.rank {
      MergeStable(a.rest, b, rank);
    } else {
      MergeStable(a, b.rest, rank);
      if b.d.rank == rank {
        AtLeastLess(a.rest, a.d.rank, rank + 1);
        NoneOfRank(a, rank);
      }
    }
  }

  lemma {:induction false} JoinNil(a: Chain)
    ensures Join(a, Nil) == a
  {
    if a.Cons? {
      JoinNil(a.rest);
    }
  }

  lemma {:induction false} TakeDrop(c: Chain, n: nat)
    requires n <= Len(c)
    ensures Join(Take(c, n), Drop(c, n)) == c
  {
    if n > 0 {
      TakeDrop(c.rest, n - 1);
    }
  }

  /** Sorting keeps the nodes of each rank, in the order in which they were. */
  lemma {:induction false} SortingStable(c: Chain, rank: int)
    ensures OfRank(Sorting(c), rank) == OfRank(c, rank)
    decreases Len(c)
  {
    if Len(c) > 1 {
      var a, b := Take(c, Len(c) / 2), Drop(c, Len(c) / 2);
      SortingStable(a, rank);
      SortingStable(b, rank);
      SortingSorted(a);
      SortingSorted(b);
      MergeStable(Sorting(a), Sorting(b), rank);
      TakeDrop(c, Len(c) / 2);
      OfRankJoin(a, b, rank);
    }
  }

  // ------------------------------------------------------- nodes

  ghost function Nodes(c: Chain): set<Ptr> {
    if c.Nil? then {} else {c.p} + Nodes(c.rest)
  }

  /** No node occurs twice. */
  ghost predicate Apart(c: Chain) {
    c.Cons? ==> c.p !in Nodes(c.rest) && Apart(c.rest)
  }

  lemma {:induction false} JoinNodes(a: Chain, b: Chain)
    ensures Nodes(Join(a, b)) == Nodes(a) + Nodes(b)
    ensures Apart(Join(a, b)) <==> Apart(a) && Apart(b) && Nodes(a) !! Nodes(b)
    ensures Len(Join(a, b)) == Len(a) + Len(b)
    decreases a
  {
    if a.Cons? {
      JoinNodes(a.rest, b);
    }
  }

  lemma {:induction false} MergeNodes(a: Chain, b: Chain)
    ensures Nodes(Merge(a, b)) == Nodes(a) + Nodes(b) && Len(Merge(a, b)) == Len(a) + Len(b)
    ensures Apart(a) && Apart(b) && Nodes(a) !! Nodes(b) ==> Apart(Merge(a, b))
  {
    if a.Cons? && b.Cons? {
      if a.d.rank <= b.d.rank {
        MergeNodes(a.rest, b);
      } else {
        MergeNodes(a, b.rest);
      }
    }
  }

  lemma {:induction false} SortingNodes(c: Chain)
    requires Apart(c)
    ensures Nodes(Sorting(c)) == Nodes(c) && Apart(Sorting(c)) && Len(Sorting(c)) == Len(c)
    decreases Len(c)
  {
    if Len(c) > 1 {
      var a, b := Take(c, Len(c) / 2), Drop(c, Len(c) / 2);
      TakeDrop(c, Len(c) / 2);
      JoinNodes(a, b);
      SortingNodes(a);
      SortingNodes(b);
      MergeNodes(Sorting(a), Sorting(b));
    }
  }
}
