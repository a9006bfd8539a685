/** The exit addresses of the engine, kept in a GTree. */
module Exits {
  import opened GTreeShape
  import opened GTreeEntries
  import opened GTreeHeight
  import opened GTreeSearch
  import opened GTrees

  datatype Err = ERR_OK | ERR_ARG

  /** The ranks of the keys, in order. */
  ghost function Ranks(s: Entries): seq<int> {
    seq(|s|, i requires 0 <= i < |s| => s[i].0.rank)
  }

  ghost predicate Ascending(s: seq<int>) {
    forall i, j :: 0 <= i < j < |s| ==> s[i] < s[j]
  }

  lemma RanksAre(s: Entries, a: int)
    requires Sorted(s)
    ensures Ascending(Ranks(s)) && (a in Ranks(s) <==> a in AsMap(s))
  {
    AsMapKeys(s, a);
    if a in AsMap(s) {
      var i :| 0 <= i < |s| && s[i].0.rank == a;
      assert Ranks(s)[i] == a;
    }
  }

  lemma HasElement(s: seq<int>)
    ensures s == [] || exists x :: x in s
  {
    if s != [] {
      var x := s[0];
      assert x in s;
    }
  }

  /** Two ascending sequences with the same elements are the same. */
  lemma {:induction false} AscendingUnique(a: seq<int>, b: seq<int>)
    requires Ascending(a) && Ascending(b) && forall x :: x in a <==> x in b
    ensures a == b
  {
    if a == [] || b == [] {
      HasElement(a);
      HasElement(b);
    } else {
      assert a[0] in b && b[0] in a;
      forall x
        ensures x in a[1..] <==> x in b[1..]
      {
        assert x in a[1..] <==> x in a && x != a[0];
        assert x in b[1..] <==> x in b && x != b[0];
      }
      AscendingUnique(a[1..], b[1..]);
      assert a == [a[0]] + a[1..] && b == [b[0]] + b[1..];
    }
  }

  /** Every exit in the tree is stored with value 1. */
  ghost predicate AllOnes(m: map<int, (Key, Value)>) {
    forall a :: a in m ==> m[a].1 == 1
  }

  /** The different addresses in a list. */
  function Distinct(list: seq<int>): set<int> {
    set a | a in list
  }

  class Engine {
    var useExits: bool
    var exits: seq<int>
    var nestedLevel: nat
    const ctlExits: GTree

    ghost predicate Valid()
      reads this, ctlExits
    {
      ctlExits.Valid() && AllOnes(ctlExits.Map()) && 1 <= nestedLevel <= |exits|
    }

    /** The exit addresses that were written. */
    ghost function Addresses(): set<int>
      reads this, ctlExits
    {
      ctlExits.Map().Keys
    }

    constructor (useExits: bool, exits: seq<int>, nestedLevel: nat)
      requires 1 <= nestedLevel <= |exits|
      ensures Valid() && fresh(ctlExits) && Addresses() == {}
      ensures this.useExits == useExits && this.exits == exits && this.nestedLevel == nestedLevel
    {
      this.useExits, this.exits, this.nestedLevel := useExits, exits, nestedLevel;
      ctlExits := new GTree();
    }

    /** uc_add_exit; `id` is the address of the new key. */
    method AddExit(addr: int, id: nat)
      requires Valid() && |Addresses()| < TOO_MANY_NODES
      modifies ctlExits
      ensures Valid() && Addresses() == old(Addresses()) + {addr}
    {
      hide Whole, AsMap, InOrder, Sorted, Put, DisplacedKey, DisplacedValue, KeysOf, ValuesOf;
      AsMapSize(ctlExits.Contents());
      var _, _ := ctlExits.Insert(Key(id, addr), 1, false);
    }

    /** UC_CTL_UC_EXITS, write. `ids` are the addresses of the new keys. */
    method WriteExits(list: seq<int>, ids: seq<nat>) returns (err: Err)
      requires Valid() && |Distinct(list)| < TOO_MANY_NODES && |ids| == |list|
      modifies ctlExits
      ensures Valid() && err == if useExits then ERR_OK else ERR_ARG
      ensures Addresses() == if useExits then Distinct(list) else old(Addresses())
    {
      hide GTree.Valid, GTree.Map, Distinct;
      if !useExits {
        return ERR_ARG;
      }
      var _ := ctlExits.RemoveAll();
      NoneDistinct();
      for i := 0 to |list|
        invariant Valid() && Addresses() == Distinct(list[..i])
      {
        DistinctMore(list, i);
        AddExit(list[i], ids[i]);
      }
      assert list[..|list|] == list;
      return ERR_OK;
    }

    /** UC_CTL_UC_EXITS, read into an array of `cnt` slots: the exit addresses in ascending order,
        and nothing else is touched. */
    method ReadExits(out: array<int>, cnt: nat) returns (err: Err)
      requires Valid() && cnt <= out.Length
      modifies out
      ensures err == if !useExits || cnt < |Addresses()| then ERR_ARG else ERR_OK
      ensures err == ERR_ARG ==> out[..] == old(out[..])
      ensures err == ERR_OK ==> |Addresses()| <= out.Length
      ensures err == ERR_OK ==> Ascending(out[..|Addresses()|]) && forall a :: a in out[..|Addresses()|] <==> a in Addresses()
      ensures err == ERR_OK ==> out[|Addresses()|..] == old(out[|Addresses()|..])
    {
      hide Whole, AsMap, InOrder, Sorted, Ascending, Ranks;
      AsMapSize(ctlExits.Contents());
      if !useExits || cnt < ctlExits.nnodes {
        return ERR_ARG;
      }
      ghost var s := ctlExits.Contents();
      var seen := ctlExits.Foreach((k, v) => false);
      assert seen == s;
      forall a { RanksAre(s, a); }
      RanksAt(s);
      var len: nat := 0;
      while len < |seen|
        invariant len <= |seen| && seen == s
        invariant out[..len] == Ranks(s)[..len] && out[|s|..] == old(out[|s|..])
      {
        out[len] := seen[len].0.rank;
        len := len + 1;
      }
      assert Ranks(s)[..len] == Ranks(s);
      return ERR_OK;
    }

    /** uc_addr_is_exit. */
    method AddrIsExit(addr: int) returns (yes: bool)
      requires Valid()
      ensures yes <==> if useExits then addr in Addresses() else addr == exits[nestedLevel - 1]
    {
      hide Whole, AsMap, InOrder, Sorted;
      if useExits {
        var value := ctlExits.Lookup(Key(0, addr));
        yes := value == 1;
      } else {
        yes := exits[nestedLevel - 1] == addr;
      }
    }

    /** Written, then read: the distinct addresses in ascending order, and membership agrees. */
    method WriteThenRead(list: seq<int>, ids: seq<nat>, out: array<int>, addr: int) returns (n: nat, yes: bool)
      requires Valid() && useExits && |Distinct(list)| < TOO_MANY_NODES && |ids| == |list| && |Distinct(list)| <= out.Length
      requires out as object != ctlExits && out as object != this
      modifies ctlExits, out
      ensures n <= out.Length && (forall i, j :: 0 <= i < j < n ==> out[i] < out[j]) && forall a :: a in out[..n] <==> a in list
      ensures yes <==> addr in list
    {
      var _ := WriteExits(list, ids);
      var _ := ReadExits(out, out.Length);
      yes := AddrIsExit(addr);
      n := ctlExits.nnodes;
      AsMapSize(ctlExits.Contents());
      assert forall i :: 0 <= i < n ==> out[..n][i] == out[i];
    }
  }

  lemma SmallerSet(a: set<int>, b: set<int>)
    requires a <= b
    ensures |a| <= |b|
  {
    assert b == a + (b - a);
  }

  lemma NoneDistinct()
    ensures Distinct([]) == {}
  {
  }

  lemma DistinctMore(list: seq<int>, i: nat)
    requires i < |list|
    ensures Distinct(list[..i + 1]) == Distinct(list[..i]) + {list[i]} && |Distinct(list[..i])| <= |Distinct(list)|
  {
    assert list[..i + 1] == list[..i] + [list[i]];
    SmallerSet(Distinct(list[..i]), Distinct(list));
  }

  lemma RanksAt(s: Entries)
    ensures |Ranks(s)| == |s| && forall i :: 0 <= i < |s| ==> Ranks(s)[i] == s[i].0.rank
  {
  }
}
