/** The ordered map that a GTree stands for: entries in strictly ascending order of rank. */
module GTreeEntries {
  import opened GTreeShape

  type Entries = seq<(Key, Value)>

  ghost predicate Sorted(s: Entries) {
    forall i, j :: 0 <= i < j < |s| ==> s[i].0.rank < s[j].0.rank
  }

  ghost predicate AllBelow(s: Entries, rank: int) {
    forall i :: 0 <= i < |s| ==> s[i].0.rank < rank
  }

  ghost predicate AllAbove(s: Entries, rank: int) {
    forall i :: 0 <= i < |s| ==> rank < s[i].0.rank
  }

  /** g_tree_insert and g_tree_replace: an entry of the same rank gets the new value, and keeps its
      key unless it is to be replaced; otherwise a new entry goes where the order wants it. */
  ghost function Put(s: Entries, key: Key, value: Value, replace: bool): Entries {
    if s == [] then [(key, value)]
    else if s[0].0.rank < key.rank then [s[0]] + Put(s[1..], key, value, replace)
    else if s[0].0.rank == key.rank then [(if replace then key else s[0].0, value)] + s[1..]
    else [(key, value)] + s
  }

  /** The key and the value that an insertion hands to the destroy functions: those it displaces,
      where without replacement the displaced key is the new one. */
  ghost function DisplacedKey(m: map<int, (Key, Value)>, key: Key, replace: bool): seq<Key> {
    if key.rank !in m then [] else [if replace then m[key.rank].0 else key]
  }

  ghost function DisplacedValue(m: map<int, (Key, Value)>, key: Key): seq<Value> {
    if key.rank !in m then [] else [m[key.rank].1]
  }

  /** All keys, or all values, of the entries. */
  ghost function KeysOf(s: Entries): multiset<Key> {
    if s == [] then multiset{} else multiset{s[0].0} + KeysOf(s[1..])
  }

  ghost function ValuesOf(s: Entries): multiset<Value> {
    if s == [] then multiset{} else multiset{s[0].1} + ValuesOf(s[1..])
  }

  /** Those of them at every place of the sequence. */
  lemma {:induction false} KeysAre(s: Entries)
    ensures KeysOf(s) == multiset(seq(|s|, i requires 0 <= i < |s| => s[i].0))
    ensures ValuesOf(s) == multiset(seq(|s|, i requires 0 <= i < |s| => s[i].1))
  {
    if s != [] {
      KeysAre(s[1..]);
      var rest := s[1..];
      assert seq(|s|, i requires 0 <= i < |s| => s[i].0) == [s[0].0] + seq(|rest|, i requires 0 <= i < |rest| => rest[i].0);
      assert seq(|s|, i requires 0 <= i < |s| => s[i].1) == [s[0].1] + seq(|rest|, i requires 0 <= i < |rest| => rest[i].1);
    }
  }

  /** g_tree_remove. */
  ghost function Del(s: Entries, rank: int): Entries {
    if s == [] then []
    else if s[0].0.rank == rank then s[1..]
    else [s[0]] + Del(s[1..], rank)
  }

  /** The same entries as a finite map from rank to entry. */
  ghost function AsMap(s: Entries): map<int, (Key, Value)> {
    if s == [] then map[] else AsMap(s[1..])[s[0].0.rank := s[0]]
  }

  lemma {:induction false} AsMapKeys(s: Entries, rank: int)
    ensures rank in AsMap(s) <==> exists i :: 0 <= i < |s| && s[i].0.rank == rank
  {
    if s != [] {
      AsMapKeys(s[1..], rank);
      assert forall i :: 0 <= i < |s[1..]| ==> s[1..][i] == s[i + 1];
      assert forall i :: 0 < i < |s| ==> s[i] == s[1..][i - 1];
    }
  }

  lemma {:induction false} AsMapAt(s: Entries, i: nat)
    requires Sorted(s) && i < |s|
    ensures s[i].0.rank in AsMap(s) && AsMap(s)[s[i].0.rank] == s[i]
  {
    if i > 0 {
      AsMapAt(s[1..], i - 1);
    }
  }

  lemma AsMapAbove(s: Entries, rank: int)
    requires AllAbove(s, rank)
    ensures rank !in AsMap(s)
  {
    AsMapKeys(s, rank);
  }

  lemma {:induction false} PutKeepsOrder(s: Entries, key: Key, value: Value, replace: bool)
    requires Sorted(s)
    ensures Sorted(Put(s, key, value, replace))
    ensures forall r :: AllAbove(s, r) && r < key.rank ==> AllAbove(Put(s, key, value, replace), r)
  {
    if s != [] && s[0].0.rank < key.rank {
      PutKeepsOrder(s[1..], key, value, replace);
      assert AllAbove(s[1..], s[0].0.rank);
    }
  }

  /** Inserting updates the map at one rank. */
  lemma {:induction false} PutIsUpdate(s: Entries, key: Key, value: Value, replace: bool)
    requires Sorted(s)
    ensures var old_ := AsMap(s); var k := if key.rank in old_ && !replace then old_[key.rank].0 else key; AsMap(Put(s, key, value, replace)) == old_[key.rank := (k, value)]
  {
    if s != [] && s[0].0.rank < key.rank {
      PutIsUpdate(s[1..], key, value, replace);
      var t := Put(s[1..], key, value, replace);
      assert (([s[0]] + t)[1..]) == t;
    } else if s != [] && s[0].0.rank > key.rank {
      AsMapAbove(s, key.rank);
      assert (([(key, value)] + s)[1..]) == s;
    } else if s != [] {
      var e := (if replace then key else s[0].0, value);
      assert (([e] + s[1..])[1..]) == s[1..];
    }
  }

  lemma FirstOf(e: (Key, Value), s: Entries)
    ensures KeysOf([e] + s) == multiset{e.0} + KeysOf(s) && ValuesOf([e] + s) == multiset{e.1} + ValuesOf(s)
  {
    assert ([e] + s)[1..] == s;
  }

  lemma Exchange<T>(x: multiset<T>, a: T, b: T, c: multiset<T>)
    ensures (multiset{a} + x) + multiset{b} == (multiset{b} + x) + multiset{a}
    ensures (multiset{a} + x) + c == multiset{a} + (x + c)
  {
  }

  lemma PutCases(s: Entries, key: Key, value: Value, replace: bool)
    requires Sorted(s)
    ensures s == [] || s[0].0.rank > key.rank ==> Put(s, key, value, replace) == [(key, value)] + s && key.rank !in AsMap(s)
    ensures s != [] && s[0].0.rank == key.rank ==> Put(s, key, value, replace) == [(if replace then key else s[0].0, value)] + s[1..] && key.rank in AsMap(s) && AsMap(s)[key.rank] == s[0]
    ensures s != [] && s[0].0.rank < key.rank ==> Put(s, key, value, replace) == [s[0]] + Put(s[1..], key, value, replace)
    ensures s != [] && s[0].0.rank < key.rank ==> (key.rank in AsMap(s) <==> key.rank in AsMap(s[1..])) && (key.rank in AsMap(s) ==> AsMap(s)[key.rank] == AsMap(s[1..])[key.rank])
  {
    if s != [] && s[0].0.rank > key.rank {
      AsMapAbove(s, key.rank);
    }
  }

  /** No key is lost: each is in the tree or was handed to its destroy function. */
  lemma {:induction false} NoKeyLost(s: Entries, key: Key, value: Value, replace: bool)
    requires Sorted(s)
    ensures KeysOf(Put(s, key, value, replace)) + multiset(DisplacedKey(AsMap(s), key, replace)) == KeysOf(s) + multiset{key}
  {
    hide Put, AsMap, Sorted, KeysOf, ValuesOf;
    PutCases(s, key, value, replace);
    var gone := multiset(DisplacedKey(AsMap(s), key, replace));
    if s == [] || s[0].0.rank > key.rank {
      FirstOf((key, value), s);
    } else {
      assert s == [s[0]] + s[1..];
      FirstOf(s[0], s[1..]);
      if s[0].0.rank < key.rank {
        TailSorted(s);
        NoKeyLost(s[1..], key, value, replace);
        FirstOf(s[0], Put(s[1..], key, value, replace));
        Exchange(KeysOf(Put(s[1..], key, value, replace)), s[0].0, key, gone);
        Exchange(KeysOf(s[1..]), s[0].0, key, multiset{key});
      } else {
        FirstOf((if replace then key else s[0].0, value), s[1..]);
        Exchange(KeysOf(s[1..]), key, s[0].0, gone);
      }
    }
  }

  /** Nor is a value. */
  lemma {:induction false} NoValueLost(s: Entries, key: Key, value: Value, replace: bool)
    requires Sorted(s)
    ensures ValuesOf(Put(s, key, value, replace)) + multiset(DisplacedValue(AsMap(s), key)) == ValuesOf(s) + multiset{value}
  {
    hide Put, AsMap, Sorted, ValuesOf, KeysOf;
    PutCases(s, key, value, replace);
    var gone := multiset(DisplacedValue(AsMap(s), key));
    if s == [] || s[0].0.rank > key.rank {
      FirstOf((key, value), s);
    } else {
      assert s == [s[0]] + s[1..];
      FirstOf(s[0], s[1..]);
      if s[0].0.rank < key.rank {
        TailSorted(s);
        NoValueLost(s[1..], key, value, replace);
        FirstOf(s[0], Put(s[1..], key, value, replace));
        Exchange(ValuesOf(Put(s[1..], key, value, replace)), s[0].1, value, gone);
        Exchange(ValuesOf(s[1..]), s[0].1, value, multiset{value});
      } else {
        FirstOf((if replace then key else s[0].0, value), s[1..]);
        Exchange(ValuesOf(s[1..]), value, s[0].1, gone);
      }
    }
  }

  lemma TailSorted(s: Entries)
    requires Sorted(s) && s != []
    ensures Sorted(s[1..])
  {
  }

  /** Removing erases one rank from the map and keeps the order. */
  lemma {:induction false} DelIsErase(s: Entries, rank: int)
    requires Sorted(s)
    ensures AsMap(Del(s, rank)) == AsMap(s) - {rank}
    ensures Sorted(Del(s, rank))
    ensures forall r :: AllAbove(s, r) ==> AllAbove(Del(s, rank), r)
  {
    if s != [] && s[0].0.rank == rank {
      AsMapAbove(s[1..], rank);
    } else if s != [] {
      DelIsErase(s[1..], rank);
      assert AllAbove(s[1..], s[0].0.rank);
      var t := Del(s[1..], rank);
      assert (([s[0]] + t)[1..]) == t;
    }
  }

  /** Where the new entry goes, seen from the place that the search reached. */
  lemma {:induction false} PutNew(b: Entries, a: Entries, key: Key, value: Value, replace: bool)
    requires AllBelow(b, key.rank) && AllAbove(a, key.rank)
    ensures Put(b + a, key, value, replace) == b + [(key, value)] + a
  {
    if b == [] {
      assert b + a == a;
    } else {
      PutNew(b[1..], a, key, value, replace);
      assert (b + a)[1..] == b[1..] + a;
    }
  }

  lemma {:induction false} PutOver(b: Entries, e: (Key, Value), a: Entries, key: Key, value: Value, replace: bool)
    requires AllBelow(b, key.rank) && e.0.rank == key.rank
    ensures Put(b + [e] + a, key, value, replace) == b + [(if replace then key else e.0, value)] + a
  {
    if b == [] {
      assert (b + [e] + a)[1..] == a;
    } else {
      PutOver(b[1..], e, a, key, value, replace);
      assert (b + [e] + a)[1..] == b[1..] + [e] + a;
    }
  }

  lemma {:induction false} DelAt(b: Entries, e: (Key, Value), a: Entries)
    requires AllBelow(b, e.0.rank)
    ensures Del(b + [e] + a, e.0.rank) == b + a
  {
    if b == [] {
      assert (b + [e] + a)[1..] == a && b + a == a;
    } else {
      DelAt(b[1..], e, a);
      assert (b + [e] + a)[1..] == b[1..] + [e] + a;
      assert [b[0]] + (b[1..] + a) == b + a;
    }
  }

  lemma {:induction false} DelAbsent(b: Entries, a: Entries, rank: int)
    requires AllBelow(b, rank) && AllAbove(a, rank)
    ensures Del(b + a, rank) == b + a
  {
    if b == [] {
      assert b + a == a;
      if a != [] {
        DelAbsent([], a[1..], rank);
        assert [] + a[1..] == a[1..];
      }
    } else {
      DelAbsent(b[1..], a, rank);
      assert (b + a)[1..] == b[1..] + a;
      assert [b[0]] + (b[1..] + a) == b + a;
    }
  }
}
