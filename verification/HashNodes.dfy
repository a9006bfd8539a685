/** The node array of the hash table: what keeps every live key findable. */
module HashNodes {
  import opened Arithmetic
  import opened Probing

  /** A node that was never used (key_hash 0), one that was removed (key_hash 1), a live one. */
  datatype Node<+K, +V> = Empty | Tombstone | Live(keyHash: nat, key: K, value: V)

  /** hash_func and key_equal_func. */
  datatype KeyOps<!K> = KeyOps(hash: K -> nat, eq: (K, K) -> bool)

  /** What the table demands of its callbacks. */
  ghost predicate Lawful<K(!new)>(ops: KeyOps<K>) {
    && (forall a :: ops.eq(a, a))
    && (forall a, b :: ops.eq(a, b) ==> ops.eq(b, a) && ops.hash(a) == ops.hash(b))
    && (forall a, b, c :: ops.eq(a, b) && ops.eq(b, c) ==> ops.eq(a, c))
  }

  /** 0 and 1 mark unused nodes, so a hash value is never one of them. */
  function KeyHash<K>(ops: KeyOps<K>, k: K): (h: nat)
    ensures h >= 2
  {
    if ops.hash(k) <= 1 then 2 else ops.hash(k)
  }

  /** Equal keys start probing at the same slot, which is the hash value modulo the prime. */
  lemma StartIs<K(!new)>(ops: KeyOps<K>, k: K, mod: nat)
    requires Lawful(ops) && mod > 0
    ensures ops.hash(k) >= 2 ==> Start(KeyHash(ops, k), mod) == ops.hash(k) % mod
    ensures ops.hash(k) < 2 ==> Start(KeyHash(ops, k), mod) == 2 % mod
    ensures forall j :: ops.eq(j, k) ==> KeyHash(ops, j) == KeyHash(ops, k)
  {
  }

  /** Slot `i` is the `t`-th on the probe path of `start`, and no slot before it is empty. */
  ghost predicate ReachedAt<K, V>(nodes: seq<Node<K, V>>, start: nat, i: nat, t: nat)
    requires start < |nodes|
  {
    t < |nodes| && Probe(start, t, |nodes|) == i && NoneEmpty(nodes, start, t)
  }

  ghost predicate NoneEmpty<K, V>(nodes: seq<Node<K, V>>, start: nat, t: nat)
    requires start < |nodes|
  {
    forall u: nat :: u < t ==> !nodes[Probe(start, u, |nodes|)].Empty?
  }

  ghost predicate Reached<K, V>(nodes: seq<Node<K, V>>, start: nat, i: nat)
    requires start < |nodes|
  {
    exists t: nat :: ReachedAt(nodes, start, i, t)
  }

  ghost predicate AllLive<K, V>(nodes: seq<Node<K, V>>, start: nat, t: nat)
    requires start < |nodes|
  {
    forall u: nat :: u < t ==> nodes[Probe(start, u, |nodes|)].Live?
  }

  /** Slot `i` is the first on the probe path of `start` that holds no entry. */
  ghost predicate FirstFree<K, V>(nodes: seq<Node<K, V>>, start: nat, i: nat)
    requires start < |nodes|
  {
    i < |nodes| && !nodes[i].Live? && exists t: nat :: AllLive(nodes, start, t) && t < |nodes| && Probe(start, t, |nodes|) == i
  }

  /** The slot where probing for a hash value starts. */
  function Start(h: nat, mod: nat): (s: nat)
    requires mod > 0
    ensures s < mod
  {
    h % mod
  }

  ghost predicate LiveOk<K, V>(ops: KeyOps<K>, nodes: seq<Node<K, V>>, mod: nat, i: nat)
    requires 0 < mod <= |nodes| && i < |nodes|
  {
    nodes[i].Live? ==> nodes[i].keyHash == KeyHash(ops, nodes[i].key) && Reached(nodes, Start(nodes[i].keyHash, mod), i)
  }

  /** The table invariant: the size is a power of two, every live key lies on its own probe path
      before the first empty slot, and no key is there twice. */
  ghost predicate Ok<K(!new), V>(ops: KeyOps<K>, nodes: seq<Node<K, V>>, shift: nat, mod: nat) {
    && Lawful(ops)
    && |nodes| == Pow2(shift) && 0 < mod <= |nodes|
    && (forall i: nat :: i < |nodes| ==> LiveOk(ops, nodes, mod, i))
    && (forall i: nat, j: nat :: i < |nodes| && j < |nodes| && nodes[i].Live? && nodes[j].Live? && ops.eq(nodes[i].key, nodes[j].key) ==> i == j)
  }

  /** The contents: pairs of key and value. */
  ghost function Entries<K, V>(nodes: seq<Node<K, V>>): set<(K, V)> {
    set i: nat | i < |nodes| && nodes[i].Live? :: (nodes[i].key, nodes[i].value)
  }

  ghost predicate HasKey<K, V>(ops: KeyOps<K>, nodes: seq<Node<K, V>>, k: K) {
    exists i: nat :: i < |nodes| && nodes[i].Live? && ops.eq(nodes[i].key, k)
  }

  /** The entries of keys other than `k`. */
  ghost function Without<K(!new), V(!new)>(ops: KeyOps<K>, e: set<(K, V)>, k: K): set<(K, V)> {
    set p | p in e && !ops.eq(p.0, k)
  }

  /** How many nodes are not empty, and how many are live. */
  function Used<K, V>(nodes: seq<Node<K, V>>): nat {
    if nodes == [] then 0 else Used(nodes[..|nodes| - 1]) + if nodes[|nodes| - 1].Empty? then 0 else 1
  }

  function Lives<K, V>(nodes: seq<Node<K, V>>): nat {
    if nodes == [] then 0 else Lives(nodes[..|nodes| - 1]) + if nodes[|nodes| - 1].Live? then 1 else 0
  }

  lemma {:induction false} CountUpdate<K, V>(nodes: seq<Node<K, V>>, i: nat, n: Node<K, V>)
    requires i < |nodes|
    ensures Used(nodes[i := n]) == Used(nodes) - (if nodes[i].Empty? then 0 else 1) + (if n.Empty? then 0 else 1)
    ensures Lives(nodes[i := n]) == Lives(nodes) - (if nodes[i].Live? then 1 else 0) + (if n.Live? then 1 else 0)
  {
    var m := |nodes| - 1;
    if i < m {
      CountUpdate(nodes[..m], i, n);
      assert nodes[i := n][..m] == nodes[..m][i := n];
    } else {
      assert nodes[i := n][..m] == nodes[..m];
    }
  }

  lemma {:induction false} CountBounds<K, V>(nodes: seq<Node<K, V>>)
    ensures Lives(nodes) <= Used(nodes) <= |nodes|
    ensures Used(nodes) < |nodes| ==> exists i: nat :: i < |nodes| && nodes[i].Empty?
    ensures Used(nodes) == |nodes| ==> forall i: nat :: i < |nodes| ==> !nodes[i].Empty?
  {
    if nodes != [] {
      var a := nodes[..|nodes| - 1];
      CountBounds(a);
      if Used(nodes) < |nodes| {
        if Used(a) < |a| {
          var i: nat :| i < |a| && a[i].Empty?;
          assert nodes[i].Empty?;
        } else {
          assert nodes[|nodes| - 1].Empty?;
        }
      } else {
        assert forall i: nat :: i < |a| ==> a[i] == nodes[i];
      }
    }
  }

  // ---------------------------------------------------------------- changes of one node

  lemma StillReached<K, V>(nodes: seq<Node<K, V>>, start: nat, i: nat, j: nat, n: Node<K, V>)
    requires start < |nodes| && j < |nodes| && Reached(nodes, start, i) && !n.Empty?
    ensures Reached(nodes[j := n], start, i)
  {
    hide Probe;
    var t: nat :| ReachedAt(nodes, start, i, t);
    assert ReachedAt(nodes[j := n], start, i, t);
  }

  /** Writing a key into a free slot on its path. */
  lemma PutLive<K(!new), V(!new)>(ops: KeyOps<K>, nodes: seq<Node<K, V>>, shift: nat, mod: nat, i: nat, k: K, v: V)
    requires Ok(ops, nodes, shift, mod) && i < |nodes| && !nodes[i].Live? && !HasKey(ops, nodes, k)
    requires Reached(nodes, Start(KeyHash(ops, k), mod), i)
    ensures var nodes' := nodes[i := Live(KeyHash(ops, k), k, v)];
            Ok(ops, nodes', shift, mod) && Entries(nodes') == Entries(nodes) + {(k, v)}
  {
    hide Probe, Pow2, Reached, Start, KeyHash;
    var n := Live(KeyHash(ops, k), k, v);
    var nodes' := nodes[i := n];
    forall j: nat | j < |nodes|
      ensures LiveOk(ops, nodes', mod, j)
    {
      assert LiveOk(ops, nodes, mod, j);
      if nodes'[j].Live? {
        StillReached(nodes, Start(nodes'[j].keyHash, mod), j, i, n);
      }
    }
    forall p | p in Entries(nodes')
      ensures p in Entries(nodes) + {(k, v)}
    {
      var j: nat :| j < |nodes'| && nodes'[j].Live? && p == (nodes'[j].key, nodes'[j].value);
      assert j != i ==> nodes[j] == nodes'[j];
    }
    forall p | p in Entries(nodes) + {(k, v)}
      ensures p in Entries(nodes')
    {
      if p in Entries(nodes) {
        var j: nat :| j < |nodes| && nodes[j].Live? && p == (nodes[j].key, nodes[j].value);
        assert nodes'[j] == nodes[j];
      } else {
        assert nodes'[i] == n;
      }
    }
  }

  /** Giving a live node another value, or another key equal to its own, or burying it. */
  lemma ChangeLive<K(!new), V(!new)>(ops: KeyOps<K>, nodes: seq<Node<K, V>>, shift: nat, mod: nat, i: nat, n: Node<K, V>)
    requires Ok(ops, nodes, shift, mod) && i < |nodes| && nodes[i].Live?
    requires n.Tombstone? || (n.Live? && n.keyHash == nodes[i].keyHash && ops.eq(n.key, nodes[i].key))
    ensures Ok(ops, nodes[i := n], shift, mod)
    ensures Entries(nodes[i := n]) ==
            Without(ops, Entries(nodes), nodes[i].key) + if n.Live? then {(n.key, n.value)} else {}
  {
    hide Probe, Pow2, Reached, Start;
    var nodes', k := nodes[i := n], nodes[i].key;
    forall j: nat | j < |nodes|
      ensures LiveOk(ops, nodes', mod, j)
    {
      assert LiveOk(ops, nodes, mod, j);
      if nodes'[j].Live? {
        StillReached(nodes, Start(nodes'[j].keyHash, mod), j, i, n);
      }
    }
    var rest := Without(ops, Entries(nodes), k);
    forall p | p in Entries(nodes')
      ensures p in rest || (n.Live? && p == (n.key, n.value))
    {
      var j: nat :| j < |nodes'| && nodes'[j].Live? && p == (nodes'[j].key, nodes'[j].value);
      assert j != i ==> nodes[j] == nodes'[j];
    }
    forall p | p in rest
      ensures p in Entries(nodes')
    {
      var j: nat :| j < |nodes| && nodes[j].Live? && p == (nodes[j].key, nodes[j].value);
      assert nodes'[j] == nodes[j];
    }
    if n.Live? {
      assert nodes'[i] == n;
    }
  }

  lemma WithoutAbsent<K(!new), V(!new)>(ops: KeyOps<K>, nodes: seq<Node<K, V>>, k: K)
    requires !HasKey(ops, nodes, k)
    ensures Without(ops, Entries(nodes), k) == Entries(nodes)
  {
  }

  lemma WithoutEqual<K(!new), V(!new)>(ops: KeyOps<K>, e: set<(K, V)>, k: K, l: K)
    requires Lawful(ops) && ops.eq(k, l)
    ensures Without(ops, e, k) == Without(ops, e, l)
  {
  }

  // ---------------------------------------------------------------- probing

  /** The first `t` probes from the start of key `k` met neither an empty node nor `k`. */
  ghost predicate Searched<K, V>(ops: KeyOps<K>, nodes: seq<Node<K, V>>, mod: nat, k: K, t: nat)
    requires 0 < mod <= |nodes|
  {
    forall u: nat :: u < t ==> Passed(ops, nodes, k, Probe(Start(KeyHash(ops, k), mod), u, |nodes|))
  }

  ghost predicate Passed<K, V>(ops: KeyOps<K>, nodes: seq<Node<K, V>>, k: K, i: nat)
    requires i < |nodes|
  {
    !nodes[i].Empty? && (nodes[i].Live? ==> !ops.eq(nodes[i].key, k))
  }

  /** Comparing the stored hash first skips no equal key. */
  lemma SearchedMore<K(!new), V>(ops: KeyOps<K>, nodes: seq<Node<K, V>>, shift: nat, mod: nat, k: K, t: nat)
    requires Ok(ops, nodes, shift, mod) && Searched(ops, nodes, mod, k, t)
    requires var n := nodes[Probe(Start(KeyHash(ops, k), mod), t, |nodes|)];
             !n.Empty? && (n.Live? ==> n.keyHash != KeyHash(ops, k) || !ops.eq(n.key, k))
    ensures Searched(ops, nodes, mod, k, t + 1)
  {
    hide Probe, Start, Pow2;
    var i := Probe(Start(KeyHash(ops, k), mod), t, |nodes|);
    assert LiveOk(ops, nodes, mod, i);
    assert Passed(ops, nodes, k, i);
  }

  /** An empty node ends the search: the key is nowhere. */
  lemma EndOfPath<K(!new), V>(ops: KeyOps<K>, nodes: seq<Node<K, V>>, shift: nat, mod: nat, k: K, t: nat)
    requires Ok(ops, nodes, shift, mod) && Searched(ops, nodes, mod, k, t)
    requires nodes[Probe(Start(KeyHash(ops, k), mod), t, |nodes|)].Empty?
    ensures !HasKey(ops, nodes, k)
  {
    hide Probe, Start, LiveOk;
    if HasKey(ops, nodes, k) {
      var i: nat :| i < |nodes| && nodes[i].Live? && ops.eq(nodes[i].key, k);
      var u := PathOfKey(ops, nodes, shift, mod, k, i);
    }
  }

  lemma PathOfKey<K(!new), V>(ops: KeyOps<K>, nodes: seq<Node<K, V>>, shift: nat, mod: nat, k: K, i: nat) returns (u: nat)
    requires Ok(ops, nodes, shift, mod) && i < |nodes| && nodes[i].Live? && ops.eq(nodes[i].key, k)
    ensures ReachedAt(nodes, Start(KeyHash(ops, k), mod), i, u)
  {
    assert LiveOk(ops, nodes, mod, i);
    u :| ReachedAt(nodes, Start(KeyHash(ops, k), mod), i, u);
  }

  /** Probing cannot go on past all slots while one of them is empty. */
  lemma PathEnds<K(!new), V>(ops: KeyOps<K>, nodes: seq<Node<K, V>>, shift: nat, mod: nat, start: nat, t: nat)
    requires |nodes| == Pow2(shift) && start < |nodes| && Used(nodes) < |nodes|
    requires NoneEmpty(nodes, start, t)
    ensures t < |nodes|
  {
    CountBounds(nodes);
    var j: nat :| j < |nodes| && nodes[j].Empty?;
    var u := EverySlotVisited(start, j, shift);
  }

  // ---------------------------------------------------------------- rebuilding

  /** `nodes` holds the live nodes among the first `n` of `old_`, and nothing else. */
  ghost predicate Rebuilt<K(!new), V(!new)>(ops: KeyOps<K>, old_: seq<Node<K, V>>, n: nat, nodes: seq<Node<K, V>>, shift: nat, mod: nat)
    requires n <= |old_|
  {
    && Ok(ops, nodes, shift, mod)
    && Entries(nodes) == Entries(old_[..n])
    && Used(nodes) == Lives(nodes) == Lives(old_[..n])
  }

  lemma {:induction false} CountEmpty<K, V>(nodes: seq<Node<K, V>>)
    requires forall i: nat :: i < |nodes| ==> nodes[i].Empty?
    ensures Used(nodes) == Lives(nodes) == 0
  {
    if nodes != [] {
      CountEmpty(nodes[..|nodes| - 1]);
    }
  }

  lemma {:induction false} LivesPrefix<K, V>(nodes: seq<Node<K, V>>, n: nat)
    requires n <= |nodes|
    ensures Lives(nodes[..n]) <= Lives(nodes)
  {
    if n < |nodes| {
      LivesPrefix(nodes[..|nodes| - 1], n);
      assert nodes[..|nodes| - 1][..n] == nodes[..n];
    } else {
      assert nodes[..n] == nodes;
    }
  }

  lemma RebuiltSkip<K(!new), V(!new)>(ops: KeyOps<K>, old_: seq<Node<K, V>>, n: nat, nodes: seq<Node<K, V>>, shift: nat, mod: nat)
    requires n < |old_| && Rebuilt(ops, old_, n, nodes, shift, mod) && !old_[n].Live?
    ensures Rebuilt(ops, old_, n + 1, nodes, shift, mod)
  {
    hide Ok;
    var a := old_[..n + 1];
    assert a[..n] == old_[..n];
    assert forall i: nat :: i < n ==> a[i] == old_[..n][i];
  }

  lemma NotRebuiltYet<K(!new), V(!new)>(ops: KeyOps<K>, old_: seq<Node<K, V>>, n: nat, nodes: seq<Node<K, V>>, shift: nat, mod: nat,
                                        shift0: nat, mod0: nat)
    requires n < |old_| && Rebuilt(ops, old_, n, nodes, shift, mod) && old_[n].Live? && Ok(ops, old_, shift0, mod0)
    ensures old_[n].keyHash == KeyHash(ops, old_[n].key) && !HasKey(ops, nodes, old_[n].key)
  {
    assert LiveOk(ops, old_, mod0, n);
    hide LiveOk, Pow2;
    forall i: nat | i < |nodes| && nodes[i].Live?
      ensures !ops.eq(nodes[i].key, old_[n].key)
    {
      var p := (nodes[i].key, nodes[i].value);
      assert p in Entries(nodes);
      var j: nat :| j < |old_[..n]| && old_[..n][j].Live? && p == (old_[..n][j].key, old_[..n][j].value);
      assert old_[j] == old_[..n][j];
    }
  }

  lemma RebuiltPut<K(!new), V(!new)>(ops: KeyOps<K>, old_: seq<Node<K, V>>, n: nat, nodes: seq<Node<K, V>>, shift: nat, mod: nat, i: nat)
    requires n < |old_| && Rebuilt(ops, old_, n, nodes, shift, mod) && old_[n].Live?
    requires old_[n].keyHash == KeyHash(ops, old_[n].key) && !HasKey(ops, nodes, old_[n].key)
    requires i < |nodes| && nodes[i].Empty? && Reached(nodes, Start(old_[n].keyHash, mod), i)
    ensures Rebuilt(ops, old_, n + 1, nodes[i := old_[n]], shift, mod)
  {
    var k, v := old_[n].key, old_[n].value;
    PutLive(ops, nodes, shift, mod, i, k, v);
    CountUpdate(nodes, i, old_[n]);
    hide Ok, Reached, HasKey, KeyHash;
    var a := old_[..n + 1];
    assert a[..n] == old_[..n];
    assert old_[n] == Live(KeyHash(ops, k), k, v);
    forall p
      ensures p in Entries(a) <==> p in Entries(old_[..n]) + {(k, v)}
    {
      if p in Entries(old_[..n]) {
        var j: nat :| j < n && old_[..n][j].Live? && p == (old_[..n][j].key, old_[..n][j].value);
        assert a[j] == old_[..n][j];
      }
      if p == (k, v) {
        assert a[n] == old_[n];
      }
      if p in Entries(a) {
        var j: nat :| j < |a| && a[j].Live? && p == (a[j].key, a[j].value);
        if j < n {
          assert a[j] == old_[..n][j];
        }
      }
    }
    assert Entries(a) == Entries(old_[..n]) + {(k, v)};
  }

  lemma RebuiltStart<K(!new), V(!new)>(ops: KeyOps<K>, old_: seq<Node<K, V>>, nodes: seq<Node<K, V>>, shift: nat, mod: nat)
    requires Lawful(ops) && |nodes| == Pow2(shift) && 0 < mod <= |nodes|
    requires forall i: nat :: i < |nodes| ==> nodes[i].Empty?
    ensures Rebuilt(ops, old_, 0, nodes, shift, mod)
  {
    CountEmpty(nodes);
  }

  lemma RebuiltRoom<K(!new), V(!new)>(ops: KeyOps<K>, old_: seq<Node<K, V>>, n: nat, nodes: seq<Node<K, V>>, shift: nat, mod: nat)
    requires n <= |old_| && Rebuilt(ops, old_, n, nodes, shift, mod)
    ensures Used(nodes) <= Lives(old_) && Ok(ops, nodes, shift, mod)
  {
    LivesPrefix(old_, n);
  }

  lemma RebuiltEnd<K(!new), V(!new)>(ops: KeyOps<K>, old_: seq<Node<K, V>>, nodes: seq<Node<K, V>>, shift: nat, mod: nat)
    requires Rebuilt(ops, old_, |old_|, nodes, shift, mod)
    ensures Ok(ops, nodes, shift, mod) && Entries(nodes) == Entries(old_) && Used(nodes) == Lives(nodes) == Lives(old_)
  {
    assert old_[..|old_|] == old_;
  }

  lemma EntryAt<K, V>(nodes: seq<Node<K, V>>, i: nat)
    requires i < |nodes| && nodes[i].Live?
    ensures (nodes[i].key, nodes[i].value) in Entries(nodes)
  {
  }

  /** No two entries have equal keys: the contents are a finite map. */
  lemma EntriesFunctional<K(!new), V(!new)>(ops: KeyOps<K>, nodes: seq<Node<K, V>>, shift: nat, mod: nat, p: (K, V), q: (K, V))
    requires Ok(ops, nodes, shift, mod) && p in Entries(nodes) && q in Entries(nodes) && ops.eq(p.0, q.0)
    ensures p == q
  {
    hide LiveOk;
  }
}
