/** The hash table of glib_compat.c. */
module HashTables {
  import opened Arithmetic
  import opened Options
  import opened Probing
  import opened HashNodes

  const MIN_SHIFT: nat := 3

  /** With one more node the source's `nnodes * 4` leaves the range of int. */
  const MAX_NODES: nat := 0x1FFF_FFFF

  /** The largest prime below each power of two. */
  const PRIME_MOD: seq<nat> := [
    1, 2, 3, 7, 13, 31, 61, 127, 251, 509, 1021, 2039, 4093, 8191, 16381, 32749,
    65521, 131071, 262139, 524287, 1048573, 2097143, 4194301, 8388593, 16777213, 33554393,
    67108859, 134217689, 268435399, 536870909, 1073741789, 2147483647]

  const POWERS: seq<nat> := [
    1, 2, 4, 8, 16, 32, 64, 128, 256, 512, 1024, 2048, 4096, 8192, 16384, 32768,
    65536, 131072, 262144, 524288, 1048576, 2097152, 4194304, 8388608, 16777216, 33554432,
    67108864, 134217728, 268435456, 536870912, 1073741824, 2147483648]

  lemma {:induction false} PowersOk(i: nat)
    requires i < 32
    ensures POWERS[i] == Pow2(i)
  {
    if i > 0 {
      PowersOk(i - 1);
      assert POWERS[i] == 2 * POWERS[i - 1];
    }
  }

  lemma PrimeModOk(shift: nat)
    requires 1 <= shift < 32
    ensures 0 < PRIME_MOD[shift] <= Pow2(shift)
  {
    PowersOk(shift);
    hide Pow2;
    assert 0 < PRIME_MOD[shift] <= POWERS[shift];
  }

  class GHashTable<K(!new), V(!new)> {
    const ops: KeyOps<K>
    var size: nat
    var mod: nat
    var mask: nat
    var nnodes: nat
    var noccupied: nat
    var nodes: array<Node<K, V>>
    ghost var shift: nat

    /** True also in the middle of an insertion. A size of at most 2^30 fits an int. */
    ghost predicate Sound()
      reads this, nodes
    {
      && MIN_SHIFT <= shift < 31
      && Ok(ops, nodes[..], shift, mod)
      && size == nodes.Length == mask + 1
      && nnodes == Lives(nodes[..]) <= MAX_NODES && noccupied == Used(nodes[..])
    }

    /** At rest: never so full that a probe could run on, never much too large. */
    ghost predicate Valid()
      reads this, nodes
    {
      && Sound()
      && size > noccupied + noccupied / 16
      && (size == 8 || size <= 4 * nnodes)
    }

    /** The key and value pairs in the table. */
    ghost function Contents(): set<(K, V)>
      reads this, nodes
    {
      Entries(nodes[..])
    }

    /** g_hash_table_lookup_node: the node of the key, else an empty one. */
    method LookupNode(key: K) returns (index: nat)
      requires Valid()
      ensures index < nodes.Length && !nodes[index].Tombstone?
      ensures nodes[index].Live? ==> ops.eq(nodes[index].key, key)
      ensures nodes[index].Empty? ==> !HasKey(ops, nodes[..], key)
    {
      hide Pow2, Start, KeyHash, Used, Lives, Masked, LiveOk, Lawful;
      ghost var s := nodes[..];
      var hash := KeyHash(ops, key);
      index := Start(hash, mod);
      var step: nat := 0;
      while !nodes[index].Empty?
        invariant index == Probe(Start(hash, mod), step, |s|)
        invariant Searched(ops, s, mod, key, step)
        decreases |s| - step
      {
        PathEnds(ops, s, shift, mod, Start(hash, mod), step);
        if nodes[index].Live? && nodes[index].keyHash == hash && ops.eq(nodes[index].key, key) {
          break;
        }
        SearchedMore(ops, s, shift, mod, key, step);
        step := step + 1;
        index := Masked(index + step, size);
      }
      if nodes[index].Empty? {
        EndOfPath(ops, s, shift, mod, key, step);
      }
    }

    /** g_hash_table_lookup_node_for_insertion: the node of the key, else the first tombstone on
        its path, else the empty node that ends the path. */
    method LookupNodeForInsertion(key: K) returns (index: nat, hash: nat)
      requires Valid()
      ensures hash == KeyHash(ops, key)
      ensures index < nodes.Length
      ensures nodes[index].Live? ==> ops.eq(nodes[index].key, key)
      ensures !nodes[index].Live? ==> !HasKey(ops, nodes[..], key) && Reached(nodes[..], Start(hash, mod), index)
      ensures !nodes[index].Live? ==> FirstFree(nodes[..], Start(hash, mod), index)
    {
      hide Pow2, Start, KeyHash, Used, Lives, Masked, LiveOk, Lawful;
      ghost var s := nodes[..];
      hash := KeyHash(ops, key);
      index := Start(hash, mod);
      var step: nat, firstTombstone: nat, haveTombstone := 0, 0, false;
      while !nodes[index].Empty?
        invariant index == Probe(Start(hash, mod), step, |s|)
        invariant Searched(ops, s, mod, key, step)
        invariant haveTombstone ==> firstTombstone < |s| && s[firstTombstone].Tombstone? && Reached(s, Start(hash, mod), firstTombstone) && FirstFree(s, Start(hash, mod), firstTombstone)
        invariant !haveTombstone ==> AllLive(s, Start(hash, mod), step)
        decreases |s| - step
      {
        PathEnds(ops, s, shift, mod, Start(hash, mod), step);
        assert ReachedAt(s, Start(hash, mod), index, step);
        if nodes[index].Live? && nodes[index].keyHash == hash {
          if ops.eq(nodes[index].key, key) {
            return;
          }
        } else if nodes[index].Tombstone? && !haveTombstone {
          firstTombstone, haveTombstone := index, true;
        }
        SearchedMore(ops, s, shift, mod, key, step);
        step := step + 1;
        index := Masked(index + step, size);
      }
      EndOfPath(ops, s, shift, mod, key, step);
      PathEnds(ops, s, shift, mod, Start(hash, mod), step);
      assert ReachedAt(s, Start(hash, mod), index, step);
      if haveTombstone {
        index := firstTombstone;
      }
    }

    /** g_hash_table_set_shift. */
    method SetShift(newShift: nat)
      requires 1 <= newShift < 31
      modifies this`size, this`mod, this`mask, this`shift
      ensures shift == newShift && size == Pow2(newShift) == mask + 1
      ensures 0 < mod <= size
      ensures mod == [1, 2, 3, 7, 13, 31, 61, 127, 251, 509, 1021, 2039, 4093, 8191, 16381, 32749, 65521, 131071, 262139, 524287, 1048573, 2097143,
                      4194301, 8388593, 16777213, 33554393, 67108859, 134217689, 268435399, 536870909, 1073741789][newShift]
    {
      PrimeModOk(newShift);
      PowersOk(newShift);
      var m: nat := 0;
      for i := 0 to newShift
        invariant m + 1 == Pow2(i)
      {
        m := 2 * m + 1;
      }
      shift, size, mod, mask := newShift, POWERS[newShift], PRIME_MOD[newShift], m;
    }

    /** g_hash_table_find_closest_shift. */
    static method FindClosestShift(n0: nat) returns (i: nat)
      ensures i == Bits(n0)
    {
      var n := n0;
      i := 0;
      while n != 0
        invariant i + Bits(n) == Bits(n0)
        decreases n
      {
        n := n / 2;
        i := i + 1;
      }
    }

    /** g_hash_table_set_shift_from_size. */
    method SetShiftFromSize(n: nat)
      requires n <= 2 * MAX_NODES
      modifies this`size, this`mod, this`mask, this`shift
      ensures MIN_SHIFT <= shift < 31 && size == Pow2(shift) == mask + 1 && 0 < mod <= size
      ensures n < size && (size == 8 || size <= 2 * n)
    {
      var s := FindClosestShift(n);
      BitsBounds(n);
      BitsLimit(n);
      if s < MIN_SHIFT {
        Pow2Monotone(s, MIN_SHIFT);
        s := MIN_SHIFT;
      }
      PowersOk(MIN_SHIFT);
      SetShift(s);
    }

    /** The probe loop of g_hash_table_resize: the first empty slot on the path of a hash value. */
    method FreeSlot(newNodes: array<Node<K, V>>, hash: nat) returns (slot: nat)
      requires 0 < mod <= size == newNodes.Length == Pow2(shift) && Used(newNodes[..]) < size
      ensures slot < newNodes.Length && newNodes[slot].Empty? && Reached(newNodes[..], Start(hash, mod), slot)
    {
      hide Pow2, Start, Used, Masked;
      ghost var s := newNodes[..];
      slot := Start(hash, mod);
      var step: nat := 0;
      while !newNodes[slot].Empty?
        invariant slot == Probe(Start(hash, mod), step, |s|)
        invariant NoneEmpty(s, Start(hash, mod), step)
        decreases |s| - step
      {
        PathEnds(ops, s, shift, mod, Start(hash, mod), step);
        step := step + 1;
        slot := Masked(slot + step, size);
      }
      PathEnds(ops, s, shift, mod, Start(hash, mod), step);
      assert ReachedAt(s, Start(hash, mod), slot, step);
    }

    /** g_hash_table_resize: same contents, no tombstones, and room to spare. */
    method Resize()
      requires Sound()
      modifies this`size, this`mod, this`mask, this`shift, this`nodes, this`noccupied
      ensures Valid() && fresh(nodes)
      ensures Contents() == old(Contents()) && nnodes == old(nnodes)
    {
      hide Pow2, Start, KeyHash, Used, Lives, Masked, LiveOk, Lawful, Rebuilt, Entries, Reached;
      ghost var s, shift0, mod0 := nodes[..], shift, mod;
      var oldSize, oldNodes := size, nodes;
      SetShiftFromSize(nnodes * 2);
      var newNodes := new Node<K, V>[size](_ => Empty);
      RebuiltStart(ops, s, newNodes[..], shift, mod);
      for i := 0 to oldSize
        invariant oldNodes == old(nodes) && nodes == oldNodes && nodes[..] == s && fresh(newNodes) && newNodes.Length == size == Pow2(shift)
        invariant MIN_SHIFT <= shift < 31 && size == mask + 1 && nnodes * 2 < size && (size == 8 || size <= 4 * nnodes)
        invariant Rebuilt(ops, s, i, newNodes[..], shift, mod)
      {
        if !oldNodes[i].Live? {
          RebuiltSkip(ops, s, i, newNodes[..], shift, mod);
          continue;
        }
        RebuiltRoom(ops, s, i, newNodes[..], shift, mod);
        var slot := FreeSlot(newNodes, oldNodes[i].keyHash);
        NotRebuiltYet(ops, s, i, newNodes[..], shift, mod, shift0, mod0);
        RebuiltPut(ops, s, i, newNodes[..], shift, mod, slot);
        newNodes[slot] := oldNodes[i];
      }
      RebuiltEnd(ops, s, newNodes[..], shift, mod);
      nodes := newNodes;
      noccupied := nnodes;
    }

    /** g_hash_table_maybe_resize brings the load back into bounds. */
    method MaybeResize()
      requires Sound()
      modifies this`size, this`mod, this`mask, this`shift, this`nodes, this`noccupied
      ensures Valid() && (nodes == old(nodes) || fresh(nodes))
      ensures Contents() == old(Contents()) && nnodes == old(nnodes)
    {
      PowersOk(MIN_SHIFT);
      Pow2Monotone(MIN_SHIFT, shift);
      if (size > nnodes * 4 && size > 8) || size <= noccupied + noccupied / 16 {
        Resize();
      }
    }

    constructor (ops: KeyOps<K>)
      requires Lawful(ops)
      ensures Valid() && fresh(nodes) && Contents() == {} && nnodes == 0 && this.ops == ops && size == 8 && mod == 7
    {
      this.ops := ops;
      size, mod, mask, shift := 8, PRIME_MOD[MIN_SHIFT], 7, MIN_SHIFT;
      nnodes, noccupied := 0, 0;
      nodes := new Node<K, V>[8](_ => Empty);
      new;
      PowersOk(MIN_SHIFT);
      CountEmpty(nodes[..]);
    }

    /** g_hash_table_insert_internal: the entry of the key, if any, is replaced; its old key stays
        unless `keepNewKey`. Nothing else changes. */
    method InsertInternal(key: K, value: V, keepNewKey: bool)
      requires Valid() && nnodes < MAX_NODES
      modifies this, nodes
      ensures Valid() && (nodes == old(nodes) || fresh(nodes))
      ensures exists k :: ops.eq(k, key) && Contents() == Without(ops, old(Contents()), key) + {(k, value)} &&
                (keepNewKey || !old(HasKey(ops, nodes[..], key)) ==> k == key) &&
                (!keepNewKey && old(HasKey(ops, nodes[..], key)) ==> exists v :: (k, v) in old(Contents()))
      ensures nnodes == old(nnodes) + if old(HasKey(ops, nodes[..], key)) then 0 else 1
    {
      hide Pow2, Start, KeyHash, Used, Lives, Masked, LiveOk, Reached, Entries, Without;
      ghost var s := nodes[..];
      var index, hash := LookupNodeForInsertion(key);
      var node := nodes[index];
      if node.Live? {
        var n := Live(node.keyHash, if keepNewKey then key else node.key, value);
        ChangeLive(ops, s, shift, mod, index, n);
        WithoutEqual(ops, Entries(s), node.key, key);
        CountUpdate(s, index, n);
        EntryAt(s, index);
        nodes[index] := n;
        assert nodes[..] == s[index := n];
      } else {
        PutLive(ops, s, shift, mod, index, key, value);
        WithoutAbsent(ops, s, key);
        CountUpdate(s, index, Live(hash, key, value));
        nodes[index] := Live(hash, key, value);
        nnodes := nnodes + 1;
        assert nodes[..] == s[index := Live(hash, key, value)];
        if node.Empty? {
          noccupied := noccupied + 1;
          MaybeResize();
        }
      }
    }

    /** g_hash_table_lookup. */
    method Lookup(key: K) returns (value: Option<V>)
      requires Valid()
      ensures value.Some? ==> exists k :: ops.eq(k, key) && (k, value.value) in Contents()
      ensures value.None? ==> forall p :: p in Contents() ==> !ops.eq(p.0, key)
    {
      var index := LookupNode(key);
      if nodes[index].Empty? {
        value := None;
      } else {
        EntryAt(nodes[..], index);
        value := Some(nodes[index].value);
      }
    }

    /** g_hash_table_remove_internal. */
    method Remove(key: K) returns (found: bool)
      requires Valid()
      modifies this, nodes
      ensures Valid() && (nodes == old(nodes) || fresh(nodes))
      ensures found == old(HasKey(ops, nodes[..], key))
      ensures Contents() == Without(ops, old(Contents()), key)
      ensures nnodes == old(nnodes) - if found then 1 else 0
    {
      hide Pow2, Start, KeyHash, Used, Lives, Masked, LiveOk, Reached, Entries, Without;
      ghost var s := nodes[..];
      var index := LookupNode(key);
      if nodes[index].Empty? {
        WithoutAbsent(ops, s, key);
        return false;
      }
      ChangeLive(ops, s, shift, mod, index, Tombstone);
      WithoutEqual(ops, Entries(s), s[index].key, key);
      CountUpdate(s, index, Tombstone);
      CountBounds(s[index := Tombstone]);
      nodes[index] := Tombstone;
      assert nodes[..] == s[index := Tombstone];
      nnodes := nnodes - 1;
      MaybeResize();
      found := true;
    }

    /** g_hash_table_remove_all. */
    method RemoveAll()
      requires Valid()
      modifies this, nodes
      ensures Valid() && (nodes == old(nodes) || fresh(nodes)) && Contents() == {} && nnodes == 0
    {
      forall i | 0 <= i < nodes.Length {
        nodes[i] := Empty;
      }
      nnodes, noccupied := 0, 0;
      CountEmpty(nodes[..]);
      MaybeResize();
    }
  }

  /** The number of binary digits of `n`. */
  function Bits(n: nat): nat {
    if n == 0 then 0 else 1 + Bits(n / 2)
  }

  lemma {:induction false} BitsBounds(n: nat)
    ensures n < Pow2(Bits(n)) && (n > 0 ==> Pow2(Bits(n)) <= 2 * n)
  {
    if n > 0 {
      BitsBounds(n / 2);
    }
  }

  lemma BitsLimit(n: nat)
    requires n <= 2 * MAX_NODES
    ensures Bits(n) < 31
  {
    BitsBounds(n);
    PowersOk(31);
    hide Pow2, Bits;
    if 31 <= Bits(n) {
      Pow2Monotone(31, Bits(n));
    }
  }

  // ---------------------------------------------------------------- runs

  datatype Op<K, V> = Insert(key: K, value: V) | Replace(key: K, value: V) | Remove(key: K) | RemoveAll

  /** What the last operations of a run that concern a key equal to `q` leave for it. */
  ghost function LastValue<K, V>(keys: KeyOps<K>, run: seq<Op<K, V>>, q: K): Option<V> {
    if run == [] then None else
      match run[|run| - 1]
      case Insert(k, v) => if keys.eq(k, q) then Some(v) else LastValue(keys, run[..|run| - 1], q)
      case Replace(k, v) => if keys.eq(k, q) then Some(v) else LastValue(keys, run[..|run| - 1], q)
      case Remove(k) => if keys.eq(k, q) then None else LastValue(keys, run[..|run| - 1], q)
      case RemoveAll => None
  }

  /** How many keys a run leaves with a value. */
  ghost function Size<K, V>(keys: KeyOps<K>, run: seq<Op<K, V>>): int {
    if run == [] then 0 else
      var before := run[..|run| - 1];
      match run[|run| - 1]
      case Insert(k, _) => Size(keys, before) + if LastValue(keys, before, k).None? then 1 else 0
      case Replace(k, _) => Size(keys, before) + if LastValue(keys, before, k).None? then 1 else 0
      case Remove(k) => Size(keys, before) - if LastValue(keys, before, k).None? then 0 else 1
      case RemoveAll => 0
  }

  /** The value that a run leaves for `q`: that of an insertion of an equal key after which no
      operation concerns such a key and the table is not cleared. */
  lemma {:induction false} LastValueIs<K, V>(keys: KeyOps<K>, run: seq<Op<K, V>>, q: K)
    ensures LastValue(keys, run, q).Some? ==> exists i :: 0 <= i < |run| && LastSet(keys, run, q, i)
    ensures forall i :: 0 <= i < |run| && LastSet(keys, run, q, i) ==> LastValue(keys, run, q) == Some(run[i].value)
  {
    if run != [] {
      var n := |run| - 1;
      var before := run[..n];
      LastValueIs(keys, before, q);
      forall i | 0 <= i < n ensures LastSet(keys, run, q, i) <==> LastSet(keys, before, q, i) && !run[n].RemoveAll? && !keys.eq(run[n].key, q) {
        assert run[i] == before[i];
        if LastSet(keys, run, q, i) {
          assert forall j :: i < j < n ==> before[j] == run[j];
        }
      }
      if !run[n].RemoveAll? && keys.eq(run[n].key, q) {
        assert !run[n].Remove? ==> LastSet(keys, run, q, n);
      } else if LastValue(keys, run, q).Some? {
        var i :| 0 <= i < |before| && LastSet(keys, before, q, i);
        assert LastSet(keys, run, q, i);
      }
    }
  }

  ghost predicate LastSet<K, V>(keys: KeyOps<K>, run: seq<Op<K, V>>, q: K, i: nat)
    requires i < |run|
  {
    && (run[i].Insert? || run[i].Replace?) && keys.eq(run[i].key, q)
    && forall j :: i < j < |run| ==> !run[j].RemoveAll? && !keys.eq(run[j].key, q)
  }

  /** Equal keys have the same value. */
  lemma {:induction false} SameValue<K(!new), V>(keys: KeyOps<K>, run: seq<Op<K, V>>, a: K, b: K)
    requires Lawful(keys) && keys.eq(a, b)
    ensures LastValue(keys, run, a) == LastValue(keys, run, b)
  {
    if run != [] {
      SameValue(keys, run[..|run| - 1], a, b);
    }
  }

  /** The keys to which a run leaves a value. */
  ghost function Having<K(!new), V>(keys: KeyOps<K>, run: seq<Op<K, V>>): iset<K> {
    iset q | LastValue(keys, run, q).Some?
  }

  /** The keys in `reps` stand for all keys in `has`, each for its equals. */
  ghost predicate StandFor<K(!new)>(keys: KeyOps<K>, has: iset<K>, reps: set<K>) {
    && (forall a, b :: a in reps && b in reps && keys.eq(a, b) ==> a == b)
    && (forall a :: a in reps ==> a in has)
    && (forall q :: q in has ==> exists a :: a in reps && keys.eq(a, q))
  }

  lemma OneMore<K(!new)>(keys: KeyOps<K>, has: iset<K>, more: iset<K>, reps: set<K>, k: K)
    requires Lawful(keys) && StandFor(keys, has, reps)
    requires forall q :: q in more <==> q in has || keys.eq(k, q)
    requires forall q :: keys.eq(k, q) ==> q !in has
    ensures k !in reps && StandFor(keys, more, reps + {k})
  {
  }

  lemma OneLess<K(!new)>(keys: KeyOps<K>, has: iset<K>, fewer: iset<K>, reps: set<K>, k: K, a: K)
    requires Lawful(keys) && StandFor(keys, has, reps) && a in reps && keys.eq(a, k)
    requires forall q :: q in fewer <==> q in has && !keys.eq(k, q)
    ensures StandFor(keys, fewer, reps - {a})
  {
    forall q | q in fewer ensures exists b :: b in reps - {a} && keys.eq(b, q) {
      var b :| b in reps && keys.eq(b, q);
      assert b != a;
    }
  }

  lemma HavingStep<K(!new), V>(keys: KeyOps<K>, run: seq<Op<K, V>>)
    requires Lawful(keys) && run != [] && !run[|run| - 1].RemoveAll?
    ensures var op, has, now := run[|run| - 1], Having(keys, run[..|run| - 1]), Having(keys, run);
            && (forall q :: keys.eq(op.key, q) ==> (q in has <==> op.key in has))
            && (forall q :: q in now <==> if keys.eq(op.key, q) then !op.Remove? else q in has)
  {
    var before, op := run[..|run| - 1], run[|run| - 1];
    forall q | keys.eq(op.key, q) ensures LastValue(keys, before, q) == LastValue(keys, before, op.key) {
      SameValue(keys, before, op.key, q);
    }
  }

  lemma HavingNone<K(!new), V>(keys: KeyOps<K>, run: seq<Op<K, V>>)
    requires run == [] || run[|run| - 1].RemoveAll?
    ensures StandFor(keys, Having(keys, run), {}) && Size(keys, run) == 0
  {
  }

  lemma SizeGrows<K(!new), V>(keys: KeyOps<K>, run: seq<Op<K, V>>)
    requires run != [] && !run[|run| - 1].RemoveAll?
    ensures var op, has := run[|run| - 1], Having(keys, run[..|run| - 1]);
            Size(keys, run) == Size(keys, run[..|run| - 1]) + if op.Remove? then if op.key in has then -1 else 0 else if op.key in has then 0 else 1
  {
    hide LastValue;
  }

  /** The size is the number of different keys that have a value. */
  lemma {:induction false} SizeIs<K(!new), V>(keys: KeyOps<K>, run: seq<Op<K, V>>) returns (reps: set<K>)
    requires Lawful(keys)
    ensures StandFor(keys, Having(keys, run), reps) && |reps| == Size(keys, run)
  {
    hide StandFor, Having, Size, LastValue, Lawful;
    if run == [] || run[|run| - 1].RemoveAll? {
      HavingNone(keys, run);
      reps := {};
    } else {
      var before, op := run[..|run| - 1], run[|run| - 1];
      reps := SizeIs(keys, before);
      HavingStep(keys, run);
      SizeGrows(keys, run);
      reps := SizeStep(keys, Having(keys, before), Having(keys, run), op.key, op.Remove?, reps);
    }
  }

  lemma SizeStep<K(!new)>(keys: KeyOps<K>, has: iset<K>, now: iset<K>, k: K, gone: bool, reps0: set<K>) returns (reps: set<K>)
    requires Lawful(keys) && StandFor(keys, has, reps0)
    requires forall q :: keys.eq(k, q) ==> (q in has <==> k in has)
    requires forall q :: q in now <==> if keys.eq(k, q) then !gone else q in has
    ensures StandFor(keys, now, reps)
    ensures |reps| == |reps0| + if gone then if k in has then -1 else 0 else if k in has then 0 else 1
  {
    hide StandFor;
    reps := reps0;
    if gone && k in has {
      var a := Representative(keys, has, reps0, k);
      OneLess(keys, has, now, reps0, k, a);
      reps := reps0 - {a};
    } else if !gone && k !in has {
      OneMore(keys, has, now, reps0, k);
      reps := reps0 + {k};
    } else {
      assert now == has;
    }
  }

  lemma Representative<K(!new)>(keys: KeyOps<K>, has: iset<K>, reps: set<K>, k: K) returns (a: K)
    requires StandFor(keys, has, reps) && k in has
    ensures a in reps && keys.eq(a, k)
  {
    a :| a in reps && keys.eq(a, k);
  }

  /** `o` is the value of `q` in the entries. */
  ghost predicate ValueOf<K, V>(keys: KeyOps<K>, e: set<(K, V)>, q: K, o: Option<V>) {
    && (o.None? ==> forall p :: p in e ==> !keys.eq(p.0, q))
    && (o.Some? ==> (exists p :: p in e && keys.eq(p.0, q)) && forall p :: p in e && keys.eq(p.0, q) ==> p.1 == o.value)
  }

  lemma ValueAfterPut<K(!new), V(!new)>(keys: KeyOps<K>, e: set<(K, V)>, key: K, k: K, v: V, q: K, o: Option<V>)
    requires Lawful(keys) && keys.eq(k, key) && ValueOf(keys, e, q, o)
    ensures ValueOf(keys, Without(keys, e, key) + {(k, v)}, q, if keys.eq(key, q) then Some(v) else o)
  {
    var e' := Without(keys, e, key) + {(k, v)};
    assert (k, v) in e';
    if !keys.eq(key, q) && o.Some? {
      var p :| p in e && keys.eq(p.0, q);
      assert p in e';
    }
  }

  lemma ValueAfterRemove<K(!new), V(!new)>(keys: KeyOps<K>, e: set<(K, V)>, key: K, q: K, o: Option<V>)
    requires Lawful(keys) && ValueOf(keys, e, q, o)
    ensures ValueOf(keys, Without(keys, e, key), q, if keys.eq(key, q) then None else o)
  {
    if !keys.eq(key, q) && o.Some? {
      var p :| p in e && keys.eq(p.0, q);
      assert p in Without(keys, e, key);
    }
  }

  /** One operation on a table that stands for a run. */
  method Step<K(!new), V(!new)>(t: GHashTable<K, V>, run: seq<Op<K, V>>, op: Op<K, V>)
    requires t.Valid() && t.nnodes == Size(t.ops, run) < MAX_NODES
    requires forall q :: ValueOf(t.ops, t.Contents(), q, LastValue(t.ops, run, q))
    modifies t, t.nodes
    ensures t.Valid() && (t.nodes == old(t.nodes) || fresh(t.nodes)) && t.nnodes == Size(t.ops, run + [op])
    ensures forall q :: ValueOf(t.ops, t.Contents(), q, LastValue(t.ops, run + [op], q))
  {
    hide Without, ValueOf, HasKey, Entries;
    if !op.RemoveAll? { HasKeyIs(t, op.key, LastValue(t.ops, run, op.key)); }
    assert (run + [op])[..|run|] == run;
    ghost var e := t.Contents();
    match op {
      case Insert(k, v) =>
        t.InsertInternal(k, v, false);
        ghost var k' :| t.ops.eq(k', k) && t.Contents() == Without(t.ops, e, k) + {(k', v)};
        forall q { ValueAfterPut(t.ops, e, k, k', v, q, LastValue(t.ops, run, q)); }
      case Replace(k, v) =>
        t.InsertInternal(k, v, true);
        ghost var k' :| t.ops.eq(k', k) && t.Contents() == Without(t.ops, e, k) + {(k', v)};
        forall q { ValueAfterPut(t.ops, e, k, k', v, q, LastValue(t.ops, run, q)); }
      case Remove(k) =>
        var _ := t.Remove(k);
        forall q { ValueAfterRemove(t.ops, e, k, q, LastValue(t.ops, run, q)); }
      case RemoveAll =>
        t.RemoveAll();
        forall q { NoValue<K, V>(t.ops, q); }
    }
  }

  /** A key is in the table if and only if the run left it a value. */
  lemma HasKeyIs<K(!new), V(!new)>(t: GHashTable<K, V>, key: K, o: Option<V>)
    requires t.Valid() && ValueOf(t.ops, t.Contents(), key, o)
    ensures HasKey(t.ops, t.nodes[..], key) <==> o.Some?
  {
    hide GHashTable.Valid;
    var s := t.nodes[..];
    if i: nat :| i < |s| && s[i].Live? && t.ops.eq(s[i].key, key) {
      assert (s[i].key, s[i].value) in Entries(s);
    }
    if o.Some? {
      var p :| p in Entries(s) && t.ops.eq(p.0, key);
      var i: nat :| i < |s| && s[i].Live? && (s[i].key, s[i].value) == p;
    }
  }

  lemma NoValue<K, V>(keys: KeyOps<K>, q: K)
    ensures ValueOf<K, V>(keys, {}, q, None)
  {
  }

  /** After any run of operations a lookup finds what the run last left for the key, and
      g_hash_table_size counts the keys that it left with a value. */
  method Run<K(!new), V(!new)>(keys: KeyOps<K>, run: seq<Op<K, V>>, q: K) returns (value: Option<V>, size: nat)
    requires Lawful(keys) && forall i :: 0 <= i < |run| ==> Size(keys, run[..i]) < MAX_NODES
    ensures value == LastValue(keys, run, q) && size == Size(keys, run)
    ensures value.Some? ==> exists i :: 0 <= i < |run| && (run[i].Insert? || run[i].Replace?) && keys.eq(run[i].key, q) && run[i].value == value.value &&
                              forall j :: i < j < |run| ==> !run[j].RemoveAll? && !keys.eq(run[j].key, q)
    ensures forall i | 0 <= i < |run| && (run[i].Insert? || run[i].Replace?) && keys.eq(run[i].key, q) &&
                       (forall j :: i < j < |run| ==> !run[j].RemoveAll? && !keys.eq(run[j].key, q)) :: value == Some(run[i].value)
    ensures exists reps: set<K> :: StandFor(keys, Having(keys, run), reps) && |reps| == size
  {
    hide ValueOf, LastValue, Size, Entries, StandFor, Having;
    var t := new GHashTable<K, V>(keys);
    RunStart<K, V>(keys);
    for i := 0 to |run|
      invariant fresh(t) && fresh(t.nodes) && t.Valid() && t.ops == keys && t.nnodes == Size(keys, run[..i])
      invariant forall x :: ValueOf(keys, t.Contents(), x, LastValue(keys, run[..i], x))
    {
      assert run[..i] + [run[i]] == run[..i + 1];
      Step(t, run[..i], run[i]);
    }
    assert run[..|run|] == run;
    value := t.Lookup(q);
    size := t.nnodes;
    FoundIs(keys, t.Contents(), q, LastValue(keys, run, q), value);
    LastValueIs(keys, run, q);
    ghost var reps := SizeIs(keys, run);
  }

  lemma RunStart<K(!new), V>(keys: KeyOps<K>)
    ensures Size<K, V>(keys, []) == 0 && forall x :: ValueOf<K, V>(keys, {}, x, LastValue(keys, [], x))
  {
  }

  lemma FoundIs<K, V>(keys: KeyOps<K>, e: set<(K, V)>, q: K, o: Option<V>, value: Option<V>)
    requires ValueOf(keys, e, q, o)
    requires value.Some? ==> exists k :: keys.eq(k, q) && (k, value.value) in e
    requires value.None? ==> forall p :: p in e ==> !keys.eq(p.0, q)
    ensures value == o
  {
  }
}
