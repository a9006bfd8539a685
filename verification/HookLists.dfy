/** Hooks in several lists at once, with the number of their occurrences as reference count. */
module HookLists {
  /** The address of a hook. */
  type HookId = nat

  datatype Hook = Hook(refs: int, toDelete: bool)

  type Hooks = map<HookId, Hook>

  /** How often a hook occurs in a list. */
  ghost function Times(l: seq<HookId>, h: HookId): nat {
    multiset(l)[h]
  }

  /** How often a hook occurs in all the lists together. */
  ghost function Occurs(lists: seq<seq<HookId>>, h: HookId): nat {
    if lists == [] then 0 else Times(lists[0], h) + Occurs(lists[1..], h)
  }

  lemma TimesSum(a: seq<HookId>, b: seq<HookId>, h: HookId)
    ensures Times(a + b, h) == Times(a, h) + Times(b, h)
    ensures Times([h], h) == 1
    ensures forall x :: x != h ==> Times([x], h) == 0
    ensures Times(a, h) > 0 <==> h in a
  {
  }

  lemma {:induction false} OccursUpdate(lists: seq<seq<HookId>>, i: nat, l: seq<HookId>, h: HookId)
    requires i < |lists|
    ensures Occurs(lists[i := l], h) == Occurs(lists, h) - Times(lists[i], h) + Times(l, h)
  {
    hide Times;
    if i == 0 {
      assert lists[i := l][1..] == lists[1..];
    } else {
      OccursUpdate(lists[1..], i - 1, l, h);
      assert lists[i := l][1..] == lists[1..][i - 1 := l];
    }
  }

  lemma {:induction false} OccursSome(lists: seq<seq<HookId>>, h: HookId)
    ensures Occurs(lists, h) > 0 <==> exists i :: 0 <= i < |lists| && h in lists[i]
  {
    if lists != [] {
      OccursSome(lists[1..], h);
      assert forall i :: 0 <= i < |lists[1..]| ==> lists[1..][i] == lists[i + 1];
      assert forall i :: 0 < i < |lists| ==> lists[i] == lists[1..][i - 1];
    }
  }

  lemma {:induction false} OccursFrom(lists: seq<seq<HookId>>, h: HookId, k: nat)
    requires Once(lists) && k <= |lists|
    ensures Occurs(lists[k..], h) == |set i | k <= i < |lists| && h in lists[i]|
    decreases |lists| - k
  {
    var here := set i | k <= i < |lists| && h in lists[i];
    if k == |lists| {
      assert here == {};
    } else {
      OccursFrom(lists, h, k + 1);
      assert lists[k..][1..] == lists[k + 1..];
      assert (set i | k + 1 <= i < |lists| && h in lists[i]) == here - {k};
      assert Times(lists[k], h) <= 1;
      TimesSum(lists[k], [], h);
    }
  }

  /** With no hook twice in a list, that is the number of lists that hold it. */
  lemma OccursIs(lists: seq<seq<HookId>>, h: HookId)
    requires Once(lists)
    ensures Occurs(lists, h) == |set i | 0 <= i < |lists| && h in lists[i]|
  {
    OccursFrom(lists, h, 0);
    assert lists[0..] == lists;
  }

  // ------------------------------------------------------- the invariant

  /** The reference count of a hook; 0 when it is not allocated. */
  ghost function Refs(hooks: Hooks, h: HookId): int {
    if h in hooks then hooks[h].refs else 0
  }

  /** Every hook in a list is allocated, and its reference count is the number of its occurrences
      in all lists and in the list of hooks to delete. */
  ghost predicate Counted(lists: seq<seq<HookId>>, toDel: seq<HookId>, hooks: Hooks) {
    forall h :: Refs(hooks, h) == Occurs(lists, h) + Times(toDel, h)
  }

  /** An allocated hook is referenced. */
  ghost predicate Referenced(hooks: Hooks) {
    forall h :: h in hooks ==> hooks[h].refs > 0
  }

  /** A hook to delete is queued at least as often as it still occurs in the lists, and only such
      hooks are queued. */
  ghost predicate Queued(lists: seq<seq<HookId>>, toDel: seq<HookId>, hooks: Hooks) {
    && (forall h :: h in hooks && hooks[h].toDelete ==> h in toDel && Occurs(lists, h) <= Times(toDel, h))
    && (forall h :: h in toDel && h in hooks ==> hooks[h].toDelete)
  }

  /** No list has a hook twice. */
  ghost predicate Once(lists: seq<seq<HookId>>) {
    forall i, h :: 0 <= i < |lists| ==> Times(lists[i], h) <= 1
  }

  ghost predicate Inv(lists: seq<seq<HookId>>, toDel: seq<HookId>, hooks: Hooks) {
    Counted(lists, toDel, hooks) && Referenced(hooks) && Queued(lists, toDel, hooks) && Once(lists)
  }

  /** A hook that occurs anywhere is allocated. */
  lemma Allocated(lists: seq<seq<HookId>>, toDel: seq<HookId>, hooks: Hooks, h: HookId)
    requires Counted(lists, toDel, hooks) && (Occurs(lists, h) > 0 || h in toDel)
    ensures h in hooks
  {
    TimesSum(toDel, [], h);
    assert Refs(hooks, h) == Occurs(lists, h) + Times(toDel, h);
  }

  /** hook_delete: one reference less, and the hook is freed with the last. */
  function Dropped(hooks: Hooks, h: HookId): Hooks
    requires h in hooks
  {
    if hooks[h].refs - 1 == 0 then hooks - {h} else hooks[h := hooks[h].(refs := hooks[h].refs - 1)]
  }

  function Added(hooks: Hooks, h: HookId): Hooks
    requires h in hooks
  {
    hooks[h := hooks[h].(refs := hooks[h].refs + 1)]
  }

  // ------------------------------------------------------- list operations on sequences

  /** list_remove takes out the first occurrence. */
  function Without(l: seq<HookId>, h: HookId): seq<HookId> {
    if l == [] then [] else if l[0] == h then l[1..] else [l[0]] + Without(l[1..], h)
  }

  lemma {:induction false} WithoutTimes(l: seq<HookId>, h: HookId, x: HookId)
    ensures Times(Without(l, h), x) == if x == h && h in l then Times(l, x) - 1 else Times(l, x)
  {
    if l != [] {
      assert l == [l[0]] + l[1..];
      WithoutTimes(l[1..], h, x);
    }
  }

  /** The hooks of a list that are not marked for deletion, in order. */
  ghost function Live(l: seq<HookId>, hooks: Hooks): seq<HookId> {
    if l == [] then []
    else if l[0] in hooks && hooks[l[0]].toDelete then Live(l[1..], hooks)
    else [l[0]] + Live(l[1..], hooks)
  }

  /** Where the hooks of it stood: in the same order, every hook that is not marked, and no other. */
  lemma {:induction false} LiveFrom(l: seq<HookId>, hooks: Hooks, k: nat) returns (at: seq<nat>)
    requires k <= |l|
    ensures |at| == |Live(l[k..], hooks)|
    ensures forall i :: 0 <= i < |at| ==> k <= at[i] < |l| && Live(l[k..], hooks)[i] == l[at[i]]
    ensures forall i, j :: 0 <= i < j < |at| ==> at[i] < at[j]
    ensures forall p :: p in at <==> k <= p < |l| && !(l[p] in hooks && hooks[l[p]].toDelete)
    decreases |l| - k
  {
    at := [];
    if k < |l| {
      var rest := LiveFrom(l, hooks, k + 1);
      assert l[k..][1..] == l[k + 1..];
      at := if l[k] in hooks && hooks[l[k]].toDelete then rest else [k] + rest;
    }
  }

  lemma LiveIs(l: seq<HookId>, hooks: Hooks) returns (at: seq<nat>)
    ensures |at| == |Live(l, hooks)|
    ensures forall i :: 0 <= i < |at| ==> at[i] < |l| && Live(l, hooks)[i] == l[at[i]]
    ensures forall i, j :: 0 <= i < j < |at| ==> at[i] < at[j]
    ensures forall p :: 0 <= p < |l| ==> (p in at <==> !(l[p] in hooks && hooks[l[p]].toDelete))
  {
    hide Live;
    at := LiveFrom(l, hooks, 0);
    assert l[0..] == l;
  }

  lemma LiveHas(l: seq<HookId>, hooks: Hooks, h: HookId)
    ensures h in Live(l, hooks) <==> h in l && !(h in hooks && hooks[h].toDelete)
  {
    var at := LiveIs(l, hooks);
    if h in l && !(h in hooks && hooks[h].toDelete) {
      var p :| 0 <= p < |l| && l[p] == h;
      assert p in at;
    }
  }

  lemma {:induction false} LiveWithout(l: seq<HookId>, hooks: Hooks, h: HookId)
    requires h in hooks && hooks[h].toDelete
    ensures Live(Without(l, h), hooks) == Live(l, hooks)
  {
    if l != [] && l[0] != h {
      LiveWithout(l[1..], hooks, h);
    }
  }

  lemma {:induction false} AllLive(l: seq<HookId>, hooks: Hooks)
    requires forall h :: h in l && h in hooks ==> !hooks[h].toDelete
    ensures Live(l, hooks) == l
  {
    if l != [] {
      AllLive(l[1..], hooks);
    }
  }

  // ------------------------------------------------------- steps

  /** One occurrence more in a list, and one reference more. */
  lemma InsertedCounted(lists: seq<seq<HookId>>, toDel: seq<HookId>, hooks: Hooks, i: nat, l: seq<HookId>, h: HookId)
    requires Counted(lists, toDel, hooks) && i < |lists| && h in hooks && (l == [h] + lists[i] || l == lists[i] + [h])
    ensures Counted(lists[i := l], toDel, Added(hooks, h))
  {
    hide Times, Occurs;
    forall x
      ensures Refs(Added(hooks, h), x) == Occurs(lists[i := l], x) + Times(toDel, x)
    {
      OccursUpdate(lists, i, l, x);
      TimesSum([h], lists[i], x);
      TimesSum(lists[i], [h], x);
    }
  }

  /** One occurrence less in a list, and one reference less. */
  lemma RemovedCounted(lists: seq<seq<HookId>>, toDel: seq<HookId>, hooks: Hooks, i: nat, h: HookId)
    requires Counted(lists, toDel, hooks) && Referenced(hooks) && i < |lists| && h in lists[i]
    ensures h in hooks && Counted(lists[i := Without(lists[i], h)], toDel, Dropped(hooks, h)) && Referenced(Dropped(hooks, h))
  {
    OccursSome(lists, h);
    Allocated(lists, toDel, hooks, h);
    hide Times, Occurs, Without;
    var lists', hooks' := lists[i := Without(lists[i], h)], Dropped(hooks, h);
    forall x
      ensures Refs(hooks', x) == Occurs(lists', x) + Times(toDel, x)
    {
      OccursUpdate(lists, i, Without(lists[i], h), x);
      WithoutTimes(lists[i], h, x);
      assert Refs(hooks, x) == Occurs(lists, x) + Times(toDel, x);
    }
  }

  /** The first of the queue is dropped. */
  lemma UnqueuedCounted(lists: seq<seq<HookId>>, toDel: seq<HookId>, hooks: Hooks)
    requires Counted(lists, toDel, hooks) && Referenced(hooks) && toDel != []
    ensures toDel[0] in hooks && Counted(lists, toDel[1..], Dropped(hooks, toDel[0])) && Referenced(Dropped(hooks, toDel[0]))
  {
    var h := toDel[0];
    Allocated(lists, toDel, hooks, h);
    hide Times, Occurs;
    var hooks' := Dropped(hooks, h);
    forall x
      ensures Refs(hooks', x) == Occurs(lists, x) + Times(toDel[1..], x)
    {
      assert toDel == [h] + toDel[1..];
      TimesSum([h], toDel[1..], x);
      assert Refs(hooks, x) == Occurs(lists, x) + Times(toDel, x);
    }
  }

  lemma OnceWithout(lists: seq<seq<HookId>>, i: nat, h: HookId)
    requires Once(lists) && i < |lists|
    ensures Once(lists[i := Without(lists[i], h)])
  {
    hide Times;
    forall x { WithoutTimes(lists[i], h, x); }
  }

  lemma OnceInserted(lists: seq<seq<HookId>>, i: nat, l: seq<HookId>, h: HookId)
    requires Once(lists) && i < |lists| && h !in lists[i] && (l == [h] + lists[i] || l == lists[i] + [h])
    ensures Once(lists[i := l])
  {
    hide Times;
    forall x ensures Times(l, x) <= 1 {
      TimesSum([h], lists[i], x);
      TimesSum(lists[i], [h], x);
    }
  }

  // ------------------------------------------------------- deleting

  /** The lists from the i-th on. */
  lemma {:induction false} OccursSplit(lists: seq<seq<HookId>>, i: nat, h: HookId)
    requires i <= |lists|
    ensures Occurs(lists, h) == Occurs(lists[..i], h) + Occurs(lists[i..], h)
    ensures i < |lists| ==> Occurs(lists[..i + 1], h) == Occurs(lists[..i], h) + Times(lists[i], h)
  {
    hide Times;
    if i > 0 {
      OccursSplit(lists[1..], i - 1, h);
      assert lists[..i][1..] == lists[1..][..i - 1] && lists[1..][i - 1..] == lists[i..];
      if i < |lists| {
        assert lists[..i + 1][1..] == lists[1..][..i];
      }
    } else if |lists| > 0 {
      assert lists[..1][1..] == [];
    }
  }

  /** uc_hook_del half way: queued once for each of the first `i` lists that have the hook. */
  ghost predicate Deleting(lists: seq<seq<HookId>>, toDel0: seq<HookId>, hooks0: Hooks, toDel: seq<HookId>, hooks: Hooks, h: HookId, i: nat) {
    && i <= |lists|
    && (if Occurs(lists[..i], h) == 0 then toDel == toDel0 && hooks == hooks0 else
       && h in hooks0 && toDel == toDel0 + Repeat(h, Occurs(lists[..i], h))
       && hooks == hooks0[h := Hook(hooks0[h].refs + Occurs(lists[..i], h), true)])
  }

  ghost function Repeat(h: HookId, n: nat): seq<HookId> {
    seq(n, _ => h)
  }

  lemma {:induction false} RepeatTimes(h: HookId, n: nat, x: HookId)
    ensures Times(Repeat(h, n), x) == if x == h then n else 0
  {
    if n == 0 {
      assert Repeat(h, n) == [];
    } else {
      RepeatTimes(h, n - 1, x);
      assert Repeat(h, n) == Repeat(h, n - 1) + [h];
      TimesSum(Repeat(h, n - 1), [h], x);
      TimesSum([], [h], x);
    }
  }

  lemma DeletingStep(lists: seq<seq<HookId>>, toDel0: seq<HookId>, hooks0: Hooks, toDel: seq<HookId>, hooks: Hooks, h: HookId, i: nat)
    requires Deleting(lists, toDel0, hooks0, toDel, hooks, h, i) && i < |lists| && Once(lists) && Counted(lists, toDel0, hooks0)
    ensures h !in lists[i] ==> Deleting(lists, toDel0, hooks0, toDel, hooks, h, i + 1)
    ensures h in lists[i] ==> h in hooks && Deleting(lists, toDel0, hooks0, toDel + [h], hooks[h := Hook(hooks[h].refs + 1, true)], h, i + 1)
  {
    OccursSplit(lists, i, h);
    TimesSum(lists[i], [], h);
    assert Times(lists[i], h) <= 1;
    if h in lists[i] {
      OccursSome(lists, h);
      Allocated(lists, toDel0, hooks0, h);
      hide Times, Occurs, Counted, Once;
      var n := Occurs(lists[..i], h);
      assert Repeat(h, n + 1) == Repeat(h, n) + [h];
      assert toDel0 + Repeat(h, 1) == toDel0 + [h];
      assert toDel0 + (Repeat(h, n) + [h]) == toDel0 + Repeat(h, n) + [h];
    }
  }

  /** Afterwards the hook is queued for every occurrence. */
  lemma DeletingDone(lists: seq<seq<HookId>>, toDel0: seq<HookId>, hooks0: Hooks, toDel: seq<HookId>, hooks: Hooks, h: HookId)
    requires Deleting(lists, toDel0, hooks0, toDel, hooks, h, |lists|) && Inv(lists, toDel0, hooks0)
    ensures Inv(lists, toDel, hooks)
    ensures forall i :: 0 <= i < |lists| && h in lists[i] ==> h in hooks && hooks[h].toDelete
  {
    assert lists[..|lists|] == lists;
    OccursSome(lists, h);
    hide Occurs, Times;
    var n := Occurs(lists, h);
    if n > 0 {
      forall x
        ensures Refs(hooks, x) == Occurs(lists, x) + Times(toDel, x)
        ensures Times(toDel, x) == Times(toDel0, x) + (if x == h then n else 0) && (x in toDel <==> x in toDel0 || x == h)
      {
        TimesSum(toDel0, Repeat(h, n), x);
        RepeatTimes(h, n, x);
        TimesSum(toDel, [], x);
        TimesSum(toDel0, [], x);
        assert Refs(hooks0, x) == Occurs(lists, x) + Times(toDel0, x);
      }
    }
  }

  // ------------------------------------------------------- clearing

  ghost predicate SameMarks(hooks0: Hooks, hooks: Hooks) {
    hooks.Keys == hooks0.Keys && forall h :: h in hooks ==> hooks[h].toDelete == hooks0[h].toDelete
  }

  /** Hooks that are not marked keep all their fields, and what is left has the marks it had. */
  ghost predicate Untouched(hooks0: Hooks, hooks: Hooks) {
    && (forall h :: h in hooks0 && !hooks0[h].toDelete ==> h in hooks && hooks[h] == hooks0[h])
    && (forall h :: h in hooks ==> h in hooks0 && hooks[h].toDelete == hooks0[h].toDelete)
  }

  lemma DroppedUntouched(hooks0: Hooks, hooks: Hooks, h: HookId)
    requires Untouched(hooks0, hooks) && h in hooks && hooks[h].toDelete
    ensures Untouched(hooks0, Dropped(hooks, h))
  {
  }

  ghost predicate SameLive(lists0: seq<seq<HookId>>, lists: seq<seq<HookId>>, hooks: Hooks) {
    |lists| == |lists0| && forall i :: 0 <= i < |lists| ==> Live(lists[i], hooks) == Live(lists0[i], hooks)
  }

  /** What remains queued is enough for the occurrences that remain. */
  ghost predicate Enough(lists: seq<seq<HookId>>, rest: seq<HookId>, hooks: Hooks) {
    forall h :: h in hooks && hooks[h].toDelete ==> Occurs(lists, h) <= Times(rest, h)
  }

  /** The first loop of clear_deleted_hooks after `k` queue entries: nothing was freed yet. */
  ghost predicate Clearing(lists0: seq<seq<HookId>>, toDel: seq<HookId>, hooks0: Hooks, lists: seq<seq<HookId>>, hooks: Hooks, k: nat) {
    && k <= |toDel| && Counted(lists, toDel, hooks) && Referenced(hooks) && Once(lists)
    && SameMarks(hooks0, hooks) && Untouched(hooks0, hooks) && SameLive(lists0, lists, hooks0) && Enough(lists, toDel[k..], hooks0)
    && (forall h :: h in toDel ==> h in hooks0 && hooks0[h].toDelete)
  }

  lemma ClearingStart(lists: seq<seq<HookId>>, toDel: seq<HookId>, hooks: Hooks)
    requires Inv(lists, toDel, hooks)
    ensures Clearing(lists, toDel, hooks, lists, hooks, 0)
  {
    hide Times, Occurs, Live;
    assert toDel[0..] == toDel;
    forall h | h in toDel ensures h in hooks { Allocated(lists, toDel, hooks, h); }
  }

  /** The hook is in no list any more. */
  lemma ClearingSkip(lists0: seq<seq<HookId>>, toDel: seq<HookId>, hooks0: Hooks, lists: seq<seq<HookId>>, hooks: Hooks, k: nat)
    requires Clearing(lists0, toDel, hooks0, lists, hooks, k) && k < |toDel|
    requires forall i :: 0 <= i < |lists| ==> toDel[k] !in lists[i]
    ensures Clearing(lists0, toDel, hooks0, lists, hooks, k + 1)
  {
    hide Times, Occurs, Live;
    forall h | h in hooks0 && hooks0[h].toDelete
      ensures Occurs(lists, h) <= Times(toDel[k + 1..], h)
    {
      OccursSome(lists, h);
      assert toDel[k..] == [toDel[k]] + toDel[k + 1..];
      TimesSum([toDel[k]], toDel[k + 1..], h);
    }
  }

  /** The hook leaves the first list that has it; the queue still refers to it. */
  lemma ClearingDrop(lists0: seq<seq<HookId>>, toDel: seq<HookId>, hooks0: Hooks, lists: seq<seq<HookId>>, hooks: Hooks, k: nat, i: nat)
    requires Clearing(lists0, toDel, hooks0, lists, hooks, k) && k < |toDel| && i < |lists| && toDel[k] in lists[i]
    ensures toDel[k] in hooks && hooks[toDel[k]].refs > 1
    ensures Clearing(lists0, toDel, hooks0, lists[i := Without(lists[i], toDel[k])], Dropped(hooks, toDel[k]), k + 1)
  {
    hide Times, Occurs, Live, Without, Counted, Referenced, Once, SameMarks, Untouched, SameLive, Enough;
    var h := toDel[k];
    RemovedCounted(lists, toDel, hooks, i, h);
    OnceWithout(lists, i, h);
    StillQueued(lists, toDel, hooks, h);
    EnoughDrop(lists, toDel, hooks0, k, i);
    MarksDrop(hooks0, hooks, h);
    SameLiveDrop(lists0, lists, hooks0, i, h);
  }

  lemma EnoughDrop(lists: seq<seq<HookId>>, toDel: seq<HookId>, hooks: Hooks, k: nat, i: nat)
    requires k < |toDel| && i < |lists| && toDel[k] in lists[i] && Enough(lists, toDel[k..], hooks)
    ensures Enough(lists[i := Without(lists[i], toDel[k])], toDel[k + 1..], hooks)
  {
    hide Times, Occurs, Without;
    var h := toDel[k];
    forall x | x in hooks && hooks[x].toDelete
      ensures Occurs(lists[i := Without(lists[i], h)], x) <= Times(toDel[k + 1..], x)
    {
      OccursUpdate(lists, i, Without(lists[i], h), x);
      WithoutTimes(lists[i], h, x);
      assert toDel[k..] == [h] + toDel[k + 1..];
      TimesSum([h], toDel[k + 1..], x);
    }
  }

  lemma MarksDrop(hooks0: Hooks, hooks: Hooks, h: HookId)
    requires SameMarks(hooks0, hooks) && Untouched(hooks0, hooks) && h in hooks && hooks[h].refs > 1 && hooks0[h].toDelete
    ensures SameMarks(hooks0, Dropped(hooks, h)) && Untouched(hooks0, Dropped(hooks, h))
  {
  }

  lemma SameLiveDrop(lists0: seq<seq<HookId>>, lists: seq<seq<HookId>>, hooks: Hooks, i: nat, h: HookId)
    requires SameLive(lists0, lists, hooks) && i < |lists| && h in hooks && hooks[h].toDelete
    ensures SameLive(lists0, lists[i := Without(lists[i], h)], hooks)
  {
    hide Live, Without;
    LiveWithout(lists[i], hooks, h);
  }

  /** A hook that is queued and in a list has more than one reference. */
  lemma StillQueued(lists: seq<seq<HookId>>, toDel: seq<HookId>, hooks: Hooks, h: HookId)
    requires Counted(lists, toDel, hooks) && h in toDel && h in hooks && exists i :: 0 <= i < |lists| && h in lists[i]
    ensures hooks[h].refs > 1
  {
    OccursSome(lists, h);
    TimesSum(toDel, [], h);
    assert Refs(hooks, h) == Occurs(lists, h) + Times(toDel, h);
  }

  /** After that loop no list has a hook that is to be deleted. */
  lemma ClearingDone(lists0: seq<seq<HookId>>, toDel: seq<HookId>, hooks0: Hooks, lists: seq<seq<HookId>>, hooks: Hooks)
    requires Clearing(lists0, toDel, hooks0, lists, hooks, |toDel|)
    ensures forall h :: h in hooks && hooks[h].toDelete ==> Occurs(lists, h) == 0
    ensures |lists| == |lists0| && forall i :: 0 <= i < |lists| ==> lists[i] == Live(lists0[i], hooks0)
  {
    assert toDel[|toDel|..] == [];
    assert forall h :: Times([], h) == 0;
    hide Occurs, Live;
    forall i | 0 <= i < |lists|
      ensures lists[i] == Live(lists0[i], hooks0)
    {
      forall h | h in lists[i] && h in hooks0 ensures !hooks0[h].toDelete { OccursSome(lists, h); }
      AllLive(lists[i], hooks0);
    }
  }

  /** list_clear of the queue: what is to be deleted is only in the queue, and the rest is as it was
      before any of this. */
  ghost predicate Freeing(lists: seq<seq<HookId>>, toDel: seq<HookId>, hooks: Hooks) {
    && Counted(lists, toDel, hooks) && Referenced(hooks) && Once(lists)
    && (forall h :: h in hooks && hooks[h].toDelete ==> Occurs(lists, h) == 0)
    && (forall h :: h in toDel ==> h in hooks && hooks[h].toDelete)
  }

  lemma FreeingStart(lists0: seq<seq<HookId>>, toDel: seq<HookId>, hooks0: Hooks, lists: seq<seq<HookId>>, hooks: Hooks)
    requires Clearing(lists0, toDel, hooks0, lists, hooks, |toDel|)
    requires forall h :: h in hooks && hooks[h].toDelete ==> Occurs(lists, h) == 0
    ensures Freeing(lists, toDel, hooks) && Untouched(hooks0, hooks)
  {
    hide Counted, Referenced, Once, Occurs;
  }

  lemma FreeingStep(lists: seq<seq<HookId>>, toDel: seq<HookId>, hooks: Hooks)
    requires Freeing(lists, toDel, hooks) && toDel != []
    ensures toDel[0] in hooks && hooks[toDel[0]].toDelete && Freeing(lists, toDel[1..], Dropped(hooks, toDel[0]))
  {
    var h := toDel[0];
    UnqueuedCounted(lists, toDel, hooks);
    hide Occurs, Times, Counted;
    forall x | x in toDel[1..]
      ensures x in Dropped(hooks, h) && Dropped(hooks, h)[x].toDelete
    {
      assert x in toDel;
      Allocated(lists, toDel[1..], Dropped(hooks, h), x);
    }
  }

  /** When the queue is empty, nothing that was to be deleted is left. */
  lemma FreeingDone(lists: seq<seq<HookId>>, hooks: Hooks)
    requires Freeing(lists, [], hooks)
    ensures Inv(lists, [], hooks) && forall h :: h in hooks ==> !hooks[h].toDelete
  {
    forall h | h in hooks ensures !hooks[h].toDelete {
      assert Refs(hooks, h) == Occurs(lists, h) + Times([], h);
      assert Times([], h) == 0;
    }
  }

  // ------------------------------------------------------- adding

  /** hook_insert and hook_append. */
  function Placed(l: seq<HookId>, h: HookId, front: bool): seq<HookId> {
    if front then [h] + l else l + [h]
  }

  /** A new hook `h` was placed in the lists in `where` and nowhere else. */
  ghost predicate Adding(lists0: seq<seq<HookId>>, toDel: seq<HookId>, hooks0: Hooks, lists: seq<seq<HookId>>, hooks: Hooks, h: HookId, front: bool, where: set<nat>) {
    && Inv(lists0, toDel, hooks0) && h !in hooks0
    && |lists| == |lists0| && (forall j :: 0 <= j < |lists| ==> lists[j] == if j in where then Placed(lists0[j], h, front) else lists0[j])
    && h in hooks && !hooks[h].toDelete && hooks == hooks0[h := hooks[h]]
    && Counted(lists, toDel, hooks) && Once(lists)
  }

  lemma NotThere(lists: seq<seq<HookId>>, toDel: seq<HookId>, hooks: Hooks, h: HookId)
    requires Counted(lists, toDel, hooks) && h !in hooks
    ensures Occurs(lists, h) == 0 && Times(toDel, h) == 0 && forall j :: 0 <= j < |lists| ==> h !in lists[j]
  {
    assert Refs(hooks, h) == Occurs(lists, h) + Times(toDel, h);
    OccursSome(lists, h);
  }

  lemma AddingStart(lists: seq<seq<HookId>>, toDel: seq<HookId>, hooks: Hooks, h: HookId, front: bool)
    requires Inv(lists, toDel, hooks) && h !in hooks
    ensures Adding(lists, toDel, hooks, lists, hooks[h := Hook(0, false)], h, front, {})
  {
    NotThere(lists, toDel, hooks, h);
    hide Occurs, Times;
  }

  lemma AddingPlace(lists0: seq<seq<HookId>>, toDel: seq<HookId>, hooks0: Hooks, lists: seq<seq<HookId>>, hooks: Hooks, h: HookId, front: bool, where: set<nat>, i: nat)
    requires Adding(lists0, toDel, hooks0, lists, hooks, h, front, where) && i < |lists| && i !in where
    ensures Adding(lists0, toDel, hooks0, lists[i := Placed(lists[i], h, front)], Added(hooks, h), h, front, where + {i})
  {
    hide Occurs, Times, Counted, Once, Queued, Referenced;
    NotThere(lists0, toDel, hooks0, h);
    InsertedCounted(lists, toDel, hooks, i, Placed(lists[i], h, front), h);
    OnceInserted(lists, i, Placed(lists[i], h, front), h);
  }

  /** Placed somewhere, the new hook has as many references as lists it is in. */
  lemma AddingDone(lists0: seq<seq<HookId>>, toDel: seq<HookId>, hooks0: Hooks, lists: seq<seq<HookId>>, hooks: Hooks, h: HookId, front: bool, where: set<nat>)
    requires Adding(lists0, toDel, hooks0, lists, hooks, h, front, where)
    ensures hooks[h].refs == Occurs(lists, h) && hooks[h].refs >= 0
    ensures hooks[h].refs > 0 ==> Inv(lists, toDel, hooks)
    ensures hooks[h].refs == 0 ==> lists == lists0 && hooks - {h} == hooks0
  {
    NotThere(lists0, toDel, hooks0, h);
    assert Refs(hooks, h) == Occurs(lists, h) + Times(toDel, h);
    if hooks[h].refs > 0 {
      AddingQueued(lists0, toDel, hooks0, lists, hooks, h, front, where);
    } else {
      OccursSome(lists, h);
      hide Occurs, Times, Counted, Once, Queued, Referenced;
      forall j | 0 <= j < |lists| ensures lists[j] == lists0[j] {
        assert h !in lists[j];
        assert h in Placed(lists0[j], h, front);
      }
    }
  }

  lemma AddingQueued(lists0: seq<seq<HookId>>, toDel: seq<HookId>, hooks0: Hooks, lists: seq<seq<HookId>>, hooks: Hooks, h: HookId, front: bool, where: set<nat>)
    requires Adding(lists0, toDel, hooks0, lists, hooks, h, front, where)
    ensures Queued(lists, toDel, hooks)
  {
    NotThere(lists0, toDel, hooks0, h);
    TimesSum(toDel, [], h);
    hide Occurs, Times, Once, Referenced;
    forall x | x in hooks && hooks[x].toDelete
      ensures x in toDel && Occurs(lists, x) <= Times(toDel, x)
    {
      assert x in hooks0 && hooks0[x] == hooks[x];
      assert Refs(hooks, x) == Occurs(lists, x) + Times(toDel, x);
      assert Refs(hooks0, x) == Occurs(lists0, x) + Times(toDel, x);
    }
  }

  lemma PlacedHas(lists0: seq<seq<HookId>>, toDel: seq<HookId>, hooks0: Hooks, lists: seq<seq<HookId>>, hooks: Hooks, h: HookId, front: bool, where: set<nat>)
    requires Adding(lists0, toDel, hooks0, lists, hooks, h, front, where)
    ensures forall j :: 0 <= j < |lists| ==> (h in lists[j] <==> j in where)
  {
    hide Occurs, Times, Counted, Once, Queued, Referenced;
    NotThere(lists0, toDel, hooks0, h);
    forall j | 0 <= j < |lists| ensures h in lists[j] <==> j in where {
      assert h in Placed(lists0[j], h, front);
    }
  }
}
