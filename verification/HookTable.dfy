/** Hooks of the engine: added to lists by type, deleted in two steps, freed with the last reference. */
module HookTables {
  import opened Arithmetic
  import opened HookLists
  import LinkedLists

  const HOOK_MAX: nat := 18
  const HOOK_INSN_IDX: nat := 1
  const HOOK_TCG_OPCODE_IDX: nat := 16

  datatype Err = ERR_OK | ERR_HOOK

  /** `type >> i` and bit `i` of it. */
  function Shift(type_: int, i: nat): int {
    if i == 0 then type_ else Shift(type_, i - 1) / 2
  }

  predicate Bit(type_: int, i: nat) {
    Shift(type_, i) % 2 == 1
  }

  /** A hook of this type goes into list `i`: instruction and opcode hooks only into their own. */
  ghost predicate Wants(type_: int, i: nat) {
    if Bit(type_, HOOK_INSN_IDX) then i == HOOK_INSN_IDX
    else if Bit(type_, HOOK_TCG_OPCODE_IDX) then i == HOOK_TCG_OPCODE_IDX
    else type_ > 0 && Bit(type_, i)
  }

  // ------------------------------------------------------- the bits of a type

  /** The powers of two at the bits below `n` that are set, added up. */
  ghost function BitSum(type_: int, n: nat): nat {
    if n == 0 then 0 else BitSum(type_, n - 1) + if Bit(type_, n - 1) then Pow2(n - 1) else 0
  }

  lemma HalvedProduct(p: nat, s: int, q: int, b: int)
    requires s == 2 * q + b
    ensures p * s == (2 * p) * q + p * b
  {
    assert p * (2 * q + b) == p * (2 * q) + p * b;
  }

  lemma {:induction false} BitsAndRest(type_: int, n: nat)
    ensures type_ == BitSum(type_, n) + Pow2(n) * Shift(type_, n)
  {
    if n > 0 {
      var p, s := Pow2(n - 1), Shift(type_, n - 1);
      BitsAndRest(type_, n - 1);
      HalvedProduct(p, s, s / 2, s % 2);
      assert Pow2(n) == 2 * p && Shift(type_, n) == s / 2;
      assert Bit(type_, n - 1) <==> s % 2 == 1;
    }
  }

  /** A type is the sum of the powers of two at its bits. */
  lemma SumOfBits(type_: nat, n: nat)
    requires type_ < Pow2(n)
    ensures type_ == BitSum(type_, n)
  {
    BitsAndRest(type_, n);
    Product(Pow2(n), 0, if Shift(type_, n) > 0 then Shift(type_, n) else 0);
    ShiftedNat(type_, n);
  }

  lemma {:induction false} ShiftedNat(type_: nat, n: nat)
    ensures Shift(type_, n) >= 0
  {
    if n > 0 { ShiftedNat(type_, n - 1); }
  }

  lemma {:induction false} PowerShift(k: nat, i: nat)
    ensures i <= k ==> Shift(Pow2(k), i) == Pow2(k - i)
    ensures i > k ==> Shift(Pow2(k), i) == 0
  {
    if i > 0 {
      PowerShift(k, i - 1);
    }
  }

  /** A power of two has one bit. */
  lemma PowerBit(k: nat, i: nat)
    ensures Bit(Pow2(k), i) <==> i == k
  {
    PowerShift(k, i);
  }

  /** A hook of one kind wants the list of that kind and no other. */
  lemma WantsPower(k: nat, i: nat)
    ensures Wants(Pow2(k), i) <==> i == k
  {
    hide Bit;
    PowerBit(k, HOOK_INSN_IDX);
    PowerBit(k, HOOK_TCG_OPCODE_IDX);
    PowerBit(k, i);
  }

  lemma {:induction false} ShiftedOut(type_: int, i: nat, j: nat)
    requires i <= j && type_ > 0
    ensures 0 <= Shift(type_, j) <= Shift(type_, i)
    ensures Shift(type_, i) <= 0 ==> !Bit(type_, j)
    decreases j
  {
    if j > 0 {
      ShiftedOut(type_, 0, j - 1);
      if i < j { ShiftedOut(type_, i, j - 1); }
    }
  }

  lemma ShiftNone(type_: int)
    ensures Shift(type_, 0) == type_
  {
  }

  lemma ShiftSmaller(type_: int, i: nat)
    requires Shift(type_, i) > 0
    ensures Shift(type_, i + 1) < Shift(type_, i)
  {
  }

  /** Every hook ever added is inUse or was freed, not both, and none was freed twice. */
  ghost predicate History(inUse: set<HookId>, freed: seq<HookId>, next: HookId) {
    && (forall h :: h in inUse ==> h < next && h !in freed)
    && (forall h :: h in freed ==> h < next)
    && (forall h :: 0 <= h < next ==> h in inUse || h in freed)
    && (forall h :: Times(freed, h) <= 1)
  }

  lemma FreedHistory(inUse: set<HookId>, freed: seq<HookId>, next: HookId, h: HookId)
    requires History(inUse, freed, next) && h in inUse
    ensures History(inUse - {h}, freed + [h], next)
  {
    hide Times;
    forall x ensures Times(freed + [h], x) <= 1 {
      TimesSum(freed, [h], x);
      TimesSum(freed, [], h);
      TimesSum([], [h], x);
    }
  }

  lemma CountedLists(lists: seq<seq<HookId>>, toDel: seq<HookId>, hooks: Hooks, h: HookId)
    requires Inv(lists, toDel, hooks)
    ensures Occurs(lists, h) == |set i | 0 <= i < |lists| && h in lists[i]|
  {
    OccursIs(lists, h);
  }

  lemma NotListed(lists: seq<seq<HookId>>, toDel: seq<HookId>, hooks: Hooks, h: HookId)
    requires Inv(lists, toDel, hooks) && h !in hooks
    ensures forall i :: 0 <= i < |lists| ==> h !in lists[i]
  {
    hide Occurs, Times;
    assert Refs(hooks, h) == Occurs(lists, h) + Times(toDel, h);
    OccursSome(lists, h);
  }

  lemma NewHook(inUse: set<HookId>, freed: seq<HookId>, next: HookId)
    requires History(inUse, freed, next)
    ensures next !in inUse && History(inUse + {next}, freed, next + 1)
  {
  }

  lemma Somewhere(lists: seq<seq<HookId>>, h: HookId, i: nat)
    requires i < |lists| && h in lists[i]
    ensures Occurs(lists, h) > 0
  {
    OccursSome(lists, h);
  }

  class HookTable {
    /** The lists by type of hook, and that of the hooks to delete. */
    var hook: seq<LinkedLists.List>
    var hooksToDel: LinkedLists.List
    var hooks: Hooks
    /** What the lists hold. */
    ghost var lists: seq<seq<HookId>>
    ghost var toDel: seq<HookId>
    /** New hooks go to the front of their lists. */
    var hookInsert: bool
    /** The next address that calloc returns; addresses are not reused. */
    var next: HookId
    ghost var freed: seq<HookId>

    ghost predicate Linked()
      reads this
    {
      && |hook| == |lists| == HOOK_MAX && LinkedLists.Holds(hooksToDel, toDel)
      && forall i :: 0 <= i < HOOK_MAX ==> LinkedLists.Holds(hook[i], lists[i])
    }

    ghost predicate Valid()
      reads this
    {
      Linked() && Inv(lists, toDel, hooks) && History(hooks.Keys, freed, next)
    }

    constructor (hookInsert: bool)
      ensures Valid() && hooks == map[] && toDel == [] && freed == [] && next == 0 && this.hookInsert == hookInsert
    {
      hook, hooksToDel := seq(HOOK_MAX, _ => LinkedLists.EMPTY), LinkedLists.EMPTY;
      lists := seq(HOOK_MAX, _ => []);
      toDel, hooks, next, freed := [], map[], 0, [];
      this.hookInsert := hookInsert;
      new;
      LinkedLists.EmptyHolds();
      forall h ensures Occurs(lists, h) == 0 { OccursSome(lists, h); }
    }

    /** free. */
    method Free(h: HookId)
      requires h in hooks && History(hooks.Keys, freed, next)
      modifies this`hooks, this`freed
      ensures hooks == old(hooks) - {h} && freed == old(freed) + [h] && History(hooks.Keys, freed, next)
    {
      FreedHistory(hooks.Keys, freed, next, h);
      assert (hooks - {h}).Keys == hooks.Keys - {h};
      hooks := hooks - {h};
      freed := freed + [h];
    }

    /** hook_delete. */
    method HookDelete(h: HookId)
      requires h in hooks && History(hooks.Keys, freed, next)
      modifies this`hooks, this`freed
      ensures hooks == Dropped(old(hooks), h) && History(hooks.Keys, freed, next)
      ensures freed == old(freed) + if h in hooks then [] else [h]
    {
      hooks := hooks[h := hooks[h].(refs := hooks[h].refs - 1)];
      if hooks[h].refs == 0 {
        Free(h);
      }
    }

    /** list_remove on one of the lists, with hook_delete. */
    method ListRemove(i: nat, h: HookId) returns (found: bool)
      requires Linked() && i < HOOK_MAX && Counted(lists, toDel, hooks) && Referenced(hooks) && Once(lists) && History(hooks.Keys, freed, next)
      modifies this`hook, this`lists, this`hooks, this`freed
      ensures Linked() && Counted(lists, toDel, hooks) && Referenced(hooks) && Once(lists) && History(hooks.Keys, freed, next)
      ensures found <==> h in old(lists)[i]
      ensures !found ==> lists == old(lists) && hooks == old(hooks) && freed == old(freed)
      ensures found && h in hooks ==> freed == old(freed)
      ensures found ==> h in old(hooks) && hooks == Dropped(old(hooks), h) && lists == old(lists)[i := Without(old(lists)[i], h)]
    {
      hide Counted, Referenced, Once, History, LinkedLists.Holds;
      var list;
      found, list := LinkedLists.Remove(hook[i], h, lists[i]);
      if found {
        RemovedCounted(lists, toDel, hooks, i, h);
        OnceWithout(lists, i, h);
        hook, lists := hook[i := list], lists[i := Without(lists[i], h)];
        HookDelete(h);
      }
    }

    /** hook_insert or hook_append to list `i`. */
    method Place(i: nat, h: HookId)
      requires Linked() && i < HOOK_MAX && h in hooks
      modifies this`hook, this`lists, this`hooks
      ensures Linked() && lists == old(lists)[i := Placed(old(lists)[i], h, hookInsert)] && hooks == Added(old(hooks), h) && hooks.Keys == old(hooks).Keys
      ensures forall x :: Occurs(lists, x) == Occurs(old(lists), x) + (if x == h then 1 else 0) && Refs(hooks, x) == Refs(old(hooks), x) + (if x == h then 1 else 0)
    {
      hide LinkedLists.Holds, Occurs, Times;
      var list;
      if hookInsert {
        list := LinkedLists.Insert(hook[i], h, lists[i]);
      } else {
        list := LinkedLists.Append(hook[i], h, lists[i]);
      }
      forall x ensures Occurs(lists[i := Placed(lists[i], h, hookInsert)], x) == Occurs(lists, x) + (if x == h then 1 else 0) {
        OccursUpdate(lists, i, Placed(lists[i], h, hookInsert), x);
        PlacedTimes(lists[i], h, hookInsert, x);
      }
      hook, lists := hook[i := list], lists[i := Placed(lists[i], h, hookInsert)];
      hooks := Added(hooks, h);
    }

    /** An instruction or opcode hook goes into the one list for its kind. */
    method PlaceOnly(i: nat, hh: HookId, ghost lists0: seq<seq<HookId>>, ghost hooks0: Hooks)
      requires Linked() && i < HOOK_MAX && Adding(lists0, toDel, hooks0, lists, hooks, hh, hookInsert, {}) && History(hooks.Keys, freed, next)
      modifies this`hook, this`lists, this`hooks
      ensures Valid() && |lists0| == HOOK_MAX && lists == lists0[i := Placed(lists0[i], hh, hookInsert)] && hooks == hooks0[hh := Hook(Occurs(lists, hh), false)]
    {
      hide Inv, History, Occurs, Once, Counted, LinkedLists.Holds;
      AddingPlace(lists0, toDel, hooks0, lists, hooks, hh, hookInsert, {}, i);
      Place(i, hh);
      AddingDone(lists0, toDel, hooks0, lists, hooks, hh, hookInsert, {} + {i});
      Somewhere(lists, hh, i);
    }

    /** A hook that was placed nowhere is freed again. */
    method Discard(hh: HookId, ghost lists0: seq<seq<HookId>>, ghost hooks0: Hooks)
      requires Linked() && Adding(lists0, toDel, hooks0, lists, hooks, hh, hookInsert, {}) && History(hooks.Keys, freed, next)
      modifies this`hooks, this`freed
      ensures Valid() && lists == lists0 && hooks == hooks0
    {
      hide Occurs, History;
      AddingDone(lists0, toDel, hooks0, lists, hooks, hh, hookInsert, {});
      PlacedHas(lists0, toDel, hooks0, lists, hooks, hh, hookInsert, {});
      OccursSome(lists, hh);
      Free(hh);
    }

    /** The lists of uc_hook_add for a new hook. */
    method PlaceHook(type_: int, insnOk: bool, opcodeOk: bool, hh: HookId, ghost lists0: seq<seq<HookId>>, ghost hooks0: Hooks) returns (err: Err)
      requires Linked() && Adding(lists0, toDel, hooks0, lists, hooks, hh, hookInsert, {}) && History(hooks.Keys, freed, next)
      modifies this`hook, this`lists, this`hooks, this`freed
      ensures Valid()
      ensures err == ERR_HOOK <==> (Bit(type_, 1) && !insnOk) || (!Bit(type_, 1) && Bit(type_, 16) && !opcodeOk)
      ensures forall i :: 0 <= i < HOOK_MAX ==> lists[i] == if err == ERR_OK && Wants(type_, i) then Placed(lists0[i], hh, hookInsert) else lists0[i]
      ensures hooks == if err == ERR_OK && exists i :: 0 <= i < HOOK_MAX && Wants(type_, i) then hooks0[hh := Hook(Occurs(lists, hh), false)] else hooks0
    {
      hide Inv, History, Shift, Bit, Occurs, Adding, LinkedLists.Holds;
      if Bit(type_, HOOK_INSN_IDX) {
        if !insnOk {
          Discard(hh, lists0, hooks0);
          return ERR_HOOK;
        }
        PlaceOnly(HOOK_INSN_IDX, hh, lists0, hooks0);
        return ERR_OK;
      }
      if Bit(type_, HOOK_TCG_OPCODE_IDX) {
        if !opcodeOk {
          Discard(hh, lists0, hooks0);
          return ERR_HOOK;
        }
        PlaceOnly(HOOK_TCG_OPCODE_IDX, hh, lists0, hooks0);
        return ERR_OK;
      }
      PlaceByType(type_, hh, lists0, hooks0);
      return ERR_OK;
    }

    /** uc_hook_add, where the two flags say whether the instruction or opcode is acceptable. The hook
        is referenced once for each list that holds it, and not kept when there is none. */
    method HookAdd(type_: int, insnOk: bool, opcodeOk: bool) returns (err: Err, hh: HookId)
      requires Valid()
      modifies this`hook, this`lists, this`hooks, this`next, this`freed
      ensures Valid() && hh == old(next) && hh !in old(hooks) && next == old(next) + 1
      ensures err == ERR_HOOK <==> (Bit(type_, 1) && !insnOk) || (!Bit(type_, 1) && Bit(type_, 16) && !opcodeOk)
      ensures forall i :: 0 <= i < 18 ==>
                lists[i] == if err == ERR_OK && (if Bit(type_, 1) then i == 1 else if Bit(type_, 16) then i == 16 else type_ > 0 && Bit(type_, i))
                            then if hookInsert then [hh] + old(lists)[i] else old(lists)[i] + [hh]
                            else old(lists)[i]
      ensures forall k: nat :: type_ == Pow2(k) && err == ERR_OK ==>
                forall i :: 0 <= i < 18 ==> lists[i] == if i != k then old(lists)[i] else if hookInsert then [hh] + old(lists)[i] else old(lists)[i] + [hh]
      ensures var there := set i | 0 <= i < 18 && hh in lists[i];
              hooks == if there == {} then old(hooks) else old(hooks)[hh := Hook(|there|, false)]
    {
      hide Inv, History, Shift, Bit, Occurs, Adding, LinkedLists.Holds, Pow2;
      hh := next;
      NewHook(hooks.Keys, freed, next);
      AddingStart(lists, toDel, hooks, hh, hookInsert);
      assert hooks[hh := Hook(0, false)].Keys == hooks.Keys + {hh};
      hooks := hooks[hh := Hook(0, false)];
      next := next + 1;
      NotListed(old(lists), toDel, old(hooks), hh);
      err := PlaceHook(type_, insnOk, opcodeOk, hh, old(lists), old(hooks));
      CountedLists(lists, toDel, hooks, hh);
      ghost var there := set i | 0 <= i < HOOK_MAX && hh in lists[i];
      forall i | 0 <= i < HOOK_MAX ensures i in there <==> err == ERR_OK && Wants(type_, i) {
        assert lists[i] == if err == ERR_OK && Wants(type_, i) then Placed(old(lists)[i], hh, hookInsert) else old(lists)[i];
      }
      assert there == {} <==> !(err == ERR_OK && exists i :: 0 <= i < HOOK_MAX && Wants(type_, i));
      forall k: nat, i: nat | type_ == Pow2(k) ensures Wants(type_, i) <==> i == k {
        WantsPower(k, i);
      }
    }

    /** The loop over the bits of the type, and the check that the hook is used. */
    method PlaceByType(type_: int, hh: HookId, ghost lists0: seq<seq<HookId>>, ghost hooks0: Hooks)
      requires Linked() && Adding(lists0, toDel, hooks0, lists, hooks, hh, hookInsert, {}) && History(hooks.Keys, freed, next)
      modifies this`hook, this`lists, this`hooks, this`freed
      ensures Valid()
      ensures forall i :: 0 <= i < HOOK_MAX ==> lists[i] == if type_ > 0 && Bit(type_, i) then Placed(lists0[i], hh, hookInsert) else lists0[i]
      ensures hooks == if exists i :: 0 <= i < HOOK_MAX && type_ > 0 && Bit(type_, i) then hooks0[hh := Hook(Occurs(lists, hh), false)] else hooks0
    {
      hide Inv, History, Shift, Bit, Occurs, LinkedLists.Holds;
      ghost var where: set<nat> := {};
      var i: nat := 0;
      ShiftNone(type_);
      while Shift(type_, i) > 0
        invariant Linked() && Adding(lists0, toDel, hooks0, lists, hooks, hh, hookInsert, where) && History(hooks.Keys, freed, next)
        invariant forall j :: j in where <==> 0 <= j < i && j < HOOK_MAX && Bit(type_, j)
        invariant type_ > 0 || i == 0
        decreases Shift(type_, i)
      {
        ShiftSmaller(type_, i);
        if Bit(type_, i) && i < HOOK_MAX {
          AddingPlace(lists0, toDel, hooks0, lists, hooks, hh, hookInsert, where, i);
          Place(i, hh);
          where := where + {i};
        }
        i := i + 1;
      }
      forall j | i <= j ensures type_ > 0 ==> !Bit(type_, j) {
        if type_ > 0 { ShiftedOut(type_, i, j); }
      }
      AddingDone(lists0, toDel, hooks0, lists, hooks, hh, hookInsert, where);
      OccursSome(lists, hh);
      PlacedHas(lists0, toDel, hooks0, lists, hooks, hh, hookInsert, where);
      if hooks[hh].refs == 0 {
        Free(hh);
      }
    }

    /** uc_hook_del: the hook is queued once for each list that has it; a handle that is in no list,
        such as that of a freed hook, is not followed. */
    method HookDel(h: HookId)
      requires Valid()
      modifies this`hooksToDel, this`toDel, this`hooks
      ensures Valid() && Deleting(lists, old(toDel), old(hooks), toDel, hooks, h, HOOK_MAX)
      ensures var there := set i | 0 <= i < 18 && h in lists[i];
              && toDel == old(toDel) + seq(|there|, _ => h)
              && (there == {} ==> hooks == old(hooks))
              && (there != {} ==> h in old(hooks) && hooks == old(hooks)[h := Hook(old(hooks)[h].refs + |there|, true)])
      ensures forall i :: 0 <= i < HOOK_MAX && h in lists[i] ==> h in hooks && hooks[h].toDelete
      ensures hooks.Keys == old(hooks).Keys
    {
      hide Counted, Referenced, Once, History, Queued, Occurs, LinkedLists.Holds;
      assert Deleting(lists, toDel, hooks, toDel, hooks, h, 0) by { NoOccurs(lists, h); }
      for i := 0 to HOOK_MAX
        invariant Linked() && Deleting(lists, old(toDel), old(hooks), toDel, hooks, h, i) && hooks.Keys == old(hooks).Keys
      {
        DeletingStep(lists, old(toDel), old(hooks), toDel, hooks, h, i);
        var there := LinkedLists.Exists(hook[i], h, lists[i]);
        if there {
          hooks := hooks[h := hooks[h].(toDelete := true)];
          hooksToDel := LinkedLists.Append(hooksToDel, h, toDel);
          toDel := toDel + [h];
          hooks := Added(hooks, h);
        }
      }
      DeletingDone(lists, old(toDel), old(hooks), toDel, hooks, h);
      OccursIs(lists, h);
      OccursSome(lists, h);
      assert lists[..HOOK_MAX] == lists;
    }

    /** One turn of the first loop of clear_deleted_hooks. */
    method DropFromLists(hook_: HookId, ghost k: nat, ghost lists0: seq<seq<HookId>>, ghost hooks0: Hooks)
      requires Linked() && Clearing(lists0, toDel, hooks0, lists, hooks, k) && k < |toDel| && hook_ == toDel[k] && History(hooks.Keys, freed, next)
      modifies this`hook, this`lists, this`hooks, this`freed
      ensures Linked() && Clearing(lists0, toDel, hooks0, lists, hooks, k + 1) && History(hooks.Keys, freed, next)
      ensures freed == old(freed)
    {
      hide Counted, Referenced, Once, History, Enough, Without, SameLive, SameMarks, LinkedLists.Holds;
      for i := 0 to HOOK_MAX
        invariant Linked() && lists == old(lists) && hooks == old(hooks) && freed == old(freed)
        invariant forall j :: 0 <= j < i ==> hook_ !in lists[j]
      {
        ghost var there := hook_ in lists[i];
        if there { ClearingDrop(lists0, toDel, hooks0, lists, hooks, k, i); }
        var found := ListRemove(i, hook_);
        if found {
          return;
        }
      }
      ClearingSkip(lists0, toDel, hooks0, lists, hooks, k);
    }

    /** clear_deleted_hooks: afterwards no list holds a hook marked for deletion, the others are
        where they were in the same order, and exactly the marked hooks are freed. */
    method ClearDeletedHooks()
      requires Valid()
      modifies this
      ensures Valid() && toDel == [] && hookInsert == old(hookInsert) && next == old(next)
      ensures forall i :: 0 <= i < HOOK_MAX ==> lists[i] == Live(old(lists)[i], old(hooks))
      ensures forall i, h :: 0 <= i < 18 ==> (h in lists[i] <==> h in old(lists)[i] && !(h in old(hooks) && old(hooks)[h].toDelete))
      ensures forall h :: h in hooks <==> h in old(hooks) && !old(hooks)[h].toDelete
      ensures forall h :: h in hooks ==> hooks[h] == old(hooks)[h]
    {
      hide Counted, Referenced, Once, History, Enough, Queued, SameLive, LinkedLists.Holds, LinkedLists.AtItem;
      ghost var lists0, hooks0 := lists, hooks;
      ClearingStart(lists, toDel, hooks);
      var cur := hooksToDel.head;
      ghost var k: nat := 0;
      LinkedLists.AtFirst(hooksToDel, toDel);
      LinkedLists.AtNext(hooksToDel, toDel, k, cur);
      while cur != LinkedLists.NULL
        invariant Linked() && Clearing(lists0, toDel, hooks0, lists, hooks, k) && History(hooks.Keys, freed, next)
        invariant LinkedLists.AtItem(hooksToDel, toDel, k, cur) && k <= |toDel| && (cur == LinkedLists.NULL <==> k == |toDel|)
        invariant toDel == old(toDel) && next == old(next) && hookInsert == old(hookInsert)
        decreases |toDel| - k
      {
        LinkedLists.AtNext(hooksToDel, toDel, k, cur);
        DropFromLists(hooksToDel.mem[cur].data, k, lists0, hooks0);
        LinkedLists.AtNext(hooksToDel, toDel, k + 1, hooksToDel.mem[cur].next);
        cur := hooksToDel.mem[cur].next;
        k := k + 1;
      }
      ClearingDone(lists0, toDel, hooks0, lists, hooks);
      FreeingStart(lists0, toDel, hooks0, lists, hooks);
      ListClearQueue(hooks0);
      forall i, h | 0 <= i < HOOK_MAX ensures h in lists[i] <==> h in lists0[i] && !(h in hooks0 && hooks0[h].toDelete) {
        LiveHas(lists0[i], hooks0, h);
      }
    }

    /** list_clear of the queue. */
    method ListClearQueue(ghost hooks0: Hooks)
      requires Linked() && Freeing(lists, toDel, hooks) && Untouched(hooks0, hooks) && History(hooks.Keys, freed, next)
      modifies this`hooksToDel, this`toDel, this`hooks, this`freed
      ensures Valid() && toDel == [] && Untouched(hooks0, hooks) && forall h :: h in hooks ==> !hooks[h].toDelete
    {
      hide Inv, Freeing, Untouched, Dropped, History, LinkedLists.Holds;
      LinkedLists.HeadIs(hooksToDel, toDel);
      while hooksToDel.head != LinkedLists.NULL
        invariant Linked() && Freeing(lists, toDel, hooks) && Untouched(hooks0, hooks) && History(hooks.Keys, freed, next)
        invariant hooksToDel.head == LinkedLists.NULL <==> toDel == []
        decreases |toDel|
      {
        FreeingStep(lists, toDel, hooks);
        DroppedUntouched(hooks0, hooks, toDel[0]);
        var data;
        data, hooksToDel := LinkedLists.TakeFirst(hooksToDel, toDel);
        toDel := toDel[1..];
        HookDelete(data);
        LinkedLists.HeadIs(hooksToDel, toDel);
      }
      FreeingDone(lists, hooks);
    }

    /** list_clear of one of the lists. */
    method ListClear(i: nat)
      requires Linked() && i < HOOK_MAX && Counted(lists, toDel, hooks) && Referenced(hooks) && History(hooks.Keys, freed, next)
      modifies this`hook, this`lists, this`hooks, this`freed
      ensures Linked() && lists == old(lists)[i := []] && hook == old(hook)[i := LinkedLists.EMPTY]
      ensures Counted(lists, toDel, hooks) && Referenced(hooks) && History(hooks.Keys, freed, next)
    {
      hide Counted, Referenced, History, LinkedLists.Holds;
      LinkedLists.HeadIs(hook[i], lists[i]);
      while hook[i].head != LinkedLists.NULL
        invariant Linked() && lists == old(lists)[i := lists[i]] && hook == old(hook)[i := hook[i]]
        invariant Counted(lists, toDel, hooks) && Referenced(hooks) && History(hooks.Keys, freed, next)
        invariant (hook[i].head == LinkedLists.NULL <==> lists[i] == []) && (lists[i] == [] ==> hook[i] == LinkedLists.EMPTY)
        decreases |lists[i]|
      {
        var data, list := LinkedLists.TakeFirst(hook[i], lists[i]);
        RemovedCounted(lists, toDel, hooks, i, data);
        hook, lists := hook[i := list], lists[i := lists[i][1..]];
        HookDelete(data);
        LinkedLists.HeadIs(hook[i], lists[i]);
      }
    }

    /** What uc_close does with the hooks: all are freed, each once. */
    method Close()
      requires Valid()
      modifies this
      ensures hooks == map[] && forall h: HookId :: multiset(freed)[h] == if h < next then 1 else 0
      ensures next == old(next) && |hook| == HOOK_MAX && forall i :: 0 <= i < HOOK_MAX ==> hook[i] == LinkedLists.EMPTY
    {
      hide Counted, Referenced, Once, Queued, LinkedLists.Holds;
      ClearDeletedHooks();
      for i := 0 to HOOK_MAX
        invariant Linked() && Counted(lists, toDel, hooks) && Referenced(hooks) && History(hooks.Keys, freed, next)
        invariant toDel == [] && next == old(next) && forall j :: 0 <= j < i ==> lists[j] == [] && hook[j] == LinkedLists.EMPTY
      {
        ListClear(i);
      }
      NoneLeft(lists, hooks);
      forall h: HookId ensures multiset(freed)[h] == if h < next then 1 else 0 {
        assert Times(freed, h) == multiset(freed)[h];
        TimesSum(freed, [], h);
      }
    }
  }

  lemma PlacedTimes(l: seq<HookId>, h: HookId, front: bool, x: HookId)
    ensures Times(Placed(l, h, front), x) == Times(l, x) + if x == h then 1 else 0
  {
    TimesSum([h], l, x);
    TimesSum(l, [h], x);
  }

  lemma NoneLeft(lists: seq<seq<HookId>>, hooks: Hooks)
    requires Counted(lists, [], hooks) && Referenced(hooks) && forall j :: 0 <= j < |lists| ==> lists[j] == []
    ensures hooks == map[]
  {
    forall h ensures h !in hooks {
      OccursSome(lists, h);
      assert Refs(hooks, h) == Occurs(lists, h) + Times([], h);
    }
  }

  lemma NoOccurs(lists: seq<seq<HookId>>, h: HookId)
    ensures Occurs(lists[..0], h) == 0
  {
  }

  // ------------------------------------------------------- runs

  datatype Op = Add(type_: int, insnOk: bool, opcodeOk: bool) | Delete(h: HookId) | Clear

  /** Any run of additions, deletions (repeated ones and stale handles too) and clearings, up to the
      closing of the engine: every hook that was added is freed exactly once. */
  method Lifetime(ops: seq<Op>, hookInsert: bool) returns (t: HookTable)
    ensures t.hooks == map[] && forall h: HookId :: multiset(t.freed)[h] == if h < t.next then 1 else 0
    ensures t.next == |set i | 0 <= i < |ops| && ops[i].Add?|
  {
    hide Inv, History;
    t := new HookTable(hookInsert);
    for i := 0 to |ops|
      invariant fresh(t) && t.Valid() && t.next == Additions(ops[..i])
    {
      assert ops[..i + 1][..i] == ops[..i];
      match ops[i] {
        case Add(type_, insnOk, opcodeOk) => var _, _ := t.HookAdd(type_, insnOk, opcodeOk);
        case Delete(h) => t.HookDel(h);
        case Clear => t.ClearDeletedHooks();
      }
    }
    assert ops[..|ops|] == ops;
    AdditionsAre(ops);
    t.Close();
  }

  ghost function Additions(ops: seq<Op>): nat {
    if ops == [] then 0 else Additions(ops[..|ops| - 1]) + if ops[|ops| - 1].Add? then 1 else 0
  }

  lemma {:induction false} AdditionsAre(ops: seq<Op>)
    ensures Additions(ops) == |set i | 0 <= i < |ops| && ops[i].Add?|
  {
    var all := set i | 0 <= i < |ops| && ops[i].Add?;
    if ops == [] {
      assert all == {};
    } else {
      var n := |ops| - 1;
      AdditionsAre(ops[..n]);
      assert (set i | 0 <= i < |ops[..n]| && ops[..n][i].Add?) == all - {n};
    }
  }
}
