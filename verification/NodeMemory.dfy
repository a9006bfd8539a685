/** Addresses for new nodes in an explicit memory. */
module NodeMemory {
  lemma {:induction false} Bound(used: set<nat>) returns (bound: nat)
    ensures bound > 0 && forall x :: x in used ==> x < bound
    decreases |used|
  {
    if used == {} {
      bound := 1;
    } else {
      var x :| x in used;
      var b := Bound(used - {x});
      bound := if x < b then b else x + 1;
      assert forall y :: y in used ==> y == x || y in used - {x};
    }
  }

  /** malloc: some address that is neither NULL nor in use. */
  method Allocate<T>(mem: map<nat, T>) returns (address: nat)
    ensures address != 0 && address !in mem
  {
    assert exists a: nat :: a != 0 && a !in mem by {
      var bound := Bound(mem.Keys);
      assert bound !in mem;
    }
    address :| address != 0 && address !in mem;
  }
}
