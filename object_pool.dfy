/**
 * The generic object pool (ObjectPool) as a class whose entry list is changed in
 * place. Each method is one sequential call of the Java method; its effect is
 * tied to the step functions of PoolSpec.
 *
 * The pool's collaborators become data: `policy` holds the constants of the
 * IPoolMethods implementation, getNewObj returns supply(created) and bumps the
 * counter `created`, and every object passed to cleanup is appended to the
 * ghost record `cleaned`.
 */
module ObjectPools {
  import opened Wrappers
  import opened PoolObjects
  import opened PoolMethods
  import opened PoolSpec

  class ObjectPool<T(==)> {
    const policy: Policy
    const supply: nat -> T
    var poolObjects: seq<PoolObject<T>>
    var created: nat
    ghost var cleaned: seq<T>

    /** The pool's invariant: its policy passed the constructor's checks and the size bound holds. */
    ghost predicate Valid()
      reads this
    {
      ValidPolicy(policy) && |poolObjects| <= policy.maxSize
    }

    /**
     * The constructor once its checks have passed (NewPool below is the
     * constructor with its failure cases): initialInit creates initialSize idle entries.
     */
    constructor (policy: Policy, supply: nat -> T, initialSize: int)
      requires CheckConstruction(policy, initialSize).Pass?
      ensures Valid()
      ensures this.policy == policy && this.supply == supply
      ensures poolObjects == Prewarmed(supply, initialSize)
      ensures created == initialSize && cleaned == []
    {
      this.policy := policy;
      this.supply := supply;
      poolObjects := [];
      created := 0;
      cleaned := [];
      new;
      var x := 0;
      while x < initialSize
        invariant 0 <= x <= initialSize
        invariant created == x && cleaned == []
        invariant poolObjects == Prewarmed(supply, x)
      {
        var obj := NewPoolObject(supply(created), false);
        created := created + 1;
        poolObjects := poolObjects + [obj];
        x := x + 1;
      }
    }

    /** getFreePoolObject: locks the first idle entry and returns its position, or finds none. */
    method GetFreePoolObject() returns (sel: Option<nat>)
      modifies this`poolObjects
      ensures sel == FirstFree(old(poolObjects))
      ensures sel.None? ==> poolObjects == old(poolObjects)
      ensures sel.Some? ==> poolObjects == old(poolObjects)[sel.value := SetLocked(old(poolObjects)[sel.value], true)]
    {
      var i := 0;
      while i < |poolObjects|
        invariant 0 <= i <= |poolObjects|
        invariant poolObjects == old(poolObjects)
        invariant forall j :: 0 <= j < i ==> poolObjects[j].locked
      {
        if !poolObjects[i].locked {
          poolObjects := poolObjects[i := SetLocked(poolObjects[i], true)];
          return Some(i);
        }
        i := i + 1;
      }
      return None;
    }

    /**
     * One attempt of get. `valid` is the result of validate on the selected
     * object. Got(o) is the object returned; on RetryFull and RetryInvalid the
     * Java method calls itself again.
     */
    method Get(valid: bool) returns (outcome: GetOutcome<T>)
      requires Valid()
      modifies this
      ensures Valid()
      ensures var a := GetStep(policy, old(poolObjects), supply(old(created)), valid);
        outcome == a.outcome && poolObjects == a.step.entries && cleaned == old(cleaned) + a.step.cleaned
      ensures created == old(created) + (if CreatesNew(policy, old(poolObjects)) then 1 else 0)
    {
      var sel := GetFreePoolObject();
      var i: nat;
      if sel.None? {
        if |poolObjects| < policy.maxSize {
          var obj := NewPoolObject(supply(created), true);
          created := created + 1;
          poolObjects := poolObjects + [obj];
          i := |poolObjects| - 1;
        } else {
          return RetryFull;
        }
      } else {
        i := sel.value;
      }
      var o := poolObjects[i].obj;
      if policy.validateOnGet && !valid {
        poolObjects := RemoveAt(poolObjects, i);
        cleaned := cleaned + [o];
        return RetryInvalid(o);
      }
      return Got(o);
    }

    /** giveBack(obj) at time `now`; `valid` is the result of validate on obj. */
    method GiveBack(obj: T, valid: bool, now: int)
      requires Valid()
      modifies this`poolObjects, this`cleaned
      ensures Valid()
      ensures var st := GiveBackStep(policy, old(poolObjects), obj, valid, now);
        poolObjects == st.entries && cleaned == old(cleaned) + st.cleaned
    {
      var i := 0;
      while i < |poolObjects|
        invariant 0 <= i <= |poolObjects|
        invariant poolObjects == old(poolObjects) && cleaned == old(cleaned)
        invariant forall j :: 0 <= j < i ==> poolObjects[j].obj != obj
      {
        if poolObjects[i].obj == obj {
          if policy.validateOnGiveBack && !valid {
            poolObjects := RemoveAt(poolObjects, i);
            cleaned := cleaned + [obj];
            return;
          }
          poolObjects := poolObjects[i := SetTimeGaveBack(SetLocked(poolObjects[i], false), now)];
          return;
        }
        i := i + 1;
      }
    }

    /** getPoolSize: the number of entries, checked out or idle. */
    method GetPoolSize() returns (size: int)
      requires Valid()
      ensures size == |poolObjects| && size <= policy.maxSize
    {
      size := |poolObjects|;
    }

    /** getUnlockedCount: the counting loop, which never exceeds the pool size. */
    method GetUnlockedCount() returns (size: int)
      ensures size == UnlockedCount(poolObjects)
      ensures 0 <= size <= |poolObjects|
    {
      size := 0;
      var i := 0;
      while i < |poolObjects|
        invariant 0 <= i <= |poolObjects|
        invariant size == UnlockedCount(poolObjects[..i])
      {
        assert poolObjects[..i + 1][..i] == poolObjects[..i];
        if !poolObjects[i].locked {
          size := size + 1;
        }
        i := i + 1;
      }
      assert poolObjects[..i] == poolObjects;
    }

    /**
     * The iterator loop shared by flushPool and doCheck: walk a snapshot of the
     * list; each entry the sweep may evict is claimed (locked), removed from
     * the live list and handed to cleanup.
     */
    method SweepPool(s: Sweep)
      requires Valid()
      modifies this`poolObjects, this`cleaned
      ensures Valid()
      ensures var st := SweepStep(old(poolObjects), s);
        poolObjects == st.entries && cleaned == old(cleaned) + st.cleaned
    {
      var snapshot := poolObjects;
      var i, k := 0, 0;
      while i < |snapshot|
        invariant 0 <= i <= |snapshot|
        invariant k == |Survivors(snapshot[..i], s)|
        invariant poolObjects == Survivors(snapshot[..i], s) + snapshot[i..]
        invariant cleaned == old(cleaned) + Objs(Evicted(snapshot[..i], s))
      {
        SweepLoopStep(snapshot, i, s, poolObjects, k);
        if Evictable(poolObjects[k], s) {
          ClaimAndRemove(k);
        } else {
          k := k + 1;
        }
        i := i + 1;
      }
      assert snapshot[..i] == snapshot;
    }

    /** One eviction: the entry at k is claimed (locked), removed from the list and handed to cleanup. */
    method ClaimAndRemove(k: nat)
      requires k < |poolObjects|
      modifies this`poolObjects, this`cleaned
      ensures poolObjects == RemoveAt(old(poolObjects), k)
      ensures cleaned == old(cleaned) + [old(poolObjects)[k].obj]
    {
      poolObjects := poolObjects[k := SetLocked(poolObjects[k], true)];
      var o := poolObjects[k].obj;
      poolObjects := RemoveAt(poolObjects, k);
      cleaned := cleaned + [o];
    }

    /** flushPool: evicts every idle entry. */
    method FlushPool()
      requires Valid()
      modifies this`poolObjects, this`cleaned
      ensures Valid()
      ensures var st := SweepStep(old(poolObjects), Flush);
        poolObjects == st.entries && cleaned == old(cleaned) + st.cleaned
    {
      SweepPool(Flush);
    }

    /** One pass of the reaper's doCheck at time `now`; the reaper runs only with a finite TTL. */
    method DoCheck(now: int)
      requires Valid() && ReaperEnabled(policy)
      modifies this`poolObjects, this`cleaned
      ensures Valid()
      ensures var st := SweepStep(old(poolObjects), Reap(now, policy.ttl));
        poolObjects == st.entries && cleaned == old(cleaned) + st.cleaned
    {
      SweepPool(Reap(now, policy.ttl));
    }
  }

  /**
   * One turn of the sweep loop: the entry under the iterator sits right after
   * the survivors so far, and evicting or keeping it re-establishes the loop's
   * invariant for the next position.
   */
  lemma SweepLoopStep<T>(snapshot: seq<PoolObject<T>>, i: nat, s: Sweep, live: seq<PoolObject<T>>, k: nat)
    requires i < |snapshot|
    requires k == |Survivors(snapshot[..i], s)|
    requires live == Survivors(snapshot[..i], s) + snapshot[i..]
    ensures k < |live| && live[k] == snapshot[i]
    ensures Evictable(snapshot[i], s) ==>
      && RemoveAt(live, k) == Survivors(snapshot[..i + 1], s) + snapshot[i + 1..]
      && Objs(Evicted(snapshot[..i + 1], s)) == Objs(Evicted(snapshot[..i], s)) + [snapshot[i].obj]
      && k == |Survivors(snapshot[..i + 1], s)|
    ensures !Evictable(snapshot[i], s) ==>
      && live == Survivors(snapshot[..i + 1], s) + snapshot[i + 1..]
      && Evicted(snapshot[..i + 1], s) == Evicted(snapshot[..i], s)
      && k + 1 == |Survivors(snapshot[..i + 1], s)|
  {
    var prefix := snapshot[..i + 1];
    assert prefix[..i] == snapshot[..i];
    assert prefix[i] == snapshot[i];
    var kept, gone := Survivors(snapshot[..i], s), Evicted(snapshot[..i], s);
    var rest := snapshot[i + 1..];
    assert snapshot[i..] == [snapshot[i]] + rest;
    assert live == kept + [snapshot[i]] + rest;
    if Evictable(snapshot[i], s) {
      assert Survivors(prefix, s) == kept;
      assert Evicted(prefix, s) == gone + [snapshot[i]];
      ObjsAppend(gone, [snapshot[i]]);
      assert live[..k] == kept;
      assert live[k + 1..] == rest;
    } else {
      assert Survivors(prefix, s) == kept + [snapshot[i]];
      assert Evicted(prefix, s) == gone;
    }
  }

  lemma ObjsAppend<T>(a: seq<PoolObject<T>>, b: seq<PoolObject<T>>)
    ensures Objs(a + b) == Objs(a) + Objs(b)
  {
  }

  /** The pool's constructor with its failure cases: an error for a bad policy or initialSize, else a new pool. */
  method NewPool<T(==)>(policy: Policy, supply: nat -> T, initialSize: int) returns (r: Result<ObjectPool<T>, ConfigError>)
    ensures r.Failure? <==> CheckConstruction(policy, initialSize).Fail?
    ensures r.Failure? ==> r.error == CheckConstruction(policy, initialSize).error
    ensures r.Success? ==> fresh(r.value) && r.value.Valid()
    ensures r.Success? ==> r.value.policy == policy && r.value.supply == supply
    ensures r.Success? ==> r.value.poolObjects == Prewarmed(supply, initialSize)
    ensures r.Success? ==> r.value.created == initialSize && r.value.cleaned == []
  {
    var check := CheckConstruction(policy, initialSize);
    if check.Fail? {
      return Failure(check.error);
    }
    var pool := new ObjectPool(policy, supply, initialSize);
    return Success(pool);
  }
}
