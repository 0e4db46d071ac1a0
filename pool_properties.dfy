/**
 * What the pool promises, proved about the step functions of PoolSpec: the
 * size bound, which entry get and giveBack touch, which entries the sweeps
 * evict, that every object leaving the pool goes to cleanup, and the
 * behaviour the pool's users rely on.
 */
module PoolProperties {
  import opened Wrappers
  import opened PoolObjects
  import opened PoolMethods
  import opened PoolSpec

  // ---------------------------------------------------------------- helpers

  /** No object occurs twice in the list. */
  predicate Distinct<T(==)>(s: seq<T>) {
    forall i, j :: 0 <= i < j < |s| ==> s[i] != s[j]
  }

  lemma FirstFreeIs<T>(es: seq<PoolObject<T>>, i: nat)
    requires i < |es| && !es[i].locked && forall j :: 0 <= j < i ==> es[j].locked
    ensures FirstFree(es) == Some(i)
  {
  }

  lemma IndexOfIs<T>(es: seq<PoolObject<T>>, x: T, i: nat)
    requires i < |es| && es[i].obj == x && forall j :: 0 <= j < i ==> es[j].obj != x
    ensures IndexOf(es, x) == Some(i)
  {
    assert Objs(es)[i] == x;
  }

  /** A list whose entries are all idle has as many idle entries as entries. */
  lemma {:induction false} AllIdleCount<T>(es: seq<PoolObject<T>>)
    requires forall j :: 0 <= j < |es| ==> !es[j].locked
    ensures UnlockedCount(es) == |es|
  {
    if es != [] {
      var init := es[..|es| - 1];
      assert forall j :: 0 <= j < |init| ==> init[j] == es[j];
      AllIdleCount(init);
    }
  }

  lemma ObjsRemoveAt<T>(es: seq<PoolObject<T>>, i: nat)
    requires i < |es|
    ensures Objs(RemoveAt(es, i)) == Objs(es)[..i] + Objs(es)[i + 1..]
  {
    var l, r := Objs(RemoveAt(es, i)), Objs(es)[..i] + Objs(es)[i + 1..];
    assert |l| == |r|;
    forall j | 0 <= j < |l| ensures l[j] == r[j] {
      if j < i {
        assert r[j] == Objs(es)[j];
      } else {
        assert r[j] == Objs(es)[j + 1];
      }
    }
  }

  lemma ObjsUpdate<T>(es: seq<PoolObject<T>>, i: nat, e: PoolObject<T>)
    requires i < |es| && e.obj == es[i].obj
    ensures Objs(es[i := e]) == Objs(es)
  {
    var l, r := Objs(es[i := e]), Objs(es);
    assert |l| == |r|;
    forall j | 0 <= j < |l| ensures l[j] == r[j] {
    }
  }

  lemma ObjsSnoc<T>(es: seq<PoolObject<T>>, e: PoolObject<T>)
    ensures Objs(es + [e]) == Objs(es) + [e.obj]
  {
    var l, r := Objs(es + [e]), Objs(es) + [e.obj];
    assert |l| == |r|;
    forall j | 0 <= j < |l| ensures l[j] == r[j] {
      if j < |es| {
        assert (es + [e])[j] == es[j];
      }
    }
  }

  lemma MultisetRemoveAt<T>(s: seq<T>, i: nat)
    requires i < |s|
    ensures multiset(s[..i] + s[i + 1..]) + multiset{s[i]} == multiset(s)
  {
    assert s == s[..i] + [s[i]] + s[i + 1..];
  }

  lemma DistinctRemoveAt<T>(s: seq<T>, i: nat)
    requires i < |s| && Distinct(s)
    ensures Distinct(s[..i] + s[i + 1..]) && s[i] !in s[..i] + s[i + 1..]
  {
    var r := s[..i] + s[i + 1..];
    forall a, b | 0 <= a < b < |r| ensures r[a] != r[b] {
      var a', b' := if a < i then a else a + 1, if b < i then b else b + 1;
      assert r[a] == s[a'] && r[b] == s[b'];
    }
    forall j | 0 <= j < |r| ensures r[j] != s[i] {
      assert r[j] == s[if j < i then j else j + 1];
    }
  }

  // ------------------------------------------------------ construction checks

  /** The policy of the database-session pool: unlimited TTL, no check interval, validation on give-back only. */
  function EntityManagerPolicy(maxSize: int): Policy {
    Policy(maxSize, TTL_UNLIMITED, 0, false, true)
  }

  /**
   * With an unlimited TTL neither the check interval nor the TTL is checked, so
   * the session pool's policy is accepted exactly when its size bound is positive.
   */
  lemma EntityManagerPolicyAccepted(maxSize: int, initialSize: int)
    ensures CheckConstruction(EntityManagerPolicy(maxSize), initialSize).Pass? <==>
      maxSize >= 1 && 0 <= initialSize <= maxSize
    ensures CheckConstruction(EntityManagerPolicy(5), 1).Pass?
  {
  }

  /** maxSize 0 is rejected, and so is a finite TTL of 5000 ms whatever the interval. */
  lemma RejectedConfigurations(p: Policy, initialSize: int)
    ensures p.maxSize < 1 ==> CheckConstruction(p, initialSize) == Fail(MaxSizeTooSmall)
    ensures p.maxSize >= 1 && p.ttl == 5000 ==> CheckConstruction(p, initialSize).Fail?
  {
  }

  // ------------------------------------------------------------------ prewarm

  /** initialInit leaves exactly initialSize entries and every one of them is idle. */
  lemma PrewarmedAllIdle<T>(supply: nat -> T, n: nat)
    ensures |Prewarmed(supply, n)| == n
    ensures UnlockedCount(Prewarmed(supply, n)) == n
  {
    AllIdleCount(Prewarmed(supply, n));
  }

  /**
   * Pre-warmed entries are never stamped, so the first reaper pass after time
   * TTL evicts all of them and hands every one to cleanup.
   */
  lemma PrewarmedAllReaped<T>(supply: nat -> T, n: nat, now: int, ttl: int)
    requires now > ttl
    ensures Survivors(Prewarmed(supply, n), Reap(now, ttl)) == []
    ensures Evicted(Prewarmed(supply, n), Reap(now, ttl)) == Prewarmed(supply, n)
  {
    var es := Prewarmed(supply, n);
    assert forall j :: 0 <= j < |es| ==> Evictable(es[j], Reap(now, ttl));
    SieveUniform(es, Reap(now, ttl), true);
  }

  // ---------------------------------------------------------------------- get

  /** get with an idle entry: the first idle entry in list order is locked and its object returned, nothing else changes. */
  lemma GetTakesFirstIdle<T>(p: Policy, es: seq<PoolObject<T>>, newObj: T, valid: bool, i: nat)
    requires i < |es| && !es[i].locked && forall j :: 0 <= j < i ==> es[j].locked
    requires !p.validateOnGet || valid
    ensures var a := GetStep(p, es, newObj, valid);
      && a.outcome == Got(es[i].obj)
      && |a.step.entries| == |es|
      && a.step.entries[i] == es[i].(locked := true)
      && (forall j :: 0 <= j < |es| && j != i ==> a.step.entries[j] == es[j])
      && a.step.cleaned == []
    ensures !CreatesNew(p, es)
  {
    FirstFreeIs(es, i);
  }

  /** get with no idle entry and room left: one new locked entry is appended and its object returned. */
  lemma GetCreatesWhenRoom<T>(p: Policy, es: seq<PoolObject<T>>, newObj: T, valid: bool)
    requires forall j :: 0 <= j < |es| ==> es[j].locked
    requires |es| < p.maxSize
    requires !p.validateOnGet || valid
    ensures var a := GetStep(p, es, newObj, valid);
      && a.outcome == Got(newObj)
      && a.step.entries == es + [NewPoolObject(newObj, true)]
      && |a.step.entries| == |es| + 1
      && a.step.cleaned == []
    ensures CreatesNew(p, es)
  {
  }

  /** get at capacity with no idle entry: nothing changes and the call must be retried. */
  lemma GetRetriesWhenFull<T>(p: Policy, es: seq<PoolObject<T>>, newObj: T, valid: bool)
    requires forall j :: 0 <= j < |es| ==> es[j].locked
    requires |es| >= p.maxSize
    ensures GetStep(p, es, newObj, valid) == Acquire(RetryFull, Step(es, []))
    ensures !CreatesNew(p, es)
  {
  }

  /**
   * get with validateOnGet and a failed validation: the selected entry (the
   * first idle one, else the new one) is removed and its object cleaned up.
   */
  lemma GetEvictsInvalid<T>(p: Policy, es: seq<PoolObject<T>>, newObj: T)
    requires p.validateOnGet
    requires FirstFree(es).Some? || |es| < p.maxSize
    ensures var a := GetStep(p, es, newObj, false);
      && a.outcome.RetryInvalid?
      && a.step.cleaned == [a.outcome.evicted]
      && match FirstFree(es)
         case Some(i) => a.outcome.evicted == es[i].obj && a.step.entries == RemoveAt(es, i)
         case None => a.outcome.evicted == newObj && a.step.entries == es
  {
    if FirstFree(es).None? {
      var taken := es + [NewPoolObject(newObj, true)];
      assert RemoveAt(taken, |es|) == es by {
        assert taken[..|es|] == es;
      }
    } else {
      var i := FirstFree(es).value;
      var taken := es[i := SetLocked(es[i], true)];
      assert RemoveAt(taken, i) == RemoveAt(es, i);
    }
  }

  /** get preserves the size bound, and changes the size by at most one. */
  lemma GetKeepsBound<T>(p: Policy, es: seq<PoolObject<T>>, newObj: T, valid: bool)
    requires |es| <= p.maxSize
    ensures var a := GetStep(p, es, newObj, valid);
      && |a.step.entries| <= p.maxSize
      && |es| - 1 <= |a.step.entries| <= |es| + 1
  {
  }

  /**
   * get never hands out a checked-out entry: the object returned comes from an
   * entry that was idle, or is the newly created one, and its entry is locked now.
   */
  lemma GetHandsOutIdleOrNew<T>(p: Policy, es: seq<PoolObject<T>>, newObj: T, valid: bool)
    ensures var a := GetStep(p, es, newObj, valid);
      a.outcome.Got? ==>
        && ((exists i :: 0 <= i < |es| && !es[i].locked && es[i].obj == a.outcome.obj)
            || (CreatesNew(p, es) && a.outcome.obj == newObj))
        && (exists j :: 0 <= j < |a.step.entries| && a.step.entries[j].locked && a.step.entries[j].obj == a.outcome.obj)
  {
    var a := GetStep(p, es, newObj, valid);
    if a.outcome.Got? {
      match FirstFree(es)
      case Some(i) =>
        assert a.step.entries[i].locked && a.step.entries[i].obj == es[i].obj;
      case None =>
        assert a.step.entries[|es|] == NewPoolObject(newObj, true);
    }
  }

  /** validate is consulted on get only with validateOnGet. */
  lemma GetValidatesOnlyWhenAsked<T>(p: Policy, es: seq<PoolObject<T>>, newObj: T)
    ensures !p.validateOnGet ==> GetStep(p, es, newObj, true) == GetStep(p, es, newObj, false)
    ensures p.validateOnGet && (FirstFree(es).Some? || |es| < p.maxSize) ==>
      GetStep(p, es, newObj, true).outcome.Got? && GetStep(p, es, newObj, false).outcome.RetryInvalid?
  {
  }

  // ----------------------------------------------------------------- giveBack

  /** giveBack of an object that is not in the pool changes nothing. */
  lemma GiveBackAbsent<T>(p: Policy, es: seq<PoolObject<T>>, x: T, valid: bool, now: int)
    requires x !in Objs(es)
    ensures GiveBackStep(p, es, x, valid, now) == Step(es, [])
  {
  }

  /** giveBack with a failed validation removes the first entry holding x and cleans x up. */
  lemma GiveBackEvictsInvalid<T>(p: Policy, es: seq<PoolObject<T>>, x: T, now: int, i: nat)
    requires i < |es| && es[i].obj == x && forall j :: 0 <= j < i ==> es[j].obj != x
    requires p.validateOnGiveBack
    ensures var st := GiveBackStep(p, es, x, false, now);
      && st.entries == es[..i] + es[i + 1..]
      && |st.entries| == |es| - 1
      && st.cleaned == [x]
  {
    IndexOfIs(es, x, i);
  }

  /** giveBack otherwise unlocks the first entry holding x and stamps it with now, even if it was idle already. */
  lemma GiveBackReleases<T>(p: Policy, es: seq<PoolObject<T>>, x: T, valid: bool, now: int, i: nat)
    requires i < |es| && es[i].obj == x && forall j :: 0 <= j < i ==> es[j].obj != x
    requires !p.validateOnGiveBack || valid
    ensures var st := GiveBackStep(p, es, x, valid, now);
      && |st.entries| == |es|
      && st.entries[i] == PoolObject(x, false, now)
      && (forall j :: 0 <= j < |es| && j != i ==> st.entries[j] == es[j])
      && st.cleaned == []
  {
    IndexOfIs(es, x, i);
  }

  /**
   * Giving the same object back twice is the same as giving it back once at
   * the later time: the second call re-stamps the entry (or, on a failed
   * validation, removes it) and does not corrupt the pool.
   */
  lemma GiveBackTwice<T>(p: Policy, es: seq<PoolObject<T>>, x: T, v1: bool, t1: int, v2: bool, t2: int)
    requires !p.validateOnGiveBack || v1
    ensures GiveBackStep(p, GiveBackStep(p, es, x, v1, t1).entries, x, v2, t2) == GiveBackStep(p, es, x, v2, t2)
  {
    match IndexOf(es, x)
    case None =>
    case Some(i) =>
      var es1 := es[i := SetTimeGaveBack(SetLocked(es[i], false), t1)];
      assert GiveBackStep(p, es, x, v1, t1).entries == es1;
      IndexOfIs(es1, x, i);
      assert RemoveAt(es1, i) == RemoveAt(es, i);
      assert es1[i := SetTimeGaveBack(SetLocked(es1[i], false), t2)] == es[i := SetTimeGaveBack(SetLocked(es[i], false), t2)];
  }

  /** validate is consulted on giveBack only with validateOnGiveBack. */
  lemma GiveBackValidatesOnlyWhenAsked<T>(p: Policy, es: seq<PoolObject<T>>, x: T, now: int)
    ensures !p.validateOnGiveBack ==> GiveBackStep(p, es, x, true, now) == GiveBackStep(p, es, x, false, now)
    ensures p.validateOnGiveBack && x in Objs(es) ==>
      |GiveBackStep(p, es, x, false, now).entries| == |es| - 1 && |GiveBackStep(p, es, x, true, now).entries| == |es|
  {
    if p.validateOnGiveBack && x in Objs(es) {
      var i := IndexOf(es, x).value;
      assert |RemoveAt(es, i)| == |es| - 1;
    }
  }

  /** giveBack never grows the pool. */
  lemma GiveBackKeepsBound<T>(p: Policy, es: seq<PoolObject<T>>, x: T, valid: bool, now: int)
    requires |es| <= p.maxSize
    ensures |GiveBackStep(p, es, x, valid, now).entries| <= |es| <= p.maxSize
  {
  }

  // ------------------------------------------------------------------- sweeps

  /** A sweep keeps e exactly when e is in the list and not evictable, and evicts it exactly when it is evictable. */
  lemma {:induction false} SieveMembers<T>(es: seq<PoolObject<T>>, s: Sweep, evicted: bool, e: PoolObject<T>)
    ensures e in Sieve(es, s, evicted) <==> e in es && Evictable(e, s) == evicted
  {
    if es != [] {
      var init, last := es[..|es| - 1], es[|es| - 1];
      assert es == init + [last];
      SieveMembers(init, s, evicted, e);
    }
  }

  /** Survivors and evicted entries together are the old list: nothing is lost, nothing is duplicated. */
  lemma {:induction false} SievePartition<T>(es: seq<PoolObject<T>>, s: Sweep)
    ensures multiset(Survivors(es, s)) + multiset(Evicted(es, s)) == multiset(es)
  {
    if es != [] {
      var init, last := es[..|es| - 1], es[|es| - 1];
      assert es == init + [last];
      SievePartition(init, s);
    }
  }

  /** Sweeping a concatenation sweeps each part: survivors keep their relative order. */
  lemma {:induction false} SieveAppend<T>(a: seq<PoolObject<T>>, b: seq<PoolObject<T>>, s: Sweep, evicted: bool)
    ensures Sieve(a + b, s, evicted) == Sieve(a, s, evicted) + Sieve(b, s, evicted)
  {
    if b == [] {
      assert a + b == a;
    } else {
      var init, last := b[..|b| - 1], b[|b| - 1];
      assert (a + b)[..|a + b| - 1] == a + init;
      assert (a + b)[|a + b| - 1] == last;
      SieveAppend(a, init, s, evicted);
    }
  }

  /** When every entry is on the same side of the sweep, that side is the whole list and the other is empty. */
  lemma {:induction false} SieveUniform<T>(es: seq<PoolObject<T>>, s: Sweep, evicted: bool)
    requires forall j :: 0 <= j < |es| ==> Evictable(es[j], s) == evicted
    ensures Sieve(es, s, evicted) == es
    ensures Sieve(es, s, !evicted) == []
  {
    if es != [] {
      var init := es[..|es| - 1];
      assert es == init + [es[|es| - 1]];
      SieveUniform(init, s, evicted);
    }
  }

  /** flushPool evicts exactly the idle entries: afterwards no entry is idle and all locked ones are left. */
  lemma {:induction false} FlushEvictsAllIdle<T>(es: seq<PoolObject<T>>)
    ensures UnlockedCount(Survivors(es, Flush)) == 0
    ensures |Survivors(es, Flush)| == |es| - UnlockedCount(es)
    ensures |Evicted(es, Flush)| == UnlockedCount(es)
  {
    if es != [] {
      var init := es[..|es| - 1];
      FlushEvictsAllIdle(init);
    }
  }

  /** Every sweep leaves the locked entries in place and in their original relative order. */
  lemma {:induction false} SweepKeepsLockedInOrder<T>(es: seq<PoolObject<T>>, s: Sweep)
    ensures Survivors(Survivors(es, s), Flush) == Survivors(es, Flush)
  {
    if es != [] {
      var init, last := es[..|es| - 1], es[|es| - 1];
      SweepKeepsLockedInOrder(init, s);
      var kept := Survivors(init, s);
      assert Survivors(es, Flush) == Survivors(init, Flush) + (if Evictable(last, Flush) then [] else [last]);
      if Evictable(last, s) {
        assert Survivors(es, s) == kept;
        assert Evictable(last, Flush);
      } else {
        assert Survivors(es, s) == kept + [last];
        assert (kept + [last])[..|kept|] == kept;
        assert Survivors(kept + [last], Flush) == Survivors(kept, Flush) + (if Evictable(last, Flush) then [] else [last]);
      }
    }
  }

  /** One reaper pass evicts an entry exactly when it is idle and its idle time exceeds the TTL. */
  lemma ReapEvictsExactlyExpired<T>(es: seq<PoolObject<T>>, now: int, ttl: int, e: PoolObject<T>)
    requires e in es
    ensures e in Evicted(es, Reap(now, ttl)) <==> !e.locked && now - e.timeGaveBack > ttl
    ensures e in Survivors(es, Reap(now, ttl)) <==> e.locked || now - e.timeGaveBack <= ttl
  {
    SieveMembers(es, Reap(now, ttl), true, e);
    SieveMembers(es, Reap(now, ttl), false, e);
  }

  /** A sweep never grows the pool, and idle entries never outnumber entries. */
  lemma SweepKeepsBound<T>(es: seq<PoolObject<T>>, s: Sweep, maxSize: int)
    requires |es| <= maxSize
    ensures |SweepStep(es, s).entries| <= maxSize
    ensures |SweepStep(es, s).entries| + |SweepStep(es, s).cleaned| == |es|
  {
    SievePartition(es, s);
    assert |multiset(Survivors(es, s))| + |multiset(Evicted(es, s))| == |multiset(es)|;
  }

  // -------------------------------------------------------- cleanup accounting

  /** Every object get removes from the pool is passed to cleanup; the only object added is the new one. */
  lemma GetConservesObjects<T>(p: Policy, es: seq<PoolObject<T>>, newObj: T, valid: bool)
    ensures var a := GetStep(p, es, newObj, valid);
      multiset(Objs(es)) + (if CreatesNew(p, es) then multiset{newObj} else multiset{})
        == multiset(Objs(a.step.entries)) + multiset(a.step.cleaned)
  {
    var sel := FirstFree(es);
    if sel.None? && |es| >= p.maxSize {
    } else if sel.Some? {
      var i := sel.value;
      var taken := es[i := SetLocked(es[i], true)];
      ObjsUpdate(es, i, SetLocked(es[i], true));
      if p.validateOnGet && !valid {
        assert GetStep(p, es, newObj, valid).step == Step(RemoveAt(taken, i), [taken[i].obj]);
        ObjsRemoveAt(taken, i);
        MultisetRemoveAt(Objs(taken), i);
      } else {
        assert GetStep(p, es, newObj, valid).step == Step(taken, []);
      }
    } else {
      var taken := es + [NewPoolObject(newObj, true)];
      ObjsSnoc(es, NewPoolObject(newObj, true));
      if p.validateOnGet && !valid {
        assert RemoveAt(taken, |es|) == es by {
          assert taken[..|es|] == es;
        }
        assert GetStep(p, es, newObj, valid).step == Step(es, [newObj]);
      } else {
        assert GetStep(p, es, newObj, valid).step == Step(taken, []);
      }
    }
  }

  /** Every object giveBack removes from the pool is passed to cleanup, and nothing is added. */
  lemma GiveBackConservesObjects<T>(p: Policy, es: seq<PoolObject<T>>, x: T, valid: bool, now: int)
    ensures var st := GiveBackStep(p, es, x, valid, now);
      multiset(Objs(es)) == multiset(Objs(st.entries)) + multiset(st.cleaned)
  {
    match IndexOf(es, x)
    case None =>
    case Some(i) =>
      if p.validateOnGiveBack && !valid {
        ObjsRemoveAt(es, i);
        MultisetRemoveAt(Objs(es), i);
      } else {
        ObjsUpdate(es, i, SetTimeGaveBack(SetLocked(es[i], false), now));
      }
  }

  /** Every object a sweep removes from the pool is passed to cleanup, and nothing is added. */
  lemma {:induction false} SweepConservesObjects<T>(es: seq<PoolObject<T>>, s: Sweep)
    ensures multiset(Objs(es)) == multiset(Objs(SweepStep(es, s).entries)) + multiset(SweepStep(es, s).cleaned)
  {
    if es != [] {
      var init, last := es[..|es| - 1], es[|es| - 1];
      assert es == init + [last];
      SweepConservesObjects(init, s);
      ObjsSnoc(init, last);
      var kept, gone := Survivors(init, s), Evicted(init, s);
      if Evictable(last, s) {
        assert Survivors(es, s) == kept;
        assert Evicted(es, s) == gone + [last];
        ObjsSnoc(gone, last);
      } else {
        assert Survivors(es, s) == kept + [last];
        assert Evicted(es, s) == gone;
        ObjsSnoc(kept, last);
      }
    }
  }

  // ------------------------------------------------------- distinct objects

  /**
   * As long as getNewObj returns an object not already pooled, the pool never
   * holds one object twice, so giveBack's equality search finds the entry of
   * the object it was handed.
   */
  lemma GetKeepsDistinct<T>(p: Policy, es: seq<PoolObject<T>>, newObj: T, valid: bool)
    requires Distinct(Objs(es)) && newObj !in Objs(es)
    ensures Distinct(Objs(GetStep(p, es, newObj, valid).step.entries))
  {
    GetConservesObjects(p, es, newObj, valid);
    var a := GetStep(p, es, newObj, valid);
    var sel := FirstFree(es);
    if sel.None? && |es| >= p.maxSize {
    } else if sel.Some? {
      var i := sel.value;
      var taken := es[i := SetLocked(es[i], true)];
      ObjsUpdate(es, i, SetLocked(es[i], true));
      if p.validateOnGet && !valid {
        ObjsRemoveAt(taken, i);
        DistinctRemoveAt(Objs(taken), i);
      }
    } else {
      var taken := es + [NewPoolObject(newObj, true)];
      ObjsSnoc(es, NewPoolObject(newObj, true));
      if p.validateOnGet && !valid {
        assert RemoveAt(taken, |es|) == es by {
          assert taken[..|es|] == es;
        }
      }
    }
  }

  /** giveBack keeps the objects distinct; on a failed validation, x has left the pool. */
  lemma GiveBackKeepsDistinct<T>(p: Policy, es: seq<PoolObject<T>>, x: T, valid: bool, now: int)
    requires Distinct(Objs(es))
    ensures Distinct(Objs(GiveBackStep(p, es, x, valid, now).entries))
    ensures p.validateOnGiveBack && !valid ==> x !in Objs(GiveBackStep(p, es, x, valid, now).entries)
  {
    match IndexOf(es, x)
    case None =>
    case Some(i) =>
      if p.validateOnGiveBack && !valid {
        ObjsRemoveAt(es, i);
        DistinctRemoveAt(Objs(es), i);
      } else {
        ObjsUpdate(es, i, SetTimeGaveBack(SetLocked(es[i], false), now));
      }
  }

  // ---------------------------------------------------------------- scenarios

  /**
   * An object that failed validation on giveBack is never handed out again by
   * the next get: that get reuses another idle entry or creates a new object.
   */
  lemma InvalidGiveBackThenGet<T>(p: Policy, es: seq<PoolObject<T>>, x: T, now: int, newObj: T, valid: bool)
    requires Distinct(Objs(es)) && newObj !in Objs(es)
    requires p.validateOnGiveBack
    requires newObj != x
    ensures var es1 := GiveBackStep(p, es, x, false, now).entries;
      GetStep(p, es1, newObj, valid).outcome != Got(x)
  {
    var es1 := GiveBackStep(p, es, x, false, now).entries;
    GiveBackKeepsDistinct(p, es, x, false, now);
  }

  /** After flushPool no entry is idle, so the next get creates a new object, or retries if the pool is full. */
  lemma FlushThenGetCreates<T>(p: Policy, es: seq<PoolObject<T>>, newObj: T, valid: bool)
    ensures var es1 := Survivors(es, Flush);
      var a := GetStep(p, es1, newObj, valid);
      && (a.outcome.RetryFull? <==> |es1| >= p.maxSize)
      && (!a.outcome.RetryFull? ==> a.outcome == Got(newObj) || a.outcome == RetryInvalid(newObj))
  {
    FlushEvictsAllIdle(es);
  }

  /** A pool of two with no pre-warm: two gets create two objects, a third must retry. */
  lemma TwoGetsThenFull<T>(p: Policy, o1: T, o2: T, o3: T)
    requires p.maxSize == 2 && !p.validateOnGet
    ensures var a1 := GetStep(p, [], o1, true);
      var a2 := GetStep(p, a1.step.entries, o2, true);
      var a3 := GetStep(p, a2.step.entries, o3, true);
      && a1.outcome == Got(o1) && a2.outcome == Got(o2) && a3.outcome == RetryFull
      && a3.step.entries == [NewPoolObject(o1, true), NewPoolObject(o2, true)]
  {
  }

  /** A reaper pass with TTL 10 s evicts an entry idle for longer and keeps one given back 1 ms ago. */
  lemma ReapScenario<T>(old1: T, recent: T, now: int)
    ensures var es := [PoolObject(old1, false, now - 10001), PoolObject(recent, false, now - 1)];
      SweepStep(es, Reap(now, 10000)) == Step([PoolObject(recent, false, now - 1)], [old1])
  {
    var es := [PoolObject(old1, false, now - 10001), PoolObject(recent, false, now - 1)];
    var s := Reap(now, 10000);
    assert es[..1] == [es[0]] && [es[0]][..0] == [];
    assert Survivors([es[0]], s) == [] && Evicted([es[0]], s) == [es[0]];
    assert Survivors(es, s) == [es[1]] && Evicted(es, s) == [es[0]];
  }
}
