/**
 * The pool's operations as functions of its entry list: what one call of get,
 * giveBack, flushPool or one reaper pass does to the list, and which objects it
 * hands to cleanup. The class in object_pool.dfy is proved to follow them.
 */
module PoolSpec {
  import opened Wrappers
  import opened PoolObjects
  import opened PoolMethods

  /** The objects held by a list of entries, in list order. */
  function Objs<T>(es: seq<PoolObject<T>>): (os: seq<T>)
    ensures |os| == |es|
    ensures forall i :: 0 <= i < |es| ==> os[i] == es[i].obj
  {
    if es == [] then [] else [es[0].obj] + Objs(es[1..])
  }

  /** The list without its entry at position i. */
  function RemoveAt<T>(es: seq<PoolObject<T>>, i: nat): (r: seq<PoolObject<T>>)
    requires i < |es|
    ensures |r| == |es| - 1
    ensures forall j :: 0 <= j < i ==> r[j] == es[j]
    ensures forall j :: i <= j < |r| ==> r[j] == es[j + 1]
  {
    es[..i] + es[i + 1..]
  }

  /** getFreePoolObject's search: the position of the first entry that is not locked. */
  function FirstFree<T>(es: seq<PoolObject<T>>): (r: Option<nat>)
    ensures r.Some? ==> r.value < |es| && !es[r.value].locked
    ensures r.Some? ==> forall j :: 0 <= j < r.value ==> es[j].locked
    ensures r.None? <==> forall j :: 0 <= j < |es| ==> es[j].locked
  {
    if es == [] then None
    else if !es[0].locked then Some(0)
    else match FirstFree(es[1..])
      case None => None
      case Some(k) => Some(k + 1)
  }

  /** giveBack's search: the position of the first entry whose object equals x. */
  function IndexOf<T(==)>(es: seq<PoolObject<T>>, x: T): (r: Option<nat>)
    ensures r.Some? ==> r.value < |es| && es[r.value].obj == x
    ensures r.Some? ==> forall j :: 0 <= j < r.value ==> es[j].obj != x
    ensures r.None? <==> x !in Objs(es)
  {
    if es == [] then None
    else if es[0].obj == x then Some(0)
    else match IndexOf(es[1..], x)
      case None => None
      case Some(k) => Some(k + 1)
  }

  /** getUnlockedCount: the number of entries that are not locked. */
  function UnlockedCount<T>(es: seq<PoolObject<T>>): (n: nat)
    ensures n <= |es|
    ensures n == 0 <==> forall j :: 0 <= j < |es| ==> es[j].locked
  {
    if es == [] then 0
    else UnlockedCount(es[..|es| - 1]) + (if es[|es| - 1].locked then 0 else 1)
  }

  /** What one call changes: the new entry list, and the objects passed to cleanup, in order. */
  datatype Step<T> = Step(entries: seq<PoolObject<T>>, cleaned: seq<T>)

  /**
   * The outcome of one attempt of get: an object, or a retry because the pool
   * is full, or a retry because the selected object failed validation and was
   * evicted.
   */
  datatype GetOutcome<T> = Got(obj: T) | RetryFull | RetryInvalid(evicted: T)

  datatype Acquire<T> = Acquire(outcome: GetOutcome<T>, step: Step<T>)

  /** The entries that initialInit creates: initialSize fresh objects, none locked. */
  function Prewarmed<T>(supply: nat -> T, initialSize: nat): (es: seq<PoolObject<T>>)
    ensures |es| == initialSize
    ensures forall k :: 0 <= k < initialSize ==> es[k] == NewPoolObject(supply(k), false)
  {
    if initialSize == 0 then []
    else Prewarmed(supply, initialSize - 1) + [NewPoolObject(supply(initialSize - 1), false)]
  }

  /** Whether one attempt of get calls getNewObj: nothing is free and there is still room. */
  predicate CreatesNew<T>(p: Policy, es: seq<PoolObject<T>>) {
    FirstFree(es).None? && |es| < p.maxSize
  }

  /**
   * One attempt of get. `newObj` is what getNewObj would return; `valid` is what
   * validate says of the selected object (consulted only with validateOnGet).
   */
  function GetStep<T>(p: Policy, es: seq<PoolObject<T>>, newObj: T, valid: bool): (r: Acquire<T>)
    ensures r.outcome.RetryFull? <==> FirstFree(es).None? && |es| >= p.maxSize
    ensures r.outcome.RetryFull? ==> r.step == Step(es, [])
    ensures r.outcome.Got? ==> r.step.cleaned == [] && |es| <= |r.step.entries| <= |es| + 1
    ensures r.outcome.RetryInvalid? ==> r.step.cleaned == [r.outcome.evicted] && |r.step.entries| <= |es|
    ensures |es| <= p.maxSize ==> |r.step.entries| <= p.maxSize
  {
    var sel := FirstFree(es);
    if sel.None? && |es| >= p.maxSize then
      Acquire(RetryFull, Step(es, []))
    else
      var i := if sel.Some? then sel.value else |es|;
      var taken := if sel.Some? then es[i := SetLocked(es[i], true)] else es + [NewPoolObject(newObj, true)];
      var o := taken[i].obj;
      if p.validateOnGet && !valid then
        Acquire(RetryInvalid(o), Step(RemoveAt(taken, i), [o]))
      else
        Acquire(Got(o), Step(taken, []))
  }

  /** giveBack(x) at time `now`; `valid` is what validate says of x (consulted only with validateOnGiveBack). */
  function GiveBackStep<T(==)>(p: Policy, es: seq<PoolObject<T>>, x: T, valid: bool, now: int): (r: Step<T>)
    ensures x !in Objs(es) ==> r == Step(es, [])
    ensures r.cleaned == [x] <==> x in Objs(es) && p.validateOnGiveBack && !valid
    ensures r.cleaned == [] || r.cleaned == [x]
    ensures |r.entries| + |r.cleaned| == |es|
  {
    match IndexOf(es, x)
    case None => Step(es, [])
    case Some(i) =>
      if p.validateOnGiveBack && !valid then Step(RemoveAt(es, i), [x])
      else Step(es[i := SetTimeGaveBack(SetLocked(es[i], false), now)], [])
  }

  /** The two sweeps over the list: flushPool, and one pass of the reaper at time `now`. */
  datatype Sweep = Flush | Reap(now: int, ttl: int)

  /** Whether a sweep evicts an entry: it must be idle, and for the reaper also timed out. */
  predicate Evictable<T>(e: PoolObject<T>, s: Sweep): (r: bool)
    ensures r ==> !e.locked
    ensures s.Flush? ==> (r <==> !e.locked)
    ensures s.Reap? && !e.locked ==> (r <==> e.timeGaveBack < s.now - s.ttl)
  {
    !e.locked && (s.Reap? ==> s.now - e.timeGaveBack > s.ttl)
  }

  /** The entries for which Evictable(_, s) == evicted, in their original order. */
  function Sieve<T>(es: seq<PoolObject<T>>, s: Sweep, evicted: bool): (r: seq<PoolObject<T>>)
    ensures |r| <= |es|
    ensures forall j :: 0 <= j < |r| ==> Evictable(r[j], s) == evicted
  {
    if es == [] then []
    else
      var last := es[|es| - 1];
      Sieve(es[..|es| - 1], s, evicted) + (if Evictable(last, s) == evicted then [last] else [])
  }

  function Survivors<T>(es: seq<PoolObject<T>>, s: Sweep): seq<PoolObject<T>> {
    Sieve(es, s, false)
  }

  function Evicted<T>(es: seq<PoolObject<T>>, s: Sweep): seq<PoolObject<T>> {
    Sieve(es, s, true)
  }

  /** A whole sweep: the survivors stay, the evicted entries' objects go to cleanup in list order. */
  function SweepStep<T>(es: seq<PoolObject<T>>, s: Sweep): (r: Step<T>)
    ensures |r.entries| <= |es| && |r.cleaned| <= |es|
    ensures forall j :: 0 <= j < |r.entries| ==> !Evictable(r.entries[j], s)
  {
    Step(Survivors(es, s), Objs(Evicted(es, s)))
  }
}
