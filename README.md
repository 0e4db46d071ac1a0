# ObjectPool — a verified model of the MoSy backend's generic object pool

The MoSy standalone backend pools its database sessions in a small generic
object pool, `ObjectPool<T>`. The pool keeps an ordered list of entries
(`PoolObject`). Each entry holds a pooled object, a `locked` flag (checked out,
or claimed for eviction) and the time it was last given back. The pool's owner
supplies a policy (`IPoolMethods`). The policy gives the size bound, the idle
time-to-live (TTL), the reaper's check interval, whether to validate on get and
on give-back, and the hooks that create, validate and clean up objects.

The model covers:

- construction and its configuration errors;
- pre-warming with `initialSize` idle entries;
- one attempt of `get`: take the first idle entry, else create one if there is
  room, else retry; with validate-on-get, evict an object that fails validation
  and retry;
- `giveBack`: find the first equal object, then evict it or unlock and stamp it;
- `getPoolSize` and `getUnlockedCount`;
- `flushPool`;
- one pass of the reaper, `doCheck(now)`.

## Layout

- `wrappers.dfy` (`Wrappers`): `Option`, `Outcome`, `Result`.
- `pool_object.dfy` (`PoolObjects`): the entry record and its constructor and setters.
- `pool_methods.dfy` (`PoolMethods`): the policy as a datatype of constants,
  `TTL_UNLIMITED = -1`, the 10 000 ms floor, and the constructor's checks.
- `pool_spec.dfy` (`PoolSpec`): each operation as a function of the entry list.
  Such a function gives the new list and the objects handed to `cleanup`.
- `object_pool.dfy` (`ObjectPools`): the class `ObjectPool`. Its methods change
  the list in place with the source's loops, and each is proved to follow its step
  function. `NewPool` is the constructor together with its failure cases.
- `pool_properties.dfy` (`PoolProperties`): the properties proved about the step functions.

## How the collaborators are modelled

- The policy constants (`getMaxSize`, `getTTL`, `getCheckInterval`,
  `validateOnGet`, `validateOnGiveBack`) are fields of a `Policy` value fixed at
  construction.
- `validate`: each method that may validate takes a parameter `valid`, the result
  `validate` gives at that moment. The parameter is consulted only when the policy
  asks for validation; `GetValidatesOnlyWhenAsked` and
  `GiveBackValidatesOnlyWhenAsked` prove this.
- `getNewObj`: the pool owns a supply function `supply: nat -> T` and a counter
  `created`. The k-th object created is `supply(k)`.
- `cleanup`: every object passed to it is appended to the ghost sequence `cleaned`.
- The clock: `giveBack` and `doCheck` take `now` as a parameter.
- `PoolObject`: it is a datatype that the pool replaces inside its list. Entries
  never leave the pool, so no caller can observe aliasing between them. Removing
  an entry (`remove(poolObj)`, which matches by identity) becomes removal at the
  entry's position.

## The two packages

`de/joergdev/.../pool/ObjectPool.java` and `com/github/joergdev/.../pool/ObjectPool.java`
hold the same code statement for statement. They differ only in comments (German in
`com`, English in `de`), layout, `@Override` annotations, package names and the
`Utils` import, so the line numbers differ. One class models both. The
`## Model` table below cites whichever file a member is checked against. The
corresponding ranges are:

| operation | de | com |
|---|---|---|
| full constructor | 112-134 | 119-143 |
| checkPoolMethodsImpl | 166-190 | 175-199 |
| initialInit | 192-216 | 201-223 |
| get | 223-267 | 230-274 |
| getFreePoolObject | 269-282 | 276-290 |
| giveBack | 289-313 | 297-322 |
| getPoolSize | 320-323 | 329-332 |
| getUnlockedCount | 330-343 | 339-352 |
| flushPool | 348-381 | 357-391 |
| doCheck | 398-440 | 407-451 |

## Behaviour of the code worth knowing

- `giveBack` of an object that is already idle unlocks it again and re-stamps
  it with the current time. `GiveBackTwice` proves that two
  give-backs equal one at the later time.
- `giveBack` finds the entry with `equals` on the object, and then validates and
  cleans up its argument, not the object held by the entry it removes. The model
  writes `equals` as `==`, so the two are the same object. The lemmas
  `GetKeepsDistinct` and `GiveBackKeepsDistinct` assume that `equals` coincides
  with identity, as it does for a type that does not override `equals`. Under
  that assumption they state when matching is safe: `getNewObj` must never
  return an object already in the pool.
- `initialInit` does not stamp the entries it creates: their `timeGaveBack` is 0. Under a
  finite TTL, the first reaper pass after time TTL evicts all of them
  (`PrewarmedAllReaped`).
- The validation in `get` also applies to a newly created object. If that object
  fails, it is cleaned up and the list is left as it was (`GetEvictsInvalid`).

## Model

| member | source | states |
|---|---|---|
| `PoolObjects.NewPoolObject` | src/main/java/de/joergdev/mosy/backend/standalone/pool/PoolObject.java:25-29 | the new entry holds the given object and flag, and its timestamp is the default 0 |
| `PoolObjects.SetLocked` | src/main/java/de/joergdev/mosy/backend/standalone/pool/PoolObject.java:31-38 | only the flag changes, and reading it back gives the value set |
| `PoolObjects.SetTimeGaveBack` | src/main/java/de/joergdev/mosy/backend/standalone/pool/PoolObject.java:49-56 | only the timestamp changes, and reading it back gives the value set |
| `PoolMethods.CheckPoolMethodsImpl` | src/main/java/de/joergdev/mosy/backend/standalone/pool/ObjectPool.java:166-190 | passes exactly for maxSize >= 1 and, when the TTL is finite, interval and TTL >= 10000; names the first failing check (maxSize, then interval, then TTL); an unlimited TTL skips the two time checks |
| `PoolMethods.CheckInitialSize` | src/main/java/de/joergdev/mosy/backend/standalone/pool/ObjectPool.java:192-208 | rejects a negative initialSize and one above maxSize; passes otherwise |
| `PoolMethods.CheckConstruction` | src/main/java/com/github/joergdev/mosy/backend/standalone/pool/ObjectPool.java:119-133 | construction passes exactly for a valid policy and 0 <= initialSize <= maxSize; a bad policy is reported before a bad initialSize |
| `PoolProperties.RejectedConfigurations` | src/main/java/com/github/joergdev/mosy/backend/standalone/pool/ObjectPool.java:175-199 | maxSize 0 fails with the size error; a finite TTL of 5000 fails whatever the interval |
| `PoolProperties.EntityManagerPolicyAccepted` | src/main/java/de/joergdev/mosy/backend/standalone/persistence/EntityManagerPoolMethodsImpl.java:70-114 | the session pool's policy (unlimited TTL, interval 0, validate on give-back only) is accepted exactly when maxSize >= 1 and 0 <= initialSize <= maxSize, and the session providers' construction with maxSize 5 and initialSize 1 passes |
| `ObjectPools.NewPool` | src/main/java/de/joergdev/mosy/backend/standalone/pool/ObjectPool.java:112-134 | fails with the checks' error exactly when a check fails; otherwise yields a fresh valid pool holding exactly the pre-warmed entries, nothing cleaned |
| `ObjectPools.ObjectPool.constructor` | src/main/java/de/joergdev/mosy/backend/standalone/pool/ObjectPool.java:210-215 | the creation loop leaves the pre-warmed list: initialSize new idle entries holding the first initialSize supplied objects |
| `PoolSpec.Prewarmed` | src/main/java/com/github/joergdev/mosy/backend/standalone/pool/ObjectPool.java:218-222 | exactly initialSize entries, the k-th holding the k-th new object, unlocked, stamped 0 |
| `PoolProperties.PrewarmedAllIdle` | src/main/java/com/github/joergdev/mosy/backend/standalone/pool/ObjectPool.java:201-223 | after pre-warming, the unlocked count equals initialSize |
| `PoolProperties.PrewarmedAllReaped` | src/main/java/de/joergdev/mosy/backend/standalone/pool/PoolObject.java:17-29 | because the constructor never stamps an entry, a reaper pass at a time past the TTL evicts every pre-warmed entry |
| `PoolSpec.FirstFree` | src/main/java/de/joergdev/mosy/backend/standalone/pool/ObjectPool.java:271-279 | finds an unlocked entry with every earlier entry locked; finds none exactly when all entries are locked |
| `ObjectPools.ObjectPool.GetFreePoolObject` | src/main/java/de/joergdev/mosy/backend/standalone/pool/ObjectPool.java:269-282 | the loop returns the first unlocked position and locks that entry only; with none free nothing changes |
| `PoolSpec.GetStep` | src/main/java/de/joergdev/mosy/backend/standalone/pool/ObjectPool.java:223-267 | one attempt of get retries for a full pool exactly when nothing is idle and size >= maxSize, and then changes nothing; a handed-out object cleans nothing and grows the list by at most one; an evicted object is the only one cleaned; size <= maxSize is kept |
| `ObjectPools.ObjectPool.Get` | src/main/java/de/joergdev/mosy/backend/standalone/pool/ObjectPool.java:223-267 | one attempt of get changes the list, the cleanup record and the counter exactly as GetStep says, and keeps size <= maxSize |
| `PoolProperties.GetTakesFirstIdle` | src/main/java/com/github/joergdev/mosy/backend/standalone/pool/ObjectPool.java:276-290 | with an idle entry, the first idle entry in list order is locked and its object returned; no other entry changes, the size is unchanged, nothing is created |
| `PoolProperties.GetCreatesWhenRoom` | src/main/java/de/joergdev/mosy/backend/standalone/pool/ObjectPool.java:232-239 | with no idle entry and size < maxSize, one new locked entry is appended and its object returned; the size grows by one |
| `PoolProperties.GetRetriesWhenFull` | src/main/java/com/github/joergdev/mosy/backend/standalone/pool/ObjectPool.java:247-253 | with no idle entry at size >= maxSize, nothing changes and the call retries |
| `PoolProperties.GetEvictsInvalid` | src/main/java/de/joergdev/mosy/backend/standalone/pool/ObjectPool.java:250-259 | with validate-on-get and a failed validation, the selected entry is removed and its object alone goes to cleanup before the retry |
| `PoolProperties.GetKeepsBound` | src/main/java/de/joergdev/mosy/backend/standalone/pool/IPoolMethods.java:44-49 | get preserves size <= maxSize and moves the size by at most one |
| `PoolProperties.GetHandsOutIdleOrNew` | src/main/java/com/github/joergdev/mosy/backend/standalone/pool/ObjectPool.java:239-268 | a returned object comes from an entry that was idle or is the newly created one, and its entry is locked afterwards |
| `PoolProperties.GetValidatesOnlyWhenAsked` | src/main/java/de/joergdev/mosy/backend/standalone/pool/IPoolMethods.java:60-64 | without validate-on-get the validation result has no effect; with it, validation decides between handing out and evicting |
| `PoolSpec.IndexOf` | src/main/java/de/joergdev/mosy/backend/standalone/pool/ObjectPool.java:291-293 | finds the first entry whose object equals x; finds none exactly when x is not in the pool |
| `PoolSpec.GiveBackStep` | src/main/java/de/joergdev/mosy/backend/standalone/pool/ObjectPool.java:289-313 | an object not in the pool changes nothing; x is cleaned exactly when it is in the pool and fails validate-on-give-back; nothing else is cleaned, and the list shrinks by exactly the number cleaned |
| `ObjectPools.ObjectPool.GiveBack` | src/main/java/de/joergdev/mosy/backend/standalone/pool/ObjectPool.java:289-313 | the search loop leaves the list and cleanup record as GiveBackStep says, and keeps size <= maxSize |
| `PoolProperties.GiveBackAbsent` | src/main/java/com/github/joergdev/mosy/backend/standalone/pool/ObjectPool.java:297-322 | giving back an object that is not in the pool changes nothing and cleans nothing |
| `PoolProperties.GiveBackEvictsInvalid` | src/main/java/de/joergdev/mosy/backend/standalone/pool/ObjectPool.java:296-304 | with validate-on-give-back and a failed validation, the first entry holding x is removed, the size drops by one and x goes to cleanup |
| `PoolProperties.GiveBackReleases` | src/main/java/de/joergdev/mosy/backend/standalone/pool/ObjectPool.java:307-310 | otherwise the first entry holding x becomes unlocked with timeGaveBack = now, whatever its flag was; no other entry changes |
| `PoolProperties.GiveBackTwice` | src/main/java/com/github/joergdev/mosy/backend/standalone/pool/ObjectPool.java:316-319 | when the first give-back does not evict (validate-on-give-back is off or the object passed), a second give-back of the same object equals a single give-back at the later time |
| `PoolProperties.GiveBackValidatesOnlyWhenAsked` | src/main/java/de/joergdev/mosy/backend/standalone/pool/IPoolMethods.java:66-70 | without validate-on-give-back the validation result has no effect; with it, a failed validation shrinks the pool and a passed one does not |
| `PoolProperties.GiveBackKeepsBound` | src/main/java/com/github/joergdev/mosy/backend/standalone/pool/ObjectPool.java:305-313 | give-back never grows the pool, so size <= maxSize is kept |
| `ObjectPools.ObjectPool.GetPoolSize` | src/main/java/de/joergdev/mosy/backend/standalone/pool/ObjectPool.java:320-323 | returns the number of entries, which is at most maxSize |
| `ObjectPools.ObjectPool.GetUnlockedCount` | src/main/java/de/joergdev/mosy/backend/standalone/pool/ObjectPool.java:330-343 | the counting loop returns the number of unlocked entries, between 0 and the pool size |
| `PoolSpec.UnlockedCount` | src/main/java/com/github/joergdev/mosy/backend/standalone/pool/ObjectPool.java:339-352 | the unlocked count is at most the size, and 0 exactly when every entry is locked |
| `PoolSpec.Sieve` | src/main/java/de/joergdev/mosy/backend/standalone/pool/ObjectPool.java:400-429 | a sweep's survivors (or evicted entries) never outnumber the list, and each one is on its side of the eviction test |
| `ObjectPools.ObjectPool.ClaimAndRemove` | src/main/java/de/joergdev/mosy/backend/standalone/pool/ObjectPool.java:361-370 | a claimed entry is removed from the list and its object alone goes to cleanup |
| `ObjectPools.ObjectPool.SweepPool` | src/main/java/com/github/joergdev/mosy/backend/standalone/pool/ObjectPool.java:410-449 | the snapshot loop leaves exactly the survivors in order, and hands the evicted objects to cleanup in list order |
| `PoolSpec.Evictable` | src/main/java/de/joergdev/mosy/backend/standalone/pool/ObjectPool.java:361-361 | only idle entries are evictable; a flush evicts every idle entry and a reaper pass the idle ones whose timestamp is older than now - TTL (lines 404 and 419) |
| `PoolSpec.SweepStep` | src/main/java/de/joergdev/mosy/backend/standalone/pool/ObjectPool.java:348-381 | a sweep (flushPool, or one doCheck pass at lines 398-440) leaves no more entries and cleans no more objects than the list held, and no survivor is evictable |
| `ObjectPools.ObjectPool.FlushPool` | src/main/java/de/joergdev/mosy/backend/standalone/pool/ObjectPool.java:348-381 | flushPool's new list and cleanup record are those of the flush sweep |
| `ObjectPools.ObjectPool.DoCheck` | src/main/java/de/joergdev/mosy/backend/standalone/pool/ObjectPool.java:398-440 | one reaper pass (finite TTL only) leaves the list and cleanup record of the reap sweep at time now |
| `PoolProperties.SieveMembers` | src/main/java/com/github/joergdev/mosy/backend/standalone/pool/ObjectPool.java:407-451 | an entry survives a sweep exactly when it is in the list and not evictable, and is evicted exactly when it is evictable |
| `PoolProperties.SievePartition` | src/main/java/com/github/joergdev/mosy/backend/standalone/pool/ObjectPool.java:357-391 | survivors and evicted entries together are exactly the old list (as a multiset) |
| `PoolProperties.SieveAppend` | src/main/java/com/github/joergdev/mosy/backend/standalone/pool/ObjectPool.java:359-362 | sweeping a concatenation sweeps each part, so survivors keep their relative order |
| `PoolProperties.FlushEvictsAllIdle` | src/main/java/de/joergdev/mosy/backend/standalone/pool/ObjectPool.java:345-381 | after flushPool the unlocked count is 0; the size drops by the old unlocked count, and that many entries are evicted |
| `PoolProperties.SweepKeepsLockedInOrder` | src/main/java/de/joergdev/mosy/backend/standalone/pool/ObjectPool.java:360-371 | no sweep touches a locked entry: the locked subsequence is the same before and after |
| `PoolProperties.ReapEvictsExactlyExpired` | src/main/java/de/joergdev/mosy/backend/standalone/pool/IPoolMethods.java:37-42 | a reaper pass evicts an entry exactly when it is idle and now - timeGaveBack > TTL; locked entries and recent ones survive |
| `PoolProperties.SweepKeepsBound` | src/main/java/com/github/joergdev/mosy/backend/standalone/pool/ObjectPool.java:357-391 | a sweep never grows the pool, so size <= maxSize is kept; survivors plus cleaned objects make up the old size |
| `PoolProperties.GetConservesObjects` | src/main/java/de/joergdev/mosy/backend/standalone/pool/IPoolMethods.java:13-21 | every object get removes is passed to cleanup, and the only object added is the newly created one |
| `PoolProperties.GiveBackConservesObjects` | src/main/java/de/joergdev/mosy/backend/standalone/pool/ObjectPool.java:305-313 | every object give-back removes is passed to cleanup, and nothing is added |
| `PoolProperties.SweepConservesObjects` | src/main/java/de/joergdev/mosy/backend/standalone/pool/ObjectPool.java:365-370 | every object a sweep removes is passed to cleanup, and nothing is added |
| `PoolProperties.GetKeepsDistinct` | src/main/java/de/joergdev/mosy/backend/standalone/pool/IPoolMethods.java:30-35 | if getNewObj returns an object not in the pool, get keeps the pooled objects pairwise distinct |
| `PoolProperties.GiveBackKeepsDistinct` | src/main/java/de/joergdev/mosy/backend/standalone/pool/IPoolMethods.java:51-58 | when the pooled objects are pairwise distinct, give-back keeps them distinct, and an object that fails validation on give-back is no longer in the pool |
| `PoolProperties.InvalidGiveBackThenGet` | src/main/java/com/github/joergdev/mosy/backend/standalone/pool/ObjectPool.java:305-312 | when the pooled objects are pairwise distinct and the newly created object is neither in the pool nor x, an object x evicted on give-back is never handed out by the next get |
| `PoolProperties.FlushThenGetCreates` | src/main/java/com/github/joergdev/mosy/backend/standalone/pool/ObjectPool.java:236-246 | after flushPool, get retries exactly when the pool is full and otherwise uses a newly created object |
| `PoolProperties.TwoGetsThenFull` | src/main/java/de/joergdev/mosy/backend/standalone/pool/ObjectPool.java:232-246 | in an empty pool of two, two gets return two new objects and a third retries |
| `PoolProperties.ReapScenario` | src/main/java/com/github/joergdev/mosy/backend/standalone/pool/ObjectPool.java:413-420 | with a TTL of 10 s, an entry idle for 10 001 ms is evicted and cleaned up, and one given back 1 ms ago survives |

## Left out

- GiveBack: `equals` is modelled as `==`. The model does not capture an argument that is equal to a pooled object without being it. In the source, `cleanup` then receives the argument, the pooled object is dropped without cleanup, and an equal object can unlock an entry that another caller still holds. `GiveBackStep` and `GiveBackConservesObjects` are stated for the `==` case only.
- Threads and locks: `ReentrantLock`, `NullLock` and the lock calls are not modelled, because every operation is modelled as one sequential step. The window in flushPool and doCheck between "claim and unlock" and "remove and clean up" collapses into that step, and so does any interleaving with a concurrent `get` or `giveBack`.
- The reaper thread and its endless `run()` loop with the check-interval delay (ObjectPool.java:126-133, 387-396): only one `doCheck` pass is modelled. `DoCheck` requires a finite TTL, because the thread is started only then.
- The retries of `get`: after the 20 ms delay at capacity, and after a failed validation, `get` calls itself inside its `lock()` ... `finally` block (de ObjectPool.java:243-245, 254-257), so the recursion is not a tail call and is bounded only by the thread's stack; in concurrent mode the retrying call holds the lock throughout. `Get` is one attempt that reports `RetryFull` or `RetryInvalid`; the model does not capture the `StackOverflowError` a long run of retries ends in.
- The list kind (`CopyOnWriteArrayList` or `ArrayList`). The model iterates over a snapshot. With an `ArrayList`, removing inside the iterator loops can throw `ConcurrentModificationException` or skip entries; the model does not capture that failure.
- The clock `System.currentTimeMillis()`: `now` is a parameter. `DoCheck` uses one `now` for the whole pass, while the source reads the clock once per entry.
- Live policy reads: `getMaxSize()` and `getTTL()` are read on every call in the source. The model fixes them at construction.
- The `null` checks on the policy and on the lock (`NullPointerException`, ObjectPool.java:151-159, 168-171): Dafny values and references are never null.
- `getLock`, `setLock` and the convenience constructors that only supply defaults: they carry no pool logic.
- Machine integers: maxSize and initialSize are Java `int`, and the TTL and timestamps are `long`. The model uses unbounded integers, so `now - timeGaveBack` cannot wrap around as it could in the source for extreme timestamps.
- Exceptions thrown by `getNewObj`, `validate` or `cleanup`: the model assumes these calls return normally.
- The JPA session policy itself (the database calls in `validate`, `cleanup` and `getNewObj`, and the system property read for the size): only its constants are used, in `EntityManagerPolicyAccepted`.
