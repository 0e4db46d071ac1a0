/**
 * The entry record of the pool (PoolObject): the pooled object, whether it is
 * checked out ("locked"), and the time it was last given back.
 *
 * Entries never leave the pool that owns them, so they are modelled as values
 * that the pool replaces in its list; the setters become functional updates.
 */
module PoolObjects {

  datatype PoolObject<T> = PoolObject(obj: T, locked: bool, timeGaveBack: int)

  /** The constructor: stores the object and the flag; the timestamp keeps its default 0. */
  function NewPoolObject<T>(obj: T, locked: bool): (e: PoolObject<T>)
    ensures e.obj == obj && e.locked == locked
    ensures e.timeGaveBack == 0
  {
    PoolObject(obj, locked, 0)
  }

  /** setLocked: only the flag changes, and isLocked reads back the value set. */
  function SetLocked<T>(e: PoolObject<T>, locked: bool): (r: PoolObject<T>)
    ensures r.locked == locked
    ensures r.obj == e.obj && r.timeGaveBack == e.timeGaveBack
  {
    e.(locked := locked)
  }

  /** setTimeGaveBack: only the timestamp changes, and getTimeGaveBack reads back the value set. */
  function SetTimeGaveBack<T>(e: PoolObject<T>, time: int): (r: PoolObject<T>)
    ensures r.timeGaveBack == time
    ensures r.obj == e.obj && r.locked == e.locked
  {
    e.(timeGaveBack := time)
  }
}
