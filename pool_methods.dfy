/**
 * The policy a pool's owner supplies (IPoolMethods), reduced to its constants,
 * and the configuration checks the pool runs when it is constructed.
 *
 * validate, getNewObj and cleanup are not values here: the pool's methods take
 * the result of validate as a parameter, draw new objects from a supply
 * function, and record the objects passed to cleanup.
 */
module PoolMethods {
  import opened Wrappers

  /** The TTL value that switches the reaper off. */
  const TTL_UNLIMITED: int := -1

  /** The smallest TTL and check interval, in milliseconds, a finite-TTL pool accepts. */
  const MIN_TIME: int := 10000

  datatype Policy = Policy(
    maxSize: int,
    ttl: int,
    checkInterval: int,
    validateOnGet: bool,
    validateOnGiveBack: bool)

  datatype ConfigError =
    | MaxSizeTooSmall
    | CheckIntervalTooSmall
    | TtlTooSmall
    | NegativeInitialSize
    | InitialSizeTooBig

  /** What a usable policy is: a positive size bound, and with a finite TTL both times at least 10 s. */
  predicate ValidPolicy(p: Policy) {
    p.maxSize >= 1 && (p.ttl != TTL_UNLIMITED ==> p.checkInterval >= MIN_TIME && p.ttl >= MIN_TIME)
  }

  /** The reaper thread is started only when the TTL is finite. */
  predicate ReaperEnabled(p: Policy) {
    p.ttl != TTL_UNLIMITED
  }

  /** checkPoolMethodsImpl: the checks in their order, the first failing one decides the error. */
  function CheckPoolMethodsImpl(p: Policy): (r: Outcome<ConfigError>)
    ensures r.Pass? <==> ValidPolicy(p)
    ensures r == Fail(MaxSizeTooSmall) <==> p.maxSize < 1
    ensures r == Fail(CheckIntervalTooSmall) <==>
      p.maxSize >= 1 && p.ttl != TTL_UNLIMITED && p.checkInterval < MIN_TIME
    ensures r == Fail(TtlTooSmall) <==>
      p.maxSize >= 1 && p.ttl != TTL_UNLIMITED && p.checkInterval >= MIN_TIME && p.ttl < MIN_TIME
  {
    if p.maxSize < 1 then Fail(MaxSizeTooSmall)
    else if p.ttl != TTL_UNLIMITED then
      if p.checkInterval < MIN_TIME then Fail(CheckIntervalTooSmall)
      else if p.ttl < MIN_TIME then Fail(TtlTooSmall)
      else Pass
    else Pass
  }

  /** The validations at the head of initialInit. */
  function CheckInitialSize(p: Policy, initialSize: int): (r: Outcome<ConfigError>)
    ensures r.Pass? <==> initialSize == 0 || 0 < initialSize <= p.maxSize
    ensures r == Fail(NegativeInitialSize) <==> initialSize < 0
    ensures r == Fail(InitialSizeTooBig) <==> initialSize > 0 && initialSize > p.maxSize
  {
    if initialSize < 0 then Fail(NegativeInitialSize)
    else if initialSize == 0 then Pass
    else if initialSize > p.maxSize then Fail(InitialSizeTooBig)
    else Pass
  }

  /** Everything the constructor checks before it creates the first object. */
  function CheckConstruction(p: Policy, initialSize: int): (r: Outcome<ConfigError>)
    ensures r.Pass? <==> ValidPolicy(p) && 0 <= initialSize <= p.maxSize
    ensures r.Fail? && ValidPolicy(p) ==> r.error in {NegativeInitialSize, InitialSizeTooBig}
    ensures !ValidPolicy(p) ==> r == CheckPoolMethodsImpl(p)
  {
    match CheckPoolMethodsImpl(p)
    case Fail(e) => Fail(e)
    case Pass => CheckInitialSize(p, initialSize)
  }
}
