/**
 * The process-wide FIFO semaphore that bounds concurrent request handling
 * (lib/utils/concurrency.ts). The suspension points of `acquire` are explicit
 * steps: `Acquire` either enters or parks its waiter, `Release` hands the
 * oldest waiter's resolve function to `setImmediate`, and `RunImmediate` is
 * the event loop running that callback, after which the waiter increments
 * `inFlight` itself.
 */
module Concurrency {
  import opened Wrappers

  /** Identity of one suspended `acquire` call (its `resolve` function). */
  type Waiter = nat

  /** What `snapshot()` reports. */
  datatype Counters = Counters(inFlight: nat, limit: int, queued: nat)

  const DefaultLimit := 6

  /**
   * `Math.max(1, Number(env || fallback))` for a limit read from the
   * environment: `env` is the variable's numeric value, `None` when it is
   * unset or empty.
   */
  function LimitOf(env: Option<int>, fallback: int): (r: int)
    ensures r >= 1
    ensures env.None? && fallback >= 1 ==> r == fallback
    ensures env.None? && fallback < 1 ==> r == 1
    ensures env.Some? && env.value >= 1 ==> r == env.value
    ensures env.Some? && env.value < 1 ==> r == 1
  {
    var n := if env.Some? then env.value else fallback;
    if n > 1 then n else 1
  }

  class Semaphore {
    var inFlight: nat
    /** `waiters`: parked acquirers, oldest first. */
    var waiters: seq<Waiter>
    /** Resolve functions handed to `setImmediate` and not yet run, oldest first. */
    var scheduled: seq<Waiter>
    const limit: int

    constructor (configured: Option<int>)
      ensures limit == LimitOf(configured, DefaultLimit) && limit >= 1
      ensures inFlight == 0 && waiters == [] && scheduled == []
    {
      limit := LimitOf(configured, DefaultLimit);
      inFlight := 0;
      waiters := [];
      scheduled := [];
    }

    /** `acquire()` up to its first suspension: the fast path enters at once, otherwise the waiter is parked at the back. */
    method Acquire(w: Waiter) returns (entered: bool)
      modifies this
      ensures entered <==> old(inFlight) < limit
      ensures entered ==> inFlight == old(inFlight) + 1 && waiters == old(waiters)
      ensures !entered ==> inFlight == old(inFlight) && waiters == old(waiters) + [w]
      ensures scheduled == old(scheduled)
    {
      if inFlight < limit {
        inFlight := inFlight + 1;
        entered := true;
      } else {
        waiters := waiters + [w];
        entered := false;
      }
    }

    /** `release()`: decrement without going below zero, then wake the oldest waiter, if any. */
    method Release() returns (woken: Option<Waiter>)
      modifies this
      ensures inFlight == if old(inFlight) > 0 then old(inFlight) - 1 else 0
      ensures old(waiters) == [] ==> woken == None && waiters == [] && scheduled == old(scheduled)
      ensures old(waiters) != [] ==>
                && woken == Some(old(waiters)[0])
                && waiters == old(waiters)[1..]
                && scheduled == old(scheduled) + [old(waiters)[0]]
    {
      inFlight := if inFlight > 0 then inFlight - 1 else 0;
      if waiters != [] {
        woken := Some(waiters[0]);
        scheduled := scheduled + [waiters[0]];
        waiters := waiters[1..];
      } else {
        woken := None;
      }
    }

    /** The event loop runs the oldest scheduled resolve; that waiter resumes and increments `inFlight`. */
    method RunImmediate() returns (resumed: Option<Waiter>)
      modifies this
      ensures old(scheduled) == [] ==> resumed == None && inFlight == old(inFlight) && scheduled == []
      ensures old(scheduled) != [] ==>
                && resumed == Some(old(scheduled)[0])
                && scheduled == old(scheduled)[1..]
                && inFlight == old(inFlight) + 1
      ensures waiters == old(waiters)
    {
      if scheduled != [] {
        resumed := Some(scheduled[0]);
        scheduled := scheduled[1..];
        inFlight := inFlight + 1;
      } else {
        resumed := None;
      }
    }

    /** `snapshot()`: reads the counters and changes nothing. */
    method Snapshot() returns (s: Counters)
      requires limit >= 1
      ensures s.inFlight == inFlight && s.limit == limit && s.queued == |waiters|
      ensures s.limit >= 1
    {
      s := Counters(inFlight, limit, |waiters|);
    }
  }

  /**
   * A release followed by a fresh `acquire` before the woken waiter resumes:
   * the newcomer takes the fast path and the waiter then increments too, so
   * `inFlight` ends one above the limit.
   */
  method OverLimitTrace() returns (observed: nat, limit: int)
    ensures limit == 1 && observed == limit + 1
  {
    var s := new Semaphore(Some(1));
    var first := s.Acquire(1);
    var second := s.Acquire(2);
    var woken := s.Release();
    var third := s.Acquire(3);
    var resumed := s.RunImmediate();
    assert first && !second && third && resumed == Some(2);
    observed, limit := s.inFlight, s.limit;
  }

  /**
   * The semaphore as its comment intends it: `release` hands its slot to the
   * oldest waiter instead of freeing it, and the waiter does not increment on
   * resume, so no fresh `acquire` can slip in between.
   */
  class HandoffSemaphore {
    var inFlight: nat
    var waiters: seq<Waiter>
    var scheduled: seq<Waiter>
    const limit: int

    /** No more than `limit` holders, counting the waiters whose slot is already handed over. */
    ghost predicate Valid()
      reads this
    {
      limit >= 1 && inFlight <= limit && |scheduled| <= inFlight
    }

    constructor (configured: Option<int>)
      ensures Valid() && limit == LimitOf(configured, DefaultLimit)
      ensures inFlight == 0 && waiters == [] && scheduled == []
    {
      limit := LimitOf(configured, DefaultLimit);
      inFlight := 0;
      waiters := [];
      scheduled := [];
    }

    method Acquire(w: Waiter) returns (entered: bool)
      requires Valid()
      modifies this
      ensures Valid()
      ensures entered <==> old(inFlight) < limit
      ensures entered ==> inFlight == old(inFlight) + 1 && waiters == old(waiters)
      ensures !entered ==> inFlight == old(inFlight) && waiters == old(waiters) + [w]
      ensures scheduled == old(scheduled)
    {
      if inFlight < limit {
        inFlight := inFlight + 1;
        entered := true;
      } else {
        waiters := waiters + [w];
        entered := false;
      }
    }

    /** The holder leaves; its slot goes to the oldest waiter when there is one. */
    method Release() returns (woken: Option<Waiter>)
      requires Valid() && inFlight > |scheduled|
      modifies this
      ensures Valid()
      ensures old(waiters) == [] ==> woken == None && inFlight == old(inFlight) - 1 && waiters == [] && scheduled == old(scheduled)
      ensures old(waiters) != [] ==>
                && woken == Some(old(waiters)[0])
                && inFlight == old(inFlight)
                && waiters == old(waiters)[1..]
                && scheduled == old(scheduled) + [old(waiters)[0]]
    {
      if waiters != [] {
        woken := Some(waiters[0]);
        scheduled := scheduled + [waiters[0]];
        waiters := waiters[1..];
      } else {
        woken := None;
        inFlight := inFlight - 1;
      }
    }

    method RunImmediate() returns (resumed: Option<Waiter>)
      requires Valid()
      modifies this
      ensures Valid()
      ensures old(scheduled) == [] ==> resumed == None && scheduled == []
      ensures old(scheduled) != [] ==> resumed == Some(old(scheduled)[0]) && scheduled == old(scheduled)[1..]
      ensures inFlight == old(inFlight) && waiters == old(waiters)
    {
      if scheduled != [] {
        resumed := Some(scheduled[0]);
        scheduled := scheduled[1..];
      } else {
        resumed := None;
      }
    }
  }

  /** The trace of `OverLimitTrace` against the hand-off semaphore stays within the limit. */
  method HandoffTrace() returns (observed: nat, limit: int)
    ensures limit == 1 && observed <= limit
  {
    var s := new HandoffSemaphore(Some(1));
    var first := s.Acquire(1);
    var second := s.Acquire(2);
    var woken := s.Release();
    var third := s.Acquire(3);
    var resumed := s.RunImmediate();
    assert first && !second && !third && resumed == Some(2);
    observed, limit := s.inFlight, s.limit;
  }
}
