/**
 * The wait helpers of `CircularArrayLongFifo` (`waitWhileFull`,
 * `waitWhileEmpty` and `waitUntilEmpty`), which share one algorithm: keep
 * waiting on the lock object while a condition holds, either for ever
 * (timeout 0) or until a deadline `msTimeout` milliseconds after the call.
 *
 * The other threads and the clock are outside the model. They are given as
 * the list of wakeups the waiting thread sees: after each return from
 * `wait`, whether the condition still holds and what the clock then reads.
 */
module MonitorWait {
  import opened JavaInts

  /** What the waiting thread sees when a `wait` returns. */
  datatype Wakeup = Wakeup(blocked: bool, now: Int64)

  /**
   * How a wait ends: the condition no longer holds (the helper returns true),
   * the deadline has passed (it returns false), or it is still waiting after
   * the last wakeup given.
   */
  datatype Outcome = Ready | TimedOut | StillWaiting

  /** Every wakeup in `ws` found the condition still holding. */
  predicate AllBlocked(ws: seq<Wakeup>)
  {
    forall i :: 0 <= i < |ws| ==> ws[i].blocked
  }

  /**
   * The time left after a wakeup at `now`, as the helpers compute it with
   * `long` arithmetic: the deadline `start + msTimeout` and the difference
   * `deadline - now` both wrap around modulo 2^64.
   */
  function Remaining(start: Int64, msTimeout: Int64, now: Int64): Int64
  {
    Wrap64(Wrap64(start as int + msTimeout as int) as int - now as int)
  }

  /**
   * Even when `start + msTimeout` overflows, the time left is exact whenever
   * its true value fits in a `long`.
   */
  lemma RemainingIsExact(start: Int64, msTimeout: Int64, now: Int64)
    requires InInt64Range(msTimeout as int - (now as int - start as int))
    ensures Remaining(start, msTimeout, now) as int == msTimeout as int - (now as int - start as int)
  {
  }

  /**
   * One wait helper. `blocked` says whether the condition holds on entry and
   * `start` is the clock read when the timed branch computes its deadline.
   * The helper returns true as soon as it sees the condition gone. With a
   * positive timeout it keeps waiting while time is left and gives up (false)
   * at the first wakeup that finds the condition holding and no time left; a
   * negative timeout gives up at once; a timeout of 0 never gives false.
   */
  method WaitWhile(blocked: bool, msTimeout: Int64, start: Int64, wakeups: seq<Wakeup>)
    returns (outcome: Outcome, used: nat)
    ensures used <= |wakeups|
    ensures !blocked ==> outcome == Ready && used == 0
    ensures outcome == Ready && blocked ==>
              0 < used && AllBlocked(wakeups[..used - 1]) && !wakeups[used - 1].blocked
    ensures outcome == TimedOut ==>
              blocked && msTimeout != 0 && AllBlocked(wakeups[..used]) &&
              if used == 0 then msTimeout < 0
              else Remaining(start, msTimeout, wakeups[used - 1].now) <= 0
    ensures outcome == StillWaiting ==> blocked && used == |wakeups| && AllBlocked(wakeups)
    ensures msTimeout == 0 ==> outcome != TimedOut
    ensures blocked && msTimeout < 0 ==> outcome == TimedOut && used == 0
    ensures blocked && msTimeout > 0 ==>
              forall j :: 0 <= j < used && (j < used - 1 || outcome == StillWaiting) ==>
                Remaining(start, msTimeout, wakeups[j].now) > 0
  {
    if !blocked {
      return Ready, 0;
    }
    used := 0;
    if msTimeout == 0 {
      while used < |wakeups|
        invariant used <= |wakeups|
        invariant AllBlocked(wakeups[..used])
      {
        var w := wakeups[used];
        used := used + 1;
        if !w.blocked {
          return Ready, used;
        }
      }
      return StillWaiting, used;
    }
    var endTime := Wrap64(start as int + msTimeout as int);
    var msRemaining := msTimeout;
    while msRemaining > 0
      invariant used <= |wakeups|
      invariant AllBlocked(wakeups[..used])
      invariant if used == 0 then msRemaining == msTimeout
                else msRemaining == Remaining(start, msTimeout, wakeups[used - 1].now)
      invariant used > 0 ==> msTimeout > 0
      invariant forall j :: 0 <= j < used - 1 ==> Remaining(start, msTimeout, wakeups[j].now) > 0
      decreases |wakeups| - used
    {
      if used == |wakeups| {
        return StillWaiting, used;
      }
      var w := wakeups[used];
      used := used + 1;
      if !w.blocked {
        return Ready, used;
      }
      msRemaining := Wrap64(endTime as int - w.now as int);
    }
    return TimedOut, used;
  }

  /**
   * A timed wait that reports a time-out has waited at least `msTimeout`
   * milliseconds by the clock, provided the time left fits in a `long`.
   */
  lemma TimeOutMeansDeadlinePassed(start: Int64, msTimeout: Int64, now: Int64)
    requires msTimeout > 0
    requires InInt64Range(msTimeout as int - (now as int - start as int))
    requires Remaining(start, msTimeout, now) <= 0
    ensures now as int - start as int >= msTimeout as int
  {
    RemainingIsExact(start, msTimeout, now);
  }
}
