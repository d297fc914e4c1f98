/** The breaker as the object the HCM facade owns: src/common/utils/circuit-breaker.util.js. */
module CircuitBreakerObject {
  import opened Wrappers
  import opened Breaker

  class CircuitBreaker {
    const failureThreshold: int
    const cooldownMs: int
    var state: Mode
    var failureCount: int
    var failures: int
    var openedAt: Option<int>
    var nextAttemptAt: Option<int>
    var successCount: nat

    /** `failures` only mirrors `failureCount`. */
    predicate Valid() reads this {
      failures == failureCount
    }

    function Config(): Settings {
      Settings(failureThreshold, cooldownMs)
    }

    function Value(): State reads this {
      State(state, failureCount, openedAt, nextAttemptAt)
    }

    constructor (failureThreshold: Option<int>, cooldownMs: Option<int>)
      ensures Valid() && Value() == INITIAL && successCount == 0
      ensures this.failureThreshold == if failureThreshold.Some? then failureThreshold.value else 5
      ensures this.cooldownMs == if cooldownMs.Some? then cooldownMs.value else 30000
    {
      this.failureThreshold := if failureThreshold.Some? then failureThreshold.value else 5;
      this.cooldownMs := if cooldownMs.Some? then cooldownMs.value else 30000;
      state, failureCount, failures := Closed, 0, 0;
      openedAt, nextAttemptAt, successCount := None, None, 0;
    }

    /** `call` up to the point where the wrapped function is invoked; false is CIRCUIT_OPEN. */
    method BeginCall(now: int) returns (admitted: bool)
      requires Valid()
      modifies this
      ensures Valid() && successCount == old(successCount)
      ensures admitted == Admits(Config(), old(Value()), now)
      ensures Value() == Begin(Config(), old(Value()), now)
    {
      if state == Open {
        var since := TimeOr(openedAt, if nextAttemptAt.Some? && nextAttemptAt.value != 0
                                      then nextAttemptAt.value - cooldownMs else now);
        var elapsed := now - since;
        var remaining := cooldownMs - elapsed;
        if remaining > 0 {
          return false;
        }
        state := HalfOpen;
      }
      return true;
    }

    method RecordSuccess()
      requires Valid()
      modifies this
      ensures Valid() && Value() == OnSuccess(old(Value())) && successCount == old(successCount) + 1
    {
      if state == HalfOpen {
        state := Closed;
        failureCount := 0;
        failures := 0;
        openedAt := None;
        nextAttemptAt := None;
      } else {
        failureCount := 0;
        failures := 0;
      }
      successCount := successCount + 1;
    }

    method RecordFailure(now: int)
      requires Valid()
      modifies this
      ensures Valid() && Value() == OnFailure(Config(), old(Value()), now) && successCount == old(successCount)
    {
      failureCount := failureCount + 1;
      failures := failureCount;
      if state == HalfOpen || failureCount >= failureThreshold {
        state := Open;
        openedAt := Some(now);
        nextAttemptAt := Some(now + cooldownMs);
      }
    }

    method Reset()
      requires Valid()
      modifies this
      ensures Valid() && Value() == INITIAL && successCount == old(successCount)
    {
      state := Closed;
      failureCount := 0;
      failures := 0;
      openedAt := None;
      nextAttemptAt := None;
    }
  }
}
