/** Retry around the breaker: src/common/utils/retry.util.js and `_callWithResilience` of
    src/modules/hcm/hcm.service.js. What HCM answers, and when, is an input. */
module Resilience {
  import opened Wrappers
  import opened Breaker
  import opened CircuitBreakerObject

  /** The part of an error that `isRetryable` looks at. */
  datatype Failure = CircuitOpen | CircuitHalfOpen | HttpError(status: int) | NoResponse

  predicate IsRetryable(e: Failure) {
    match e
    case CircuitOpen => false
    case CircuitHalfOpen => false
    case HttpError(status) =>
      if status == 429 || status == 408 then true
      else if 400 <= status < 500 then false
      else true
    case NoResponse => true
  }

  datatype Outcome<D> = Returned(data: D) | Failed(error: Failure)

  /** What one attempt would meet: when it starts, when it settles and how. */
  datatype Attempt<D> = Attempt(begins: int, ends: int, outcome: Outcome<D>)

  /** What the caller of the facade gets. With no attempts allowed, `withRetry` throws `undefined`
      and the handler's `error.code` raises in turn. */
  datatype Answer<D> = Data(value: D) | Null | Crash

  datatype Trace<D> = Trace(breaker: State, sent: nat, answer: Answer<D>)

  /** The attempts numbered `n` to `max`, 1-based. */
  function Attempts<D>(c: Settings, b: State, n: nat, max: int, env: seq<Attempt<D>>): Trace<D>
    requires n >= 1 && max <= |env|
    decreases max - n
  {
    if n > max then Trace(b, 0, Crash)
    else
      var a := env[n - 1];
      var admitted := Admits(c, b, a.begins);
      var b1 := Begin(c, b, a.begins);
      if admitted && a.outcome.Returned? then Trace(OnSuccess(b1), 1, Data(a.outcome.data))
      else
        var e := if admitted then a.outcome.error else CircuitOpen;
        var b2 := if admitted then OnFailure(c, b1, a.ends) else b1;
        var here := if admitted then 1 else 0;
        if n == max || !IsRetryable(e) then Trace(b2, here, Null)
        else
          var rest := Attempts(c, b2, n + 1, max, env);
          rest.(sent := here + rest.sent)
  }

  /** No response at all, or a status other than the client errors, of which only 408 and 429 are retried. */
  predicate FailsRetryably<D>(a: Attempt<D>) {
    && a.outcome.Failed?
    && (a.outcome.error == NoResponse
        || (a.outcome.error.HttpError?
            && (a.outcome.error.status in {408, 429} || a.outcome.error.status < 400 || 500 <= a.outcome.error.status)))
  }

  /** Attempts follow one another, each started less than a cooldown after the last one settled. */
  predicate QuickRetries<D>(c: Settings, env: seq<Attempt<D>>) {
    && (forall i :: 0 <= i < |env| ==> env[i].begins <= env[i].ends)
    && (forall i :: 0 < i < |env| ==> env[i - 1].ends <= env[i].begins < env[i - 1].ends + c.cooldownMs)
  }

  /** The requests a breaker in this state still lets through before it trips. */
  function Budget(c: Settings, b: State, now: int): nat
    requires Inv(c, b, now)
  {
    match b.mode
    case Closed => c.failureThreshold - b.failureCount
    case HalfOpen => 1
    case Open => if Admits(c, b, now) then 1 else 0
  }

  function Min(x: int, y: int): int {
    if x <= y then x else y
  }

  /** When HCM is down, a logical call sends exactly as many requests as both the retry limit and the
      breaker allow, then yields null: the CIRCUIT_OPEN error is not retried. From a closed breaker
      with f recorded failures that is min(maxAttempts, failureThreshold - f). */
  lemma {:induction false} OutageSendsExactly<D>(c: Settings, b: State, n: nat, max: int, env: seq<Attempt<D>>)
    requires c.Valid() && 1 <= n <= max <= |env|
    requires QuickRetries(c, env) && forall i :: 0 <= i < |env| ==> FailsRetryably(env[i])
    requires Inv(c, b, env[n - 1].begins)
    ensures var t := Attempts(c, b, n, max, env);
            && t.sent == Min(max - n + 1, Budget(c, b, env[n - 1].begins))
            && t.answer == Null
            && (t.breaker.mode == Open <==>
                 (b.mode == Open && !Admits(c, b, env[n - 1].begins)) || Budget(c, b, env[n - 1].begins) <= max - n + 1)
    decreases max - n
  {
    var a := env[n - 1];
    if Admits(c, b, a.begins) {
      var b1 := Begin(c, b, a.begins);
      var b2 := OnFailure(c, b1, a.ends);
      StepKeepsInv(c, b, CallStarts(a.begins), a.begins);
      StepKeepsInv(c, b1, CallSettles(a.ends, false), a.begins);
      assert FailsRetryably(a);
      if n < max {
        var next := env[n];
        assert env[n - 1].ends <= next.begins < env[n - 1].ends + c.cooldownMs;
        assert Inv(c, b2, next.begins);
        if b2.mode == Open {
          RemainingIsExact(c, b2, next.begins);
        }
        OutageSendsExactly(c, b2, n + 1, max, env);
      }
    }
  }

  lemma OutageFromClosed<D>(c: Settings, b: State, max: int, env: seq<Attempt<D>>)
    requires c.Valid() && 1 <= max <= |env|
    requires QuickRetries(c, env) && forall i :: 0 <= i < |env| ==> FailsRetryably(env[i])
    requires Inv(c, b, env[0].begins) && b.mode == Closed
    ensures var t := Attempts(c, b, 1, max, env);
            t.sent == Min(max, c.failureThreshold - b.failureCount) && t.answer == Null
  {
    OutageSendsExactly(c, b, 1, max, env);
  }

  /** Whatever HCM does: no more than `max` requests go out, all but the last failed retryably, data is handed
      back exactly when the last request sent returned it, and a call that gives up before its last
      attempt was refused by the breaker or met an error that is not retried. */
  lemma {:induction false} AnswerIsTheLastRequest<D>(c: Settings, b: State, n: nat, max: int, env: seq<Attempt<D>>)
    requires 1 <= n <= max <= |env|
    ensures var t := Attempts(c, b, n, max, env);
            && t.sent <= max - n + 1
            && t.answer != Crash
            && (forall i :: n - 1 <= i < n - 1 + t.sent - 1 ==> FailsRetryably(env[i]))
            && (t.answer.Data? <==> t.sent > 0 && env[n + t.sent - 2].outcome.Returned?)
            && (t.answer.Data? ==> t.answer.value == env[n + t.sent - 2].outcome.data)
            && (t.answer == Null && t.sent < max - n + 1 ==>
                 t.breaker.mode == Open || (t.sent > 0 && !FailsRetryably(env[n + t.sent - 2])))
    decreases max - n
  {
    if Admits(c, b, env[n - 1].begins) && FailsRetryably(env[n - 1]) && n < max {
      var b2 := OnFailure(c, Begin(c, b, env[n - 1].begins), env[n - 1].ends);
      AnswerIsTheLastRequest(c, b2, n + 1, max, env);
    }
  }

  /** A passing disturbance is ridden out: k such failures, fewer than the retry limit and than what a closed
      breaker still tolerates, then a returned value: k + 1 requests go out, the value is handed back, and the
      breaker ends closed with a clean count. */
  lemma {:induction false} RetriesUntilData<D>(c: Settings, b: State, n: nat, max: int, env: seq<Attempt<D>>, k: nat)
    requires b.mode == Closed && 0 <= b.failureCount && b.failureCount + k < c.failureThreshold
    requires 1 <= n && n + k <= max <= |env|
    requires forall i :: n - 1 <= i < n - 1 + k ==> FailsRetryably(env[i])
    requires env[n - 1 + k].outcome.Returned?
    ensures var t := Attempts(c, b, n, max, env);
            && t.sent == k + 1 && t.answer == Data(env[n - 1 + k].outcome.data)
            && t.breaker.mode == Closed && t.breaker.failureCount == 0
    decreases k
  {
    if k > 0 {
      assert FailsRetryably(env[n - 1]);
      RetriesUntilData(c, OnFailure(c, b, env[n - 1].ends), n + 1, max, env, k - 1);
    }
  }

  /** The one answer that is no answer: a retry limit below one makes `withRetry` throw `undefined`, and reading
      its code raises. With any other limit the call ends in data or null. */
  lemma CrashIffNoAttempts<D>(c: Settings, b: State, max: int, env: seq<Attempt<D>>)
    requires max <= |env|
    ensures Attempts(c, b, 1, max, env).answer == Crash <==> max < 1
  {
    if max >= 1 {
      AnswerIsTheLastRequest(c, b, 1, max, env);
    }
  }

  /** A 4xx answer other than 408 and 429 ends the call at once, yet counts against the breaker: such answers to
      one logical call after another send one request each, and open the breaker for everybody exactly when
      they are as many as it still tolerates. */
  lemma {:induction false} ClientErrorsTripTheBreaker<D>(c: Settings, b: State, max: int, env: seq<Attempt<D>>, k: nat)
    requires c.Valid() && 1 <= max && b.mode == Closed && 0 <= b.failureCount < c.failureThreshold
    requires k <= |env| && k <= c.failureThreshold - b.failureCount && forall i :: 0 <= i < k ==> IsClientError(env[i])
    ensures var (b', sent) := LogicalCalls(c, b, max, env[..k]);
            && sent == k && b'.failureCount == b.failureCount + k
            && b'.mode == if k == c.failureThreshold - b.failureCount then Open else Closed
    decreases k
  {
    if k > 0 {
      var t := Attempts(c, b, 1, max, Repeated(env[0], max));
      assert t == Trace(OnFailure(c, b, env[0].ends), 1, Null);
      assert env[..k][1..] == env[1..][..k - 1];
      if k == 1 {
        assert env[1..][..0] == [];
      } else {
        ClientErrorsTripTheBreaker(c, t.breaker, max, env[1..], k - 1);
      }
    }
  }

  predicate IsClientError<D>(a: Attempt<D>) {
    a.outcome.Failed? && a.outcome.error.HttpError?
    && 400 <= a.outcome.error.status < 500 && a.outcome.error.status !in {408, 429}
  }

  /** What a call would meet if every attempt of it met the same. */
  function Repeated<D>(a: Attempt<D>, max: int): (env: seq<Attempt<D>>)
    requires max >= 0
    ensures |env| == max
  {
    seq(max, _ => a)
  }

  /** Logical calls one after another, each meeting one kind of attempt; the breaker and the requests sent. */
  function LogicalCalls<D>(c: Settings, b: State, max: int, calls: seq<Attempt<D>>): (State, nat)
    requires max >= 0
    decreases |calls|
  {
    if calls == [] then (b, 0)
    else
      var t := Attempts(c, b, 1, max, Repeated(calls[0], max));
      var (b', sent) := LogicalCalls(c, t.breaker, max, calls[1..]);
      (b', t.sent + sent)
  }

  // ---- Delays ----------------------------------------------------------------------------------

  function Pow2(k: nat): nat {
    if k == 0 then 1 else 2 * Pow2(k - 1)
  }

  /** The delay before jitter; jitter scales it by a factor between one half and one. */
  function CappedDelay(baseDelayMs: nat, attempt: nat, maxDelayMs: nat): nat
    requires attempt >= 1
  {
    Min(baseDelayMs * Pow2(attempt - 1), maxDelayMs)
  }

  /** With the shipped limits (10 s cap, 30 s cooldown) every wait is shorter than the cooldown, however
      the jitter falls, and the delays double up to the cap. */
  lemma DefaultWaitsAreQuick(baseDelayMs: nat, attempt: nat, jitter: real)
    requires attempt >= 1 && 0.5 <= jitter <= 1.0
    ensures var delay := CappedDelay(baseDelayMs, attempt, 10000);
            0.5 * delay as real <= Jittered(delay, jitter) <= delay as real <= 10000.0 < 30000.0
    ensures CappedDelay(baseDelayMs, 1, 10000) == if baseDelayMs <= 10000 then baseDelayMs else 10000
    ensures CappedDelay(baseDelayMs, attempt + 1, 10000) == Min(2 * CappedDelay(baseDelayMs, attempt, 10000), 10000)
  {
    JitterBound(CappedDelay(baseDelayMs, attempt, 10000), jitter);
    assert baseDelayMs * Pow2(0) == baseDelayMs;
    assert baseDelayMs * Pow2(attempt) == 2 * (baseDelayMs * Pow2(attempt - 1));
  }

  function Jittered(delay: nat, factor: real): real {
    (delay as real) * factor
  }

  lemma JitterBound(delay: nat, factor: real)
    requires 0.5 <= factor <= 1.0
    ensures 0.5 * delay as real <= Jittered(delay, factor) <= delay as real
  {
    var d := delay as real;
    NonNegativeProduct(d, factor - 0.5);
    NonNegativeProduct(d, 1.0 - factor);
    Complement(d, factor);
  }

  lemma NonNegativeProduct(x: real, y: real)
    requires x >= 0.0 && y >= 0.0
    ensures x * y >= 0.0
  {
  }

  lemma Complement(d: real, factor: real)
    ensures d * factor + d * (1.0 - factor) == d
    ensures d * factor == 0.5 * d + d * (factor - 0.5)
  {
  }

  // ---- The facade object -----------------------------------------------------------------------

  class HcmService {
    const circuitBreaker: CircuitBreaker
    const retryMaxAttempts: int

    constructor (circuitThreshold: int, circuitResetMs: int, retryMaxAttempts: int)
      ensures fresh(circuitBreaker) && circuitBreaker.Valid() && circuitBreaker.Value() == INITIAL
      ensures circuitBreaker.Config() == Settings(circuitThreshold, circuitResetMs)
      ensures this.retryMaxAttempts == retryMaxAttempts
    {
      this.circuitBreaker := new CircuitBreaker(Some(circuitThreshold), Some(circuitResetMs));
      this.retryMaxAttempts := retryMaxAttempts;
    }

    method CallWithResilience<D>(env: seq<Attempt<D>>) returns (answer: Answer<D>, sent: nat)
      requires circuitBreaker.Valid() && retryMaxAttempts <= |env|
      modifies circuitBreaker
      ensures circuitBreaker.Valid()
      ensures answer == Crash <==> retryMaxAttempts < 1
      ensures Trace(circuitBreaker.Value(), sent, answer)
              == Attempts(circuitBreaker.Config(), old(circuitBreaker.Value()), 1, retryMaxAttempts, env)
    {
      ghost var c, b0 := circuitBreaker.Config(), circuitBreaker.Value();
      ghost var whole := Attempts(c, b0, 1, retryMaxAttempts, env);
      CrashIffNoAttempts(c, b0, retryMaxAttempts, env);
      sent := 0;
      var attempt := 1;
      while attempt <= retryMaxAttempts
        invariant 1 <= attempt && circuitBreaker.Valid()
        invariant sent == attempt - 1
        invariant var rest := Attempts(c, circuitBreaker.Value(), attempt, retryMaxAttempts, env);
                  whole == rest.(sent := sent + rest.sent)
        decreases retryMaxAttempts - attempt
      {
        var a := env[attempt - 1];
        var admitted := circuitBreaker.BeginCall(a.begins);
        var error := CircuitOpen;
        if admitted {
          sent := sent + 1;
          match a.outcome {
            case Returned(d) =>
              circuitBreaker.RecordSuccess();
              return Data(d), sent;
            case Failed(e) =>
              circuitBreaker.RecordFailure(a.ends);
              error := e;
          }
        }
        if attempt == retryMaxAttempts || !IsRetryable(error) {
          return Null, sent;
        }
        attempt := attempt + 1;
      }
      answer := Crash;
    }
  }
}
