/** The token bucket of src/common/utils/token-bucket-limiter.util.js, over exact numbers. */
module TokenBucket {

  datatype Settings = Settings(capacity: real, refillRatePerSec: real) {
    predicate Valid() { capacity > 0.0 && refillRatePerSec > 0.0 }
  }

  datatype Bucket = Bucket(tokens: real, lastRefill: int)

  datatype Event = Consume(at: int, amount: real) | Peek(at: int)

  function MinReal(x: real, y: real): real {
    if x <= y then x else y
  }

  /** What the refill rate earns over a stretch of milliseconds. */
  function Earned(c: Settings, ms: int): real {
    (ms as real / 1000.0) * c.refillRatePerSec
  }

  function Refill(c: Settings, b: Bucket, now: int): Bucket {
    Bucket(MinReal(c.capacity, b.tokens + Earned(c, now - b.lastRefill)), now)
  }

  function Fits(c: Settings, b: Bucket, e: Event): bool {
    e.Consume? && Refill(c, b, e.at).tokens >= e.amount
  }

  function Step(c: Settings, b: Bucket, e: Event): Bucket {
    var b' := Refill(c, b, e.at);
    if Fits(c, b, e) then b'.(tokens := b'.tokens - e.amount) else b'
  }

  function Run(c: Settings, b: Bucket, es: seq<Event>): Bucket
    decreases |es|
  {
    if es == [] then b else Run(c, Step(c, b, es[0]), es[1..])
  }

  /** The answers given to the consuming calls, in order. */
  function Decisions(c: Settings, b: Bucket, es: seq<Event>): seq<bool>
    decreases |es|
  {
    if es == [] then []
    else (if es[0].Consume? then [Fits(c, b, es[0])] else []) + Decisions(c, Step(c, b, es[0]), es[1..])
  }

  /** Tokens handed out by the run. */
  function Granted(c: Settings, b: Bucket, es: seq<Event>): real
    decreases |es|
  {
    if es == [] then 0.0
    else (if Fits(c, b, es[0]) then es[0].amount else 0.0) + Granted(c, Step(c, b, es[0]), es[1..])
  }

  /** A non-decreasing clock and no negative withdrawals. */
  predicate Orderly(es: seq<Event>, from: int)
    decreases |es|
  {
    es == [] || (from <= es[0].at && (es[0].Consume? ==> es[0].amount >= 0.0) && Orderly(es[1..], es[0].at))
  }

  predicate InRange(c: Settings, b: Bucket) {
    0.0 <= b.tokens <= c.capacity
  }

  lemma EarnedAdds(c: Settings, x: int, y: int)
    ensures Earned(c, x + y) == Earned(c, x) + Earned(c, y)
  {
    var p, q := x as real / 1000.0, y as real / 1000.0;
    assert (x + y) as real / 1000.0 == p + q;
    assert (p + q) * c.refillRatePerSec == p * c.refillRatePerSec + q * c.refillRatePerSec;
  }

  lemma ProductSign(p: real, q: real)
    requires p >= 0.0 && q >= 0.0
    ensures p * q >= 0.0
  {
  }

  lemma EarnedNonNegative(c: Settings, ms: int)
    requires c.Valid() && ms >= 0
    ensures Earned(c, ms) >= 0.0
  {
    ProductSign(ms as real / 1000.0, c.refillRatePerSec);
  }

  lemma StepStaysInRange(c: Settings, b: Bucket, e: Event)
    requires c.Valid() && InRange(c, b) && b.lastRefill <= e.at && (e.Consume? ==> e.amount >= 0.0)
    ensures InRange(c, Refill(c, b, e.at)) && InRange(c, Step(c, b, e)) && Step(c, b, e).lastRefill == e.at
  {
    EarnedNonNegative(c, e.at - b.lastRefill);
  }

  lemma {:induction false} TokensStayInRange(c: Settings, b: Bucket, es: seq<Event>)
    requires c.Valid() && InRange(c, b) && Orderly(es, b.lastRefill)
    ensures InRange(c, Run(c, b, es))
    decreases |es|
  {
    if es != [] {
      StepStaysInRange(c, b, es[0]);
      TokensStayInRange(c, Step(c, b, es[0]), es[1..]);
    }
  }

  /** Everything granted from time `t` to time `u` was in the bucket at `t` or earned since. */
  lemma {:induction false} GrantedIsPaidFor(c: Settings, b: Bucket, es: seq<Event>, t: int, u: int)
    requires c.Valid() && InRange(c, b) && b.lastRefill <= t <= u && Orderly(es, t)
    requires forall i :: 0 <= i < |es| ==> es[i].at <= u
    ensures Granted(c, b, es) <= Refill(c, b, t).tokens + Earned(c, u - t)
    decreases |es|
  {
    EarnedNonNegative(c, t - b.lastRefill);
    EarnedNonNegative(c, u - t);
    if es != [] {
      var e := es[0];
      var b' := Step(c, b, e);
      StepStaysInRange(c, b, e);
      GrantedIsPaidFor(c, b', es[1..], e.at, u);
      EarnedAdds(c, t - b.lastRefill, e.at - t);
      EarnedAdds(c, e.at - t, u - e.at);
      EarnedNonNegative(c, e.at - t);
      assert Earned(c, e.at - e.at) == 0.0;
    }
  }

  lemma BurstWithin(c: Settings, start: int, before: seq<Event>, es: seq<Event>, t: int, u: int)
    requires c.Valid() && t <= u
    requires Orderly(before, start) && start <= t && forall i :: 0 <= i < |before| ==> before[i].at <= t
    requires Orderly(es, t) && forall i :: 0 <= i < |es| ==> es[i].at <= u
    ensures Granted(c, Run(c, Bucket(c.capacity, start), before), es) <= c.capacity + Earned(c, u - t)
  {
    var b := Run(c, Bucket(c.capacity, start), before);
    TokensStayInRange(c, Bucket(c.capacity, start), before);
    LastRefillWithin(c, Bucket(c.capacity, start), before, t);
    GrantedIsPaidFor(c, b, es, t, u);
  }

  lemma EarnedInNumbers(c: Settings, ms: int, seconds: real)
    requires seconds * 1000.0 == ms as real
    ensures Earned(c, ms) == seconds * c.refillRatePerSec
  {
    assert seconds == ms as real / 1000.0;
  }

  /** Burst bound: over any span of a run, however long it has been going, at most what the bucket holds when
      full plus the refill rate times the seconds of the span is granted. */
  lemma BurstBound(c: Settings, start: int, before: seq<Event>, es: seq<Event>, t: int, u: int,
                   seconds: real, earned: real)
    requires c.Valid() && t <= u && seconds * 1000.0 == (u - t) as real && earned == seconds * c.refillRatePerSec
    requires Orderly(before, start) && start <= t && forall i :: 0 <= i < |before| ==> before[i].at <= t
    requires Orderly(es, t) && forall i :: 0 <= i < |es| ==> es[i].at <= u
    ensures Granted(c, Run(c, Bucket(c.capacity, start), before), es) <= c.capacity + earned
  {
    BurstWithin(c, start, before, es, t, u);
    EarnedInNumbers(c, u - t, seconds);
  }

  /** What the withdrawals of a history ask for in all. */
  function Asked(es: seq<Event>): real
    decreases |es|
  {
    if es == [] then 0.0 else (if es[0].Consume? then es[0].amount else 0.0) + Asked(es[1..])
  }

  /** The other half: withdrawals that together ask for no more than the bucket holds are all granted. */
  lemma {:induction false} WhatFitsIsGranted(c: Settings, b: Bucket, es: seq<Event>)
    requires c.Valid() && InRange(c, b) && Orderly(es, b.lastRefill) && Asked(es) <= b.tokens
    ensures Granted(c, b, es) == Asked(es)
    ensures forall i :: 0 <= i < |Decisions(c, b, es)| ==> Decisions(c, b, es)[i]
    decreases |es|
  {
    if es != [] {
      var e := es[0];
      EarnedNonNegative(c, e.at - b.lastRefill);
      AskedNonNegative(es[1..], e.at);
      StepStaysInRange(c, b, e);
      WhatFitsIsGranted(c, Step(c, b, e), es[1..]);
    }
  }

  lemma {:induction false} AskedNonNegative(es: seq<Event>, from: int)
    requires Orderly(es, from)
    ensures Asked(es) >= 0.0
    decreases |es|
  {
    if es != [] {
      AskedNonNegative(es[1..], es[0].at);
    }
  }

  lemma {:induction false} LastRefillWithin(c: Settings, b: Bucket, es: seq<Event>, t: int)
    requires b.lastRefill <= t && forall i :: 0 <= i < |es| ==> es[i].at <= t
    ensures Run(c, b, es).lastRefill <= t
    decreases |es|
  {
    if es != [] {
      LastRefillWithin(c, Step(c, b, es[0]), es[1..], t);
    }
  }

  // ---- Polling ---------------------------------------------------------------------------------

  function WithoutPeeks(es: seq<Event>): seq<Event>
    decreases |es|
  {
    if es == [] then [] else (if es[0].Peek? then [] else [es[0]]) + WithoutPeeks(es[1..])
  }

  lemma RefillTwice(c: Settings, b: Bucket, t: int, u: int)
    requires c.Valid() && b.lastRefill <= t <= u
    ensures Refill(c, Refill(c, b, t), u) == Refill(c, b, u)
  {
    EarnedAdds(c, t - b.lastRefill, u - t);
    EarnedNonNegative(c, u - t);
  }

  /** Two buckets that no later refill can tell apart. */
  lemma {:induction false} PeeksAreInvisible(c: Settings, b: Bucket, b': Bucket, es: seq<Event>, now: int)
    requires c.Valid() && Orderly(es, now) && b.lastRefill <= now && b'.lastRefill <= now
    requires Refill(c, b, now) == Refill(c, b', now)
    ensures Decisions(c, b, es) == Decisions(c, b', WithoutPeeks(es))
    decreases |es|
  {
    if es != [] {
      var e := es[0];
      RefillTwice(c, b, now, e.at);
      RefillTwice(c, b', now, e.at);
      if e.Peek? {
        RefillTwice(c, b, e.at, e.at);
        PeeksAreInvisible(c, Step(c, b, e), b', es[1..], e.at);
        assert WithoutPeeks(es) == WithoutPeeks(es[1..]);
        assert Decisions(c, b, es) == Decisions(c, Step(c, b, e), es[1..]);
      } else {
        PeeksAreInvisible(c, Step(c, b, e), Step(c, b', e), es[1..], e.at);
        assert WithoutPeeks(es) == [e] + WithoutPeeks(es[1..]);
        assert WithoutPeeks(es)[1..] == WithoutPeeks(es[1..]);
      }
    }
  }

  /** Polling the level, which refills as a side effect, never changes a later decision. */
  lemma PollingChangesNothing(c: Settings, b: Bucket, es: seq<Event>)
    requires c.Valid() && Orderly(es, b.lastRefill)
    ensures Decisions(c, b, es) == Decisions(c, b, WithoutPeeks(es))
  {
    PeeksAreInvisible(c, b, b, es, b.lastRefill);
  }

  /** `toFixed(2)`: the nearest multiple of a hundredth, and of two equally near the one farther from zero. */
  function ToFixed2(x: real): real
    decreases x < 0.0
  {
    if x < 0.0 then -ToFixed2(-x) else (x * 100.0 + 0.5).Floor as real / 100.0
  }

  lemma ToFixedIsNearest(x: real, n: int) returns (m: int)
    ensures ToFixed2(x) == m as real / 100.0
    ensures -0.005 <= ToFixed2(x) - x <= 0.005
    ensures -0.005 < n as real / 100.0 - x < 0.005 ==> ToFixed2(x) == n as real / 100.0
    ensures x >= 0.0 ==> ToFixed2(x) - x > -0.005
  {
    m := (if x < 0.0 then -(-x * 100.0 + 0.5).Floor else (x * 100.0 + 0.5).Floor);
    assert ToFixed2(x) == m as real / 100.0;
    if -0.005 < n as real / 100.0 - x < 0.005 {
      assert -1.0 < (n - m) as real < 1.0;
    }
  }

  class TokenBucketLimiter {
    const capacity: real
    const refillRatePerSec: real
    var tokens: real
    var lastRefill: int

    function Config(): Settings {
      Settings(capacity, refillRatePerSec)
    }

    function Value(): Bucket reads this {
      Bucket(tokens, lastRefill)
    }

    /** Absent or zero settings fall back on 10 and 5. */
    constructor (capacity: real, refillRatePerSec: real, now: int)
      ensures this.capacity == if capacity == 0.0 then 10.0 else capacity
      ensures this.refillRatePerSec == if refillRatePerSec == 0.0 then 5.0 else refillRatePerSec
      ensures Value() == Bucket(this.capacity, now)
    {
      var cap := if capacity == 0.0 then 10.0 else capacity;
      this.capacity := cap;
      this.refillRatePerSec := if refillRatePerSec == 0.0 then 5.0 else refillRatePerSec;
      tokens, lastRefill := cap, now;
    }

    method RefillNow(now: int)
      modifies this
      ensures Value() == Refill(Config(), old(Value()), now)
    {
      var elapsedSeconds := (now - lastRefill) as real / 1000.0;
      tokens := MinReal(capacity, tokens + elapsedSeconds * refillRatePerSec);
      lastRefill := now;
    }

    method TryConsume(amount: real, now: int) returns (ok: bool)
      modifies this
      ensures ok == Fits(Config(), old(Value()), Consume(now, amount))
      ensures var level := old(tokens) + ((now - old(lastRefill)) as real / 1000.0) * refillRatePerSec;
              && (ok <==> amount <= capacity && amount <= level)
              && tokens == (if level < capacity then level else capacity) - (if ok then amount else 0.0)
              && lastRefill == now
      ensures Value() == Step(Config(), old(Value()), Consume(now, amount))
    {
      RefillNow(now);
      if tokens >= amount {
        tokens := tokens - amount;
        return true;
      }
      return false;
    }

    method GetAvailableTokens(now: int) returns (level: real)
      modifies this
      ensures Value() == Step(Config(), old(Value()), Peek(now)) && level == ToFixed2(tokens)
    {
      RefillNow(now);
      level := ToFixed2(tokens);
    }
  }
}
