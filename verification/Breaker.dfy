/** The circuit breaker of src/common/utils/circuit-breaker.util.js as a state machine. A call is two
    events, its start and its end, so that calls may overlap: `call` awaits the wrapped function
    between them. The clock is an input. */
module Breaker {

  import opened Wrappers

  datatype Mode = Closed | Open | HalfOpen

  datatype Settings = Settings(failureThreshold: int, cooldownMs: int) {
    predicate Valid() { failureThreshold >= 1 && cooldownMs >= 0 }
  }

  datatype State = State(mode: Mode, failureCount: int, openedAt: Option<int>, nextAttemptAt: Option<int>)

  const INITIAL := State(Closed, 0, None, None)

  /** `x || y` on an optional timestamp: both null and 0 fall through. */
  function TimeOr(t: Option<int>, otherwise: int): int {
    if t.Some? && t.value != 0 then t.value else otherwise
  }

  function RemainingMs(c: Settings, b: State, now: int): int {
    var since := TimeOr(b.openedAt, if b.nextAttemptAt.Some? && b.nextAttemptAt.value != 0
                                     then b.nextAttemptAt.value - c.cooldownMs else now);
    c.cooldownMs - (now - since)
  }

  predicate Admits(c: Settings, b: State, now: int) {
    b.mode == Open ==> RemainingMs(c, b, now) <= 0
  }

  /** The part of `call` before the wrapped function runs. */
  function Begin(c: Settings, b: State, now: int): State {
    if b.mode == Open && RemainingMs(c, b, now) <= 0 then b.(mode := HalfOpen) else b
  }

  function OnSuccess(b: State): State {
    if b.mode == HalfOpen then State(Closed, 0, None, None) else b.(failureCount := 0)
  }

  function OnFailure(c: Settings, b: State, now: int): State {
    var n := b.failureCount + 1;
    if b.mode == HalfOpen || n >= c.failureThreshold
    then State(Open, n, Some(now), Some(now + c.cooldownMs))
    else b.(failureCount := n)
  }

  function End(c: Settings, b: State, ok: bool, now: int): State {
    if ok then OnSuccess(b) else OnFailure(c, b, now)
  }

  // ---- Overlapping calls -----------------------------------------------------------------------

  /** One event of a history in which calls may overlap in any way: a call starts, or some
      earlier call settles. Nothing ties an end to its start, so late results are included. */
  datatype Event = CallStarts(at: int) | CallSettles(at: int, ok: bool)

  function Apply(c: Settings, b: State, e: Event): State {
    match e
    case CallStarts(at) => Begin(c, b, at)
    case CallSettles(at, ok) => End(c, b, ok, at)
  }

  function Run(c: Settings, b: State, es: seq<Event>): State
    decreases |es|
  {
    if es == [] then b else Run(c, Apply(c, b, es[0]), es[1..])
  }

  predicate Ordered(es: seq<Event>, from: int) {
    && (forall i :: 0 <= i < |es| ==> from <= es[i].at)
    && (forall i, j :: 0 <= i < j < |es| ==> es[i].at <= es[j].at)
  }

  /** What every history keeps. */
  predicate Inv(c: Settings, b: State, now: int) {
    && b.failureCount >= 0
    && (b.mode == Closed ==> b.failureCount < c.failureThreshold && b.openedAt.None? && b.nextAttemptAt.None?)
    && (b.mode != Closed ==> b.openedAt.Some? && b.openedAt.value <= now
                             && b.nextAttemptAt == Some(b.openedAt.value + c.cooldownMs))
  }

  /** The truthiness chain around `_openedAt` never misreads the clock, not even at time 0. */
  lemma RemainingIsExact(c: Settings, b: State, now: int)
    requires Inv(c, b, now) && b.mode == Open
    ensures RemainingMs(c, b, now) <= 0 <==> now >= b.openedAt.value + c.cooldownMs
  {
  }

  lemma StepKeepsInv(c: Settings, b: State, e: Event, now: int)
    requires c.Valid() && Inv(c, b, now) && now <= e.at
    ensures Inv(c, Apply(c, b, e), e.at)
    ensures b.mode == Open && Apply(c, b, e).mode != Open ==> Apply(c, b, e).mode == HalfOpen && e.CallStarts?
    ensures b.mode == Open && Apply(c, b, e).mode == Open ==> Apply(c, b, e).openedAt.value >= b.openedAt.value
  {
  }

  lemma {:induction false} RunKeepsInv(c: Settings, b: State, es: seq<Event>, now: int)
    requires c.Valid() && Inv(c, b, now) && Ordered(es, now)
    ensures Inv(c, Run(c, b, es), if es == [] then now else es[|es| - 1].at)
    decreases |es|
  {
    if es != [] {
      StepKeepsInv(c, b, es[0], now);
      RunKeepsInv(c, Apply(c, b, es[0]), es[1..], es[0].at);
    }
  }

  predicate Dispatched(c: Settings, b: State, e: Event) {
    e.CallStarts? && Admits(c, b, e.at)
  }

  /** Either the trip is still being honoured, or its cooldown is over. */
  predicate Quiet(c: Settings, b: State, o: int, now: int) {
    now >= o + c.cooldownMs || (b.mode == Open && b.openedAt.Some? && b.openedAt.value >= o)
  }

  lemma {:induction false} QuietHolds(c: Settings, b: State, es: seq<Event>, o: int, now: int, k: nat)
    requires c.Valid() && Inv(c, b, now) && Ordered(es, now) && Quiet(c, b, o, now) && k < |es|
    requires Dispatched(c, Run(c, b, es[..k]), es[k])
    ensures es[k].at >= o + c.cooldownMs
    decreases |es|
  {
    StepKeepsInv(c, b, es[0], now);
    if k == 0 {
      assert es[..0] == [];
    } else {
      assert es[..k][0] == es[0] && es[..k][1..] == es[1..][..k - 1];
      QuietHolds(c, Apply(c, b, es[0]), es[1..], o, es[0].at, k - 1);
    }
  }

  /** Quiet period: over every interleaving of overlapping calls, once an event at time `o` has left
      the breaker open with that timestamp, no call is let through before `o + cooldownMs`. */
  lemma QuietPeriod(c: Settings, es: seq<Event>, start: int, trip: nat, k: nat)
    requires c.Valid() && Ordered(es, start) && trip < k < |es|
    requires var b := Run(c, INITIAL, es[..trip + 1]); b.mode == Open && b.openedAt == Some(es[trip].at)
    requires Dispatched(c, Run(c, INITIAL, es[..k]), es[k])
    ensures es[k].at >= es[trip].at + c.cooldownMs
  {
    var b := Run(c, INITIAL, es[..trip + 1]);
    RunKeepsInv(c, INITIAL, es[..trip + 1], start);
    RunSplits(c, INITIAL, es[..k], trip + 1);
    assert es[..k][..trip + 1] == es[..trip + 1];
    assert es[..k][trip + 1..] == es[trip + 1..][..k - trip - 1];
    QuietHolds(c, b, es[trip + 1..], es[trip].at, es[trip].at, k - trip - 1);
  }

  lemma {:induction false} RunSplits(c: Settings, b: State, es: seq<Event>, n: nat)
    requires n <= |es|
    ensures Run(c, b, es) == Run(c, Run(c, b, es[..n]), es[n..])
    decreases n
  {
    if n == 0 {
      assert es[0..] == es;
    } else {
      RunSplits(c, Apply(c, b, es[0]), es[1..], n - 1);
      assert es[1..][..n - 1] == es[..n][1..] && es[1..][n - 1..] == es[n..];
    }
  }

  /** The mode discipline over every interleaving: an open breaker is only ever left for the
      half-open state, by the start of a call; a closed breaker holds fewer failures than the
      threshold and no opening time, however late the results of older calls arrive. */
  lemma ModeDiscipline(c: Settings, es: seq<Event>, start: int)
    requires c.Valid() && Ordered(es, start)
    ensures var b := Run(c, INITIAL, es);
            b.mode == Closed ==> 0 <= b.failureCount < c.failureThreshold && b.openedAt == None
    ensures es != [] ==> var b := Run(c, INITIAL, es[..|es| - 1]);
            b.mode == Open ==> Run(c, INITIAL, es).mode == Open
                               || (Run(c, INITIAL, es).mode == HalfOpen && es[|es| - 1].CallStarts?)
  {
    RunKeepsInv(c, INITIAL, es, start);
    if es != [] {
      var n := |es| - 1;
      RunSplits(c, INITIAL, es, n);
      assert es[n..] == [es[n]];
    }
  }

  // ---- Calls one at a time ---------------------------------------------------------------------

  /** A call whose start and end are not interleaved with another call's. */
  datatype Call = Call(begins: int, ends: int, ok: bool)

  predicate Serial(calls: seq<Call>, from: int) {
    calls == [] || (from <= calls[0].begins <= calls[0].ends && Serial(calls[1..], calls[0].ends))
  }

  function AfterCall(c: Settings, b: State, k: Call): State {
    if Admits(c, b, k.begins) then End(c, Begin(c, b, k.begins), k.ok, k.ends) else b
  }

  function AfterCalls(c: Settings, b: State, calls: seq<Call>): State
    decreases |calls|
  {
    if calls == [] then b else AfterCalls(c, AfterCall(c, b, calls[0]), calls[1..])
  }

  /** Which of the calls reach the wrapped function. */
  function Decisions(c: Settings, b: State, calls: seq<Call>): seq<bool>
    decreases |calls|
  {
    if calls == [] then []
    else [Admits(c, b, calls[0].begins)] + Decisions(c, AfterCall(c, b, calls[0]), calls[1..])
  }

  function CountTrue(bs: seq<bool>): nat {
    if bs == [] then 0 else (if bs[0] then 1 else 0) + CountTrue(bs[1..])
  }

  predicate NoneSucceeds(calls: seq<Call>) {
    forall i :: 0 <= i < |calls| ==> !calls[i].ok
  }

  /** How many more failures the breaker takes before it makes callers wait. */
  function Free(c: Settings, b: State): int {
    match b.mode
    case Closed => c.failureThreshold - b.failureCount
    case HalfOpen => 1
    case Open => 0
  }

  lemma ProductStep(n: int, d: int)
    ensures (n + 1) * d == n * d + d
  {
  }

  /** From the moment the breaker is open, each dispatch costs one full cooldown. */
  lemma {:induction false} DispatchCost(c: Settings, b: State, calls: seq<Call>, now: int, last: int)
    requires c.Valid() && Inv(c, b, now) && Serial(calls, now) && NoneSucceeds(calls)
    requires forall i :: 0 <= i < |calls| ==> calls[i].begins <= last
    ensures var n := CountTrue(Decisions(c, b, calls)) - Free(c, b);
            n > 0 ==> n * c.cooldownMs <= last - (if b.mode == Open then b.openedAt.value else now)
    decreases |calls|
  {
    if calls != [] {
      var k := calls[0];
      var b' := AfterCall(c, b, k);
      var n' := CountTrue(Decisions(c, b', calls[1..])) - Free(c, b');
      if Admits(c, b, k.begins) {
        StepKeepsInv(c, b, CallStarts(k.begins), now);
        StepKeepsInv(c, Begin(c, b, k.begins), CallSettles(k.ends, false), k.begins);
        DispatchCost(c, b', calls[1..], k.ends, last);
        ProductStep(n', c.cooldownMs);
        assert CountTrue(Decisions(c, b, calls)) == 1 + CountTrue(Decisions(c, b', calls[1..]));
        if b.mode == Open {
          RemainingIsExact(c, b, k.begins);
        }
      } else {
        DispatchCost(c, b, calls[1..], k.ends, last);
      }
    }
  }

  /** Dispatch bound: with calls one at a time and none succeeding, at most
      failureThreshold + floor(span / cooldown) of them get through in any span, from any state
      that some history reaches. */
  lemma DispatchBound(c: Settings, history: seq<Event>, origin: int, calls: seq<Call>, from: int, spanMs: nat)
    requires c.Valid() && c.cooldownMs > 0
    requires Ordered(history, origin) && origin <= from
    requires forall i :: 0 <= i < |history| ==> history[i].at <= from
    requires Serial(calls, from) && NoneSucceeds(calls)
    requires forall i :: 0 <= i < |calls| ==> calls[i].begins <= from + spanMs
    ensures CountTrue(Decisions(c, Run(c, INITIAL, history), calls)) <= c.failureThreshold + spanMs / c.cooldownMs
  {
    var b := Run(c, INITIAL, history);
    RunKeepsInv(c, INITIAL, history, origin);
    SpanBound(c, b, calls, from, spanMs);
  }

  lemma SpanBound(c: Settings, b: State, calls: seq<Call>, from: int, spanMs: nat)
    requires c.Valid() && c.cooldownMs > 0 && Inv(c, b, from)
    requires Serial(calls, from) && NoneSucceeds(calls)
    requires forall i :: 0 <= i < |calls| ==> calls[i].begins <= from + spanMs
    ensures CountTrue(Decisions(c, b, calls)) <= c.failureThreshold + spanMs / c.cooldownMs
  {
    var free := if b.mode == Open then 1 else Free(c, b);
    if b.mode == Open {
      // The first dispatch out of an open breaker is free; its failure re-opens the breaker.
      FirstProbe(c, b, calls, from, from + spanMs);
    } else {
      DispatchCost(c, b, calls, from, from + spanMs);
    }
    CountFromCost(CountTrue(Decisions(c, b, calls)), free, c.failureThreshold, c.cooldownMs, spanMs);
  }

  lemma CountFromCost(count: int, free: int, threshold: int, d: int, s: nat)
    requires d > 0 && free <= threshold
    requires count - free > 0 ==> (count - free) * d <= s
    ensures count <= threshold + s / d
  {
    if count - free > 0 {
      QuotientBound(count - free, d, s);
    }
  }

  lemma QuotientBound(n: int, d: int, s: int)
    requires d > 0 && n * d <= s
    ensures n <= s / d
  {
    NextMultiple(s, d);
    if n > s / d {
      MulMonotone(s / d + 1, n, d);
    }
  }

  lemma NextMultiple(s: int, d: int)
    requires d > 0
    ensures s < (s / d + 1) * d
  {
    ProductStep(s / d, d);
  }

  lemma MulMonotone(x: int, y: int, d: int)
    requires x <= y && d >= 0
    ensures x * d <= y * d
  {
  }

  lemma {:induction false} FirstProbe(c: Settings, b: State, calls: seq<Call>, now: int, last: int)
    requires c.Valid() && Inv(c, b, now) && b.mode == Open && Serial(calls, now) && NoneSucceeds(calls)
    requires forall i :: 0 <= i < |calls| ==> calls[i].begins <= last
    ensures var n := CountTrue(Decisions(c, b, calls)) - 1; n > 0 ==> n * c.cooldownMs <= last - now
    decreases |calls|
  {
    if calls != [] {
      var k := calls[0];
      var b' := AfterCall(c, b, k);
      if Admits(c, b, k.begins) {
        StepKeepsInv(c, b, CallStarts(k.begins), now);
        StepKeepsInv(c, Begin(c, b, k.begins), CallSettles(k.ends, false), k.begins);
        DispatchCost(c, b', calls[1..], k.ends, last);
        assert b'.openedAt.value == k.ends && Free(c, b') == 0;
      } else {
        FirstProbe(c, b, calls[1..], k.ends, last);
      }
    }
  }

  /** Failing calls, each settled at once: `n` of them at time `at`, or one per cooldown from `at` on. */
  function Burst(n: nat, at: int): seq<Call> {
    if n == 0 then [] else [Call(at, at, false)] + Burst(n - 1, at)
  }

  function OnePerCooldown(c: Settings, n: nat, at: int): seq<Call> {
    if n == 0 then [] else [Call(at, at, false)] + OnePerCooldown(c, n - 1, at + c.cooldownMs)
  }

  lemma LaterSerial(calls: seq<Call>, from: int, earlier: int)
    requires Serial(calls, from) && earlier <= from
    ensures Serial(calls, earlier)
  {
  }

  lemma {:induction false} ProbesInOrder(c: Settings, n: nat, at: int)
    requires c.cooldownMs >= 0
    ensures var calls := OnePerCooldown(c, n, at);
            && |calls| == n && Serial(calls, at) && NoneSucceeds(calls)
            && forall i :: 0 <= i < n ==> calls[i].begins <= at + (n - 1) * c.cooldownMs
    decreases n
  {
    if n > 0 {
      var rest := OnePerCooldown(c, n - 1, at + c.cooldownMs);
      ProbesInOrder(c, n - 1, at + c.cooldownMs);
      assert OnePerCooldown(c, n, at)[1..] == rest;
      LaterSerial(rest, at + c.cooldownMs, at);
      ProductStep(n - 2, c.cooldownMs);
      MulMonotone(0, n - 1, c.cooldownMs);
    }
  }

  lemma ProbesAfter(c: Settings, k: nat, at: int)
    requires c.cooldownMs >= 0
    ensures var probes := OnePerCooldown(c, k, at + c.cooldownMs);
            && |probes| == k && Serial(probes, at) && NoneSucceeds(probes)
            && forall i :: 0 <= i < k ==> probes[i].begins <= at + k * c.cooldownMs
  {
    ProbesInOrder(c, k, at + c.cooldownMs);
    ProductStep(k - 1, c.cooldownMs);
    LaterSerial(OnePerCooldown(c, k, at + c.cooldownMs), at + c.cooldownMs, at);
  }

  lemma {:induction false} BurstInOrder(c: Settings, n: nat, k: nat, at: int)
    requires c.cooldownMs >= 0
    ensures var calls := Burst(n, at) + OnePerCooldown(c, k, at + c.cooldownMs);
            && |calls| == n + k && Serial(calls, at) && NoneSucceeds(calls)
            && forall i :: 0 <= i < n + k ==> calls[i].begins <= at + k * c.cooldownMs
    decreases n
  {
    var probes := OnePerCooldown(c, k, at + c.cooldownMs);
    MulMonotone(0, k, c.cooldownMs);
    if n == 0 {
      ProbesAfter(c, k, at);
      assert Burst(0, at) + probes == probes;
    } else {
      BurstInOrder(c, n - 1, k, at);
      assert (Burst(n, at) + probes)[1..] == Burst(n - 1, at) + probes;
    }
  }

  /** An open breaker lets through one call per cooldown, each failure starting the next cooldown. */
  lemma {:induction false} ProbesPass(c: Settings, b: State, n: nat, at: int)
    requires c.Valid() && Inv(c, b, at) && b.mode == Open && at == b.openedAt.value + c.cooldownMs
    ensures CountTrue(Decisions(c, b, OnePerCooldown(c, n, at))) == n
    decreases n
  {
    if n > 0 {
      var calls := OnePerCooldown(c, n, at);
      RemainingIsExact(c, b, at);
      ProbesPass(c, AfterCall(c, b, calls[0]), n - 1, at + c.cooldownMs);
      assert calls[1..] == OnePerCooldown(c, n - 1, at + c.cooldownMs);
    }
  }

  /** A closed breaker passes as many failing calls at once as it still tolerates, then one per cooldown. */
  lemma {:induction false} BurstThenProbes(c: Settings, b: State, n: nat, k: nat, at: int)
    requires c.Valid() && Inv(c, b, at) && b.mode == Closed && n == c.failureThreshold - b.failureCount
    ensures CountTrue(Decisions(c, b, Burst(n, at) + OnePerCooldown(c, k, at + c.cooldownMs))) == n + k
    decreases n
  {
    var probes := OnePerCooldown(c, k, at + c.cooldownMs);
    var calls := Burst(n, at) + probes;
    var b' := AfterCall(c, b, calls[0]);
    assert calls[1..] == Burst(n - 1, at) + probes;
    if n == 1 {
      assert calls[1..] == probes;
      ProbesPass(c, b', k, at + c.cooldownMs);
    } else {
      BurstThenProbes(c, b', n - 1, k, at);
    }
  }

  /** The bound is met for every threshold, cooldown and number of cooldowns in the span. */
  lemma DispatchBoundIsTight(c: Settings, k: nat) returns (calls: seq<Call>)
    requires c.Valid() && c.cooldownMs > 0
    ensures Serial(calls, 0) && NoneSucceeds(calls)
    ensures forall i :: 0 <= i < |calls| ==> calls[i].begins <= k * c.cooldownMs
    ensures CountTrue(Decisions(c, INITIAL, calls)) == c.failureThreshold + k
  {
    calls := Burst(c.failureThreshold, 0) + OnePerCooldown(c, k, c.cooldownMs);
    BurstInOrder(c, c.failureThreshold, k, 0);
    BurstThenProbes(c, INITIAL, c.failureThreshold, k, 0);
  }

  /** Without overlap the failure counter is the length of the trailing run of dispatched failures. */
  function Trailing(c: Settings, b: State, calls: seq<Call>, sofar: nat): nat
    decreases |calls|
  {
    if calls == [] then sofar
    else Trailing(c, AfterCall(c, b, calls[0]), calls[1..],
                  if !Admits(c, b, calls[0].begins) then sofar else if calls[0].ok then 0 else sofar + 1)
  }

  /** Between calls that do not overlap, the breaker is never half-open. */
  predicate Settled(c: Settings, b: State, sofar: nat, now: int) {
    && Inv(c, b, now)
    && b.mode != HalfOpen
    && b.failureCount == sofar
    && (b.mode == Open <==> sofar >= c.failureThreshold)
  }

  lemma {:induction false} OpenIffTrailing(c: Settings, b: State, calls: seq<Call>, sofar: nat, now: int)
    requires c.Valid() && Settled(c, b, sofar, now) && Serial(calls, now)
    ensures var b' := AfterCalls(c, b, calls);
            && (b'.mode != Closed <==> Trailing(c, b, calls, sofar) >= c.failureThreshold)
            && b'.failureCount == Trailing(c, b, calls, sofar)
    decreases |calls|
  {
    if calls != [] {
      var k := calls[0];
      var sofar' := if !Admits(c, b, k.begins) then sofar else if k.ok then 0 else sofar + 1;
      assert Settled(c, AfterCall(c, b, k), sofar', k.ends);
      OpenIffTrailing(c, AfterCall(c, b, k), calls[1..], sofar', k.ends);
    }
  }
}
