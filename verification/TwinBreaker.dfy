/** The second breaker, src/common/utils/circuit-breaker-state.util.js, and how far it agrees with
    the first. It is driven as `canExecute`, run, `recordSuccess` or `recordFailure`. */
module TwinBreaker {
  import opened Wrappers
  import opened Breaker

  datatype Twin = Twin(mode: Mode, failureCount: int, lastStateChange: int)

  function TwinStart(now: int): Twin {
    Twin(Closed, 0, now)
  }

  /** `getState`, which also moves an expired open state on. */
  function Look(c: Settings, t: Twin, now: int): Twin {
    if t.mode == Open && now - t.lastStateChange >= c.cooldownMs then t.(mode := HalfOpen, lastStateChange := now) else t
  }

  predicate CanExecute(c: Settings, t: Twin, now: int) {
    Look(c, t, now).mode != Open
  }

  function TwinSuccess(t: Twin, now: int): Twin {
    Twin(Closed, 0, now)
  }

  function TwinFailure(c: Settings, t: Twin, now: int): Twin {
    var n := t.failureCount + 1;
    if n >= c.failureThreshold || t.mode == HalfOpen then Twin(Open, n, now) else t.(failureCount := n)
  }

  function TwinEnd(c: Settings, t: Twin, ok: bool, now: int): Twin {
    if ok then TwinSuccess(t, now) else TwinFailure(c, t, now)
  }

  function TwinAfterCall(c: Settings, t: Twin, k: Call): Twin {
    var t' := Look(c, t, k.begins);
    if CanExecute(c, t, k.begins) then TwinEnd(c, t', k.ok, k.ends) else t'
  }

  function TwinAfterCalls(c: Settings, t: Twin, calls: seq<Call>): Twin
    decreases |calls|
  {
    if calls == [] then t else TwinAfterCalls(c, TwinAfterCall(c, t, calls[0]), calls[1..])
  }

  function TwinDecisions(c: Settings, t: Twin, calls: seq<Call>): seq<bool>
    decreases |calls|
  {
    if calls == [] then []
    else [CanExecute(c, t, calls[0].begins)] + TwinDecisions(c, TwinAfterCall(c, t, calls[0]), calls[1..])
  }

  predicate Same(b: State, t: Twin) {
    && b.mode == t.mode
    && b.failureCount == t.failureCount
    && (b.mode == Open ==> b.openedAt == Some(t.lastStateChange))
  }

  lemma {:induction false} TwinsStaySame(c: Settings, b: State, t: Twin, calls: seq<Call>, sofar: nat, now: int)
    requires c.Valid() && Settled(c, b, sofar, now) && Same(b, t) && Serial(calls, now)
    ensures TwinDecisions(c, t, calls) == Decisions(c, b, calls)
    ensures Same(AfterCalls(c, b, calls), TwinAfterCalls(c, t, calls))
    decreases |calls|
  {
    if calls != [] {
      var k := calls[0];
      if b.mode == Open {
        RemainingIsExact(c, b, k.begins);
      }
      assert Admits(c, b, k.begins) == CanExecute(c, t, k.begins);
      var sofar' := if !Admits(c, b, k.begins) then sofar else if k.ok then 0 else sofar + 1;
      TwinsStaySame(c, AfterCall(c, b, k), TwinAfterCall(c, t, k), calls[1..], sofar', k.ends);
    }
  }

  /** With equal settings and calls one at a time, both breakers let the same calls through and end
      in the same state; both are away from closed exactly when the run of dispatched failures
      since the last success has reached the threshold. */
  lemma TwinsAgree(c: Settings, calls: seq<Call>, start: int)
    requires c.Valid() && Serial(calls, start)
    ensures TwinDecisions(c, TwinStart(start), calls) == Decisions(c, INITIAL, calls)
    ensures var b, t := AfterCalls(c, INITIAL, calls), TwinAfterCalls(c, TwinStart(start), calls);
            && b.mode == t.mode && b.failureCount == t.failureCount == Trailing(c, INITIAL, calls, 0)
            && (b.mode != Closed <==> Trailing(c, INITIAL, calls, 0) >= c.failureThreshold)
  {
    TwinsStaySame(c, INITIAL, TwinStart(start), calls, 0, start);
    OpenIffTrailing(c, INITIAL, calls, 0, start);
  }

  function TwinApply(c: Settings, t: Twin, e: Event): Twin {
    match e
    case CallStarts(at) => Look(c, t, at)
    case CallSettles(at, ok) => TwinEnd(c, t, ok, at)
  }

  function TwinRun(c: Settings, t: Twin, es: seq<Event>): Twin
    decreases |es|
  {
    if es == [] then t else TwinRun(c, TwinApply(c, t, es[0]), es[1..])
  }

  predicate Alike(b: State, t: Twin) {
    b.mode == t.mode && b.failureCount == t.failureCount
  }

  /** Both breakers show the same mode and count after every event of a history. */
  ghost predicate StayAlike(c: Settings, b: State, t: Twin, es: seq<Event>) {
    forall n :: 0 <= n <= |es| ==> Alike(Run(c, b, es[..n]), TwinRun(c, t, es[..n]))
  }

  /** A success that settles while the first breaker is open: the branch of `_onSuccess` that resets the
      count and leaves the mode. */
  predicate LateSuccess(b: State, e: Event) {
    b.mode == Open && e.CallSettles? && e.ok
  }

  ghost predicate NoLateSuccess(c: Settings, b: State, es: seq<Event>) {
    forall n :: 0 <= n < |es| ==> !LateSuccess(Run(c, b, es[..n]), es[n])
  }

  lemma PrefixStep(c: Settings, b: State, t: Twin, es: seq<Event>, n: nat)
    requires 0 < n <= |es|
    ensures es[..n][0] == es[0] && es[..n][1..] == es[1..][..n - 1]
    ensures Run(c, b, es[..n]) == Run(c, Apply(c, b, es[0]), es[1..][..n - 1])
    ensures TwinRun(c, t, es[..n]) == TwinRun(c, TwinApply(c, t, es[0]), es[1..][..n - 1])
  {
    assert es[..n][1..] == es[1..][..n - 1];
  }

  lemma StayAlikeStep(c: Settings, b: State, t: Twin, es: seq<Event>)
    requires es != []
    ensures StayAlike(c, b, t, es) <==>
            Alike(b, t) && StayAlike(c, Apply(c, b, es[0]), TwinApply(c, t, es[0]), es[1..])
  {
    var b', t' := Apply(c, b, es[0]), TwinApply(c, t, es[0]);
    assert es[..0] == [];
    forall n | 0 < n <= |es|
      ensures Run(c, b, es[..n]) == Run(c, b', es[1..][..n - 1])
      ensures TwinRun(c, t, es[..n]) == TwinRun(c, t', es[1..][..n - 1])
    {
      PrefixStep(c, b, t, es, n);
    }
    if StayAlike(c, b, t, es) {
      assert Alike(Run(c, b, es[..0]), TwinRun(c, t, es[..0]));
      forall m | 0 <= m <= |es[1..]|
        ensures Alike(Run(c, b', es[1..][..m]), TwinRun(c, t', es[1..][..m]))
      {
        assert Alike(Run(c, b, es[..m + 1]), TwinRun(c, t, es[..m + 1]));
      }
    }
  }

  lemma NoLateSuccessStep(c: Settings, b: State, es: seq<Event>)
    requires es != []
    ensures NoLateSuccess(c, b, es) <==> !LateSuccess(b, es[0]) && NoLateSuccess(c, Apply(c, b, es[0]), es[1..])
  {
    var b' := Apply(c, b, es[0]);
    assert es[..0] == [];
    forall n | 0 < n <= |es|
      ensures Run(c, b, es[..n]) == Run(c, b', es[1..][..n - 1])
    {
      PrefixStep(c, b, TwinStart(0), es, n);
    }
    if NoLateSuccess(c, b, es) {
      assert !LateSuccess(Run(c, b, es[..0]), es[0]);
      forall m | 0 <= m < |es[1..]|
        ensures !LateSuccess(Run(c, b', es[1..][..m]), es[1..][m])
      {
        assert !LateSuccess(Run(c, b, es[..m + 1]), es[m + 1]);
      }
    }
  }

  /** One event keeps corresponding breakers corresponding, unless it is a late success, which leaves the first
      open and closes the second. */
  lemma EventKeepsSame(c: Settings, b: State, t: Twin, e: Event, now: int)
    requires c.Valid() && Inv(c, b, now) && now <= e.at && Same(b, t)
    ensures e.CallStarts? ==> Admits(c, b, e.at) == CanExecute(c, t, e.at)
    ensures if LateSuccess(b, e) then Apply(c, b, e).mode == Open && TwinApply(c, t, e).mode == Closed
            else Same(Apply(c, b, e), TwinApply(c, t, e))
  {
    if b.mode == Open {
      RemainingIsExact(c, b, e.at);
    }
  }

  /** Over every history of overlapping calls, the two breakers show the same mode and count throughout if and
      only if no success settles while the first is open. */
  lemma {:induction false} TwinsAlikeIff(c: Settings, b: State, t: Twin, es: seq<Event>, now: int)
    requires c.Valid() && Inv(c, b, now) && Ordered(es, now) && Same(b, t)
    ensures StayAlike(c, b, t, es) <==> NoLateSuccess(c, b, es)
    decreases |es|
  {
    if es != [] {
      var b', t' := Apply(c, b, es[0]), TwinApply(c, t, es[0]);
      StayAlikeStep(c, b, t, es);
      NoLateSuccessStep(c, b, es);
      EventKeepsSame(c, b, t, es[0], now);
      if LateSuccess(b, es[0]) {
        assert es[1..][..0] == [];
        assert StayAlike(c, b', t', es[1..]) ==> Alike(Run(c, b', es[1..][..0]), TwinRun(c, t', es[1..][..0]));
      } else {
        StepKeepsInv(c, b, es[0], now);
        TwinsAlikeIff(c, b', t', es[1..], es[0].at);
      }
    }
  }

  /** As long as none does, they also let the same calls through. */
  lemma {:induction false} AlikeDispatchAlike(c: Settings, b: State, t: Twin, es: seq<Event>, now: int, k: nat)
    requires c.Valid() && Inv(c, b, now) && Ordered(es, now) && Same(b, t)
    requires NoLateSuccess(c, b, es) && k < |es| && es[k].CallStarts?
    ensures Admits(c, Run(c, b, es[..k]), es[k].at) == CanExecute(c, TwinRun(c, t, es[..k]), es[k].at)
    decreases |es|
  {
    NoLateSuccessStep(c, b, es);
    EventKeepsSame(c, b, t, es[0], now);
    if k == 0 {
      assert es[..0] == [];
    } else {
      StepKeepsInv(c, b, es[0], now);
      PrefixStep(c, b, t, es, k);
      AlikeDispatchAlike(c, Apply(c, b, es[0]), TwinApply(c, t, es[0]), es[1..], es[0].at, k - 1);
    }
  }

  lemma {:induction false} LastEvent(c: Settings, b: State, t: Twin, es: seq<Event>, e: Event)
    ensures Run(c, b, es + [e]) == Apply(c, Run(c, b, es), e)
    ensures TwinRun(c, t, es + [e]) == TwinApply(c, TwinRun(c, t, es), e)
    decreases |es|
  {
    if es == [] {
      assert [e][1..] == [];
    } else {
      assert (es + [e])[1..] == es[1..] + [e];
      LastEvent(c, Apply(c, b, es[0]), TwinApply(c, t, es[0]), es[1..], e);
    }
  }

  lemma FourEvents(c: Settings, b: State, t: Twin, e0: Event, e1: Event, e2: Event, e3: Event)
    ensures Run(c, b, [e0, e1, e2]) == Apply(c, Apply(c, Apply(c, b, e0), e1), e2)
    ensures Run(c, b, [e0, e1, e2, e3]) == Apply(c, Run(c, b, [e0, e1, e2]), e3)
    ensures TwinRun(c, t, [e0, e1, e2, e3]) == TwinApply(c, TwinApply(c, TwinApply(c, TwinApply(c, t, e0), e1), e2), e3)
  {
    assert [] + [e0] == [e0] && [e0] + [e1] == [e0, e1];
    assert [e0, e1] + [e2] == [e0, e1, e2] && [e0, e1, e2] + [e3] == [e0, e1, e2, e3];
    LastEvent(c, b, t, [], e0);
    LastEvent(c, b, t, [e0], e1);
    LastEvent(c, b, t, [e0, e1], e2);
    LastEvent(c, b, t, [e0, e1, e2], e3);
  }

  /** The smallest case: two calls overlap, one fails and trips the breaker, the other then succeeds. The second
      breaker is closed during the cooldown and admits a call the first refuses. */
  lemma OverlapSeparatesTwins()
    ensures var c := Settings(1, 10);
            var es := [CallStarts(0), CallStarts(0), CallSettles(1, false), CallSettles(2, true)];
            && !StayAlike(c, INITIAL, TwinStart(0), es)
            && !Admits(c, Run(c, INITIAL, es), 3) && CanExecute(c, TwinRun(c, TwinStart(0), es), 3)
  {
    var c := Settings(1, 10);
    var es := [CallStarts(0), CallStarts(0), CallSettles(1, false), CallSettles(2, true)];
    FourEvents(c, INITIAL, TwinStart(0), es[0], es[1], es[2], es[3]);
    assert es[..3] == [es[0], es[1], es[2]];
    assert LateSuccess(Run(c, INITIAL, es[..3]), es[3]);
    TwinsAlikeIff(c, INITIAL, TwinStart(0), es, 0);
  }

  /** The object itself. Its settings fall back on 3 and 5000 when absent or zero. */
  class CircuitBreakerStateMachine {
    const failureThreshold: int
    const cooldownMs: int
    var state: Mode
    var failureCount: int
    var lastStateChange: int

    function Config(): Settings {
      Settings(failureThreshold, cooldownMs)
    }

    function Value(): Twin reads this {
      Twin(state, failureCount, lastStateChange)
    }

    constructor (failureThreshold: Option<int>, cooldownMs: Option<int>, now: int)
      ensures this.failureThreshold == TimeOr(failureThreshold, 3) && this.cooldownMs == TimeOr(cooldownMs, 5000)
      ensures Value() == TwinStart(now)
    {
      this.failureThreshold := TimeOr(failureThreshold, 3);
      this.cooldownMs := TimeOr(cooldownMs, 5000);
      state, failureCount, lastStateChange := Closed, 0, now;
    }

    method GetState(now: int) returns (mode: Mode)
      modifies this
      ensures Value() == Look(Config(), old(Value()), now) && mode == Value().mode
    {
      if state == Open && now - lastStateChange >= cooldownMs {
        state := HalfOpen;
        lastStateChange := now;
      }
      mode := state;
    }

    method RecordSuccess(now: int)
      modifies this
      ensures Value() == TwinSuccess(old(Value()), now)
    {
      failureCount := 0;
      state := Closed;
      lastStateChange := now;
    }

    method RecordFailure(now: int)
      modifies this
      ensures Value() == TwinFailure(Config(), old(Value()), now)
    {
      failureCount := failureCount + 1;
      if failureCount >= failureThreshold || state == HalfOpen {
        state := Open;
        lastStateChange := now;
      }
    }

    method MayExecute(now: int) returns (may: bool)
      modifies this
      ensures Value() == Look(Config(), old(Value()), now) && may == CanExecute(Config(), old(Value()), now)
    {
      var mode := GetState(now);
      may := mode != Open;
    }
  }
}
