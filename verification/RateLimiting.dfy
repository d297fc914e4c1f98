/** The sliding-window limiter of src/common/utils/rate-limiter.util.js. It keeps a pruned list of
    timestamps per key; the reference keeps every allowed time since the last reset. */
module RateLimiting {

  datatype Settings = Settings(windowMs: int, maxRequests: int) {
    predicate Valid() { windowMs > 0 && maxRequests > 0 }
  }

  datatype Answer = Answer(allowed: bool, remaining: int, resetTimeMs: int, total: int)

  /** `timestamps.filter((t) => t > start)`. */
  function Newer(ts: seq<int>, start: int): seq<int>
    decreases |ts|
  {
    if ts == [] then []
    else Newer(ts[..|ts| - 1], start) + (if ts[|ts| - 1] > start then [ts[|ts| - 1]] else [])
  }

  function Decide(c: Settings, hits: seq<int>, now: int): (r: (seq<int>, Answer))
    requires c.Valid()
  {
    var ts := Newer(hits, now - c.windowMs);
    if |ts| >= c.maxRequests then (ts, Answer(false, 0, ts[0] + c.windowMs, |ts|))
    else
      var ts' := ts + [now];
      var left := c.maxRequests - |ts'|;
      (ts', Answer(true, if left > 0 then left else 0, ts'[0] + c.windowMs, |ts'|))
  }

  // ---- The reference: full history -------------------------------------------------------------

  /** How many of the times fall in the half-open window (lo, hi]. */
  function Count(ts: seq<int>, lo: int, hi: int): nat
    decreases |ts|
  {
    if ts == [] then 0
    else Count(ts[..|ts| - 1], lo, hi) + (if lo < ts[|ts| - 1] <= hi then 1 else 0)
  }

  /** The limiter's list beside every allowed time, and when the key was last touched. */
  datatype Log = Log(kept: seq<int>, allowed: seq<int>, last: int)

  datatype Event = CheckAt(at: int) | ResetAt(at: int)

  function Step(c: Settings, log: Log, e: Event): Log
    requires c.Valid()
  {
    match e
    case CheckAt(at) =>
      var (kept, answer) := Decide(c, log.kept, at);
      Log(kept, if answer.allowed then log.allowed + [at] else log.allowed, at)
    case ResetAt(at) => Log([], [], at)
  }

  function Run(c: Settings, log: Log, es: seq<Event>): Log
    requires c.Valid()
    decreases |es|
  {
    if es == [] then log else Run(c, Step(c, log, es[0]), es[1..])
  }

  function Empty(start: int): Log {
    Log([], [], start)
  }

  predicate Ordered(es: seq<Event>, from: int) {
    && (forall i :: 0 <= i < |es| ==> from <= es[i].at)
    && (forall i, j :: 0 <= i < j < |es| ==> es[i].at <= es[j].at)
  }

  predicate Sorted(ts: seq<int>) {
    forall i, j :: 0 <= i < j < |ts| ==> ts[i] <= ts[j]
  }

  predicate Gap(c: Settings, ts: seq<int>, j: nat)
    requires c.Valid() && c.maxRequests <= j < |ts|
  {
    ts[j - c.maxRequests] <= ts[j] - c.windowMs
  }

  /** Any `maxRequests + 1` consecutive allowed times span at least a window. */
  predicate Spaced(c: Settings, ts: seq<int>)
    requires c.Valid()
  {
    forall j: nat :: c.maxRequests <= j < |ts| ==> Gap(c, ts, j)
  }

  predicate Inv(c: Settings, log: Log)
    requires c.Valid()
  {
    && log.kept == Newer(log.allowed, log.last - c.windowMs)
    && |log.kept| <= c.maxRequests
    && Sorted(log.allowed)
    && AllUpTo(log.allowed, log.last)
    && Spaced(c, log.allowed)
  }

  lemma {:induction false} PruneTwice(ts: seq<int>, a: int, b: int)
    requires a <= b
    ensures Newer(Newer(ts, a), b) == Newer(ts, b)
    decreases |ts|
  {
    if ts != [] {
      var last := ts[|ts| - 1];
      PruneTwice(ts[..|ts| - 1], a, b);
      var inner := Newer(ts[..|ts| - 1], a);
      if last > a {
        assert (inner + [last])[..|inner|] == inner;
      } else {
        assert Newer(ts, a) == inner;
      }
    }
  }

  lemma {:induction false} NewerCounts(ts: seq<int>, lo: int, hi: int)
    requires forall i :: 0 <= i < |ts| ==> ts[i] <= hi
    ensures |Newer(ts, lo)| == Count(ts, lo, hi)
    decreases |ts|
  {
    if ts != [] {
      NewerCounts(ts[..|ts| - 1], lo, hi);
    }
  }

  lemma {:induction false} AllOld(ts: seq<int>, lo: int)
    requires forall i :: 0 <= i < |ts| ==> ts[i] <= lo
    ensures Newer(ts, lo) == []
    decreases |ts|
  {
    if ts != [] {
      AllOld(ts[..|ts| - 1], lo);
    }
  }

  lemma {:induction false} NewerFrom(ts: seq<int>, lo: int, k: nat)
    requires k <= |ts|
    requires forall i :: 0 <= i < k ==> ts[i] <= lo
    requires forall i :: k <= i < |ts| ==> ts[i] > lo
    ensures Newer(ts, lo) == ts[k..]
    decreases |ts|
  {
    var n := |ts| - 1;
    if k == |ts| {
      AllOld(ts, lo);
    } else {
      NewerFrom(ts[..n], lo, k);
      assert ts[..n][k..] + [ts[n]] == ts[k..];
    }
  }

  /** Where the newer times of a sorted list begin. */
  function FirstNewer(ts: seq<int>, lo: int): (k: nat)
    requires Sorted(ts)
    ensures k <= |ts|
    ensures forall i :: 0 <= i < k ==> ts[i] <= lo
    ensures forall i :: k <= i < |ts| ==> ts[i] > lo
    decreases |ts|
  {
    if ts == [] then 0
    else if ts[|ts| - 1] <= lo then |ts|
    else FirstNewer(ts[..|ts| - 1], lo)
  }

  /** Pruning a sorted list is dropping a prefix. */
  lemma NewerIsSuffix(ts: seq<int>, lo: int)
    requires Sorted(ts)
    ensures |Newer(ts, lo)| == |ts| - FirstNewer(ts, lo)
    ensures Newer(ts, lo) == ts[FirstNewer(ts, lo)..]
  {
    NewerFrom(ts, lo, FirstNewer(ts, lo));
  }

  lemma {:induction false} NewerNoLonger(ts: seq<int>, lo: int)
    ensures |Newer(ts, lo)| <= |ts|
    decreases |ts|
  {
    if ts != [] {
      NewerNoLonger(ts[..|ts| - 1], lo);
    }
  }

  lemma CountAppend(ts: seq<int>, t: int, lo: int, hi: int)
    ensures Count(ts + [t], lo, hi) == Count(ts, lo, hi) + (if lo < t <= hi then 1 else 0)
  {
    assert (ts + [t])[..|ts|] == ts;
  }

  lemma NewerAppend(ts: seq<int>, t: int, lo: int)
    ensures Newer(ts + [t], lo) == Newer(ts, lo) + (if t > lo then [t] else [])
  {
    assert (ts + [t])[..|ts|] == ts;
  }

  /** The list `Decide` works on is the full history, pruned. */
  lemma PrunedHistory(c: Settings, log: Log, at: int)
    requires c.Valid() && Inv(c, log) && log.last <= at
    ensures var ts := Newer(log.kept, at - c.windowMs);
            && ts == Newer(log.allowed, at - c.windowMs)
            && |ts| == Count(log.allowed, at - c.windowMs, at)
            && |ts| <= c.maxRequests
  {
    PruneTwice(log.allowed, log.last - c.windowMs, at - c.windowMs);
    NewerCounts(log.allowed, at - c.windowMs, at);
    NewerNoLonger(log.kept, at - c.windowMs);
  }

  /** The pruned list answers exactly as the full history would. */
  lemma AnswerFromHistory(c: Settings, log: Log, at: int)
    requires c.Valid() && Inv(c, log) && log.last <= at
    ensures var answer := Decide(c, log.kept, at).1;
            && (answer.allowed <==> Count(log.allowed, at - c.windowMs, at) < c.maxRequests)
            && answer.total == Count(Step(c, log, CheckAt(at)).allowed, at - c.windowMs, at)
            && answer.remaining == c.maxRequests - answer.total
  {
    PrunedHistory(c, log, at);
    CountAppend(log.allowed, at, at - c.windowMs, at);
  }

  predicate AllUpTo(ts: seq<int>, hi: int) {
    forall i :: 0 <= i < |ts| ==> ts[i] <= hi
  }

  lemma AppendKeepsOrder(h: seq<int>, at: int)
    requires Sorted(h) && AllUpTo(h, at)
    ensures Sorted(h + [at]) && AllUpTo(h + [at], at)
  {
  }

  lemma AppendKeepsSpacing(c: Settings, h: seq<int>, at: int)
    requires c.Valid() && Sorted(h) && Spaced(c, h)
    requires |Newer(h, at - c.windowMs)| < c.maxRequests
    ensures Spaced(c, h + [at])
  {
    NewerIsSuffix(h, at - c.windowMs);
    forall j: nat | c.maxRequests <= j < |h + [at]|
      ensures Gap(c, h + [at], j)
    {
      if j < |h| {
        assert Gap(c, h, j);
      }
    }
  }

  lemma SpacedPrefix(c: Settings, ts: seq<int>, n: nat)
    requires c.Valid() && Spaced(c, ts) && n <= |ts|
    ensures Spaced(c, ts[..n])
  {
    forall j: nat | c.maxRequests <= j < n
      ensures Gap(c, ts[..n], j)
    {
      assert Gap(c, ts, j);
    }
  }

  /** What an allowed check leaves. */
  lemma AllowedShape(c: Settings, log: Log, at: int)
    requires c.Valid() && Inv(c, log) && log.last <= at && Decide(c, log.kept, at).1.allowed
    ensures |Newer(log.allowed, at - c.windowMs)| < c.maxRequests
    ensures Step(c, log, CheckAt(at)) == Log(Newer(log.allowed, at - c.windowMs) + [at], log.allowed + [at], at)
  {
    PrunedHistory(c, log, at);
  }

  lemma ExtendedKeepsInv(c: Settings, h: seq<int>, at: int)
    requires c.Valid() && Sorted(h) && Spaced(c, h) && AllUpTo(h, at)
    requires |Newer(h, at - c.windowMs)| < c.maxRequests
    ensures Inv(c, Log(Newer(h, at - c.windowMs) + [at], h + [at], at))
  {
    NewerAppend(h, at, at - c.windowMs);
    AppendKeepsOrder(h, at);
    AppendKeepsSpacing(c, h, at);
  }

  lemma AllowedKeepsInv(c: Settings, log: Log, at: int)
    requires c.Valid() && Inv(c, log) && log.last <= at && Decide(c, log.kept, at).1.allowed
    ensures Inv(c, Step(c, log, CheckAt(at)))
  {
    AllowedShape(c, log, at);
    ExtendedKeepsInv(c, log.allowed, at);
  }

  lemma RefusedKeepsInv(c: Settings, log: Log, at: int)
    requires c.Valid() && Inv(c, log) && log.last <= at && !Decide(c, log.kept, at).1.allowed
    ensures Inv(c, Step(c, log, CheckAt(at)))
  {
    PrunedHistory(c, log, at);
  }

  lemma StepKeepsInv(c: Settings, log: Log, e: Event)
    requires c.Valid() && Inv(c, log) && log.last <= e.at
    ensures Inv(c, Step(c, log, e))
  {
    if e.CheckAt? {
      if Decide(c, log.kept, e.at).1.allowed {
        AllowedKeepsInv(c, log, e.at);
      } else {
        RefusedKeepsInv(c, log, e.at);
      }
    }
  }

  lemma {:induction false} RunKeepsInv(c: Settings, log: Log, es: seq<Event>)
    requires c.Valid() && Inv(c, log) && Ordered(es, log.last)
    ensures Inv(c, Run(c, log, es)) && Run(c, log, es).last == if es == [] then log.last else es[|es| - 1].at
    decreases |es|
  {
    if es != [] {
      StepKeepsInv(c, log, es[0]);
      RunKeepsInv(c, Step(c, log, es[0]), es[1..]);
    }
  }

  /** Refinement over whole runs: after any history of checks and resets with a non-decreasing clock,
      the next check is allowed exactly if fewer than `maxRequests` earlier calls were allowed in the
      window that ends now. */
  lemma SlidingWindowRefinesHistory(c: Settings, es: seq<Event>, start: int, at: int)
    requires c.Valid() && Ordered(es, start) && start <= at && (es != [] ==> es[|es| - 1].at <= at)
    ensures var log := Run(c, Empty(start), es);
            Decide(c, log.kept, at).1.allowed <==> Count(log.allowed, at - c.windowMs, at) < c.maxRequests
  {
    RunKeepsInv(c, Empty(start), es);
    AnswerFromHistory(c, Run(c, Empty(start), es), at);
  }

  /** After a reset the key starts afresh: its next check is allowed and is the only one counted. */
  lemma ResetStartsAfresh(c: Settings, log: Log, at: int, next: int)
    requires c.Valid() && at <= next
    ensures var after := Step(c, log, ResetAt(at));
            && after.allowed == []
            && Decide(c, after.kept, next) == ([next], Answer(true, c.maxRequests - 1, next + c.windowMs, 1))
  {
    assert [] + [next] == [next];
  }

  lemma {:induction false} CountAfter(ts: seq<int>, k: nat, lo: int, hi: int)
    requires k <= |ts| && forall i :: 0 <= i < k ==> ts[i] <= lo
    ensures Count(ts, lo, hi) <= |ts| - k
    decreases |ts|
  {
    if |ts| > k {
      CountAfter(ts[..|ts| - 1], k, lo, hi);
    } else if ts != [] {
      CountAfter(ts[..|ts| - 1], k - 1, lo, hi);
    }
  }

  lemma {:induction false} SpacedWindows(c: Settings, ts: seq<int>, t: int)
    requires c.Valid() && Sorted(ts) && Spaced(c, ts)
    ensures Count(ts, t - c.windowMs, t) <= c.maxRequests
    decreases |ts|
  {
    var n := |ts|;
    if n > 0 {
      if ts[n - 1] > t || n <= c.maxRequests {
        SpacedPrefix(c, ts, n - 1);
        SpacedWindows(c, ts[..n - 1], t);
        CountAfter(ts, 0, t - c.windowMs, t);
      } else {
        assert Gap(c, ts, n - 1);
        CountAfter(ts, n - c.maxRequests, t - c.windowMs, t);
      }
    }
  }

  /** No window of length `windowMs`, wherever it ends, holds more than `maxRequests` allowed calls. */
  lemma EveryWindowIsBounded(c: Settings, es: seq<Event>, start: int, t: int)
    requires c.Valid() && Ordered(es, start)
    ensures Count(Run(c, Empty(start), es).allowed, t - c.windowMs, t) <= c.maxRequests
  {
    RunKeepsInv(c, Empty(start), es);
    SpacedWindows(c, Run(c, Empty(start), es).allowed, t);
  }

  function Poll(c: Settings, kept: seq<int>, times: seq<int>): seq<int>
    requires c.Valid()
    decreases |times|
  {
    if times == [] then kept else Poll(c, Decide(c, kept, times[0]).0, times[1..])
  }

  lemma {:induction false} NothingToPrune(ts: seq<int>, lo: int)
    requires forall i :: 0 <= i < |ts| ==> ts[i] > lo
    ensures Newer(ts, lo) == ts
    decreases |ts|
  {
    if ts != [] {
      NothingToPrune(ts[..|ts| - 1], lo);
    }
  }

  lemma {:induction false} FullUntilReset(c: Settings, kept: seq<int>, times: seq<int>, reset: int)
    requires c.Valid() && Sorted(kept) && |kept| == c.maxRequests && reset == kept[0] + c.windowMs
    requires forall i :: 0 <= i < |times| ==> times[i] < reset
    ensures Poll(c, kept, times) == kept
    decreases |times|
  {
    if times != [] {
      NothingToPrune(kept, times[0] - c.windowMs);
      FullUntilReset(c, kept, times[1..], reset);
    }
  }

  lemma FullAnswers(c: Settings, kept: seq<int>, next: int)
    requires c.Valid() && Sorted(kept) && |kept| == c.maxRequests
    ensures Decide(c, kept, next).1.allowed <==> next >= kept[0] + c.windowMs
  {
    if next < kept[0] + c.windowMs {
      NothingToPrune(kept, next - c.windowMs);
    } else {
      NewerIsSuffix(kept, next - c.windowMs);
    }
  }

  lemma RefusedList(c: Settings, log: Log, at: int)
    requires c.Valid() && Inv(c, log) && log.last <= at && !Decide(c, log.kept, at).1.allowed
    ensures var (kept, answer) := Decide(c, log.kept, at);
            Sorted(kept) && |kept| == c.maxRequests && answer.resetTimeMs == kept[0] + c.windowMs
  {
    PrunedHistory(c, log, at);
    NewerStaysSorted(log.allowed, at - c.windowMs, at);
  }

  /** A refusal names the exact time of the next success: whoever keeps asking is refused at every
      moment before `resetTimeMs`, and the first check at or after it is allowed. */
  lemma RefusalNamesFirstSuccess(c: Settings, log: Log, at: int, kept: seq<int>, answer: Answer,
                                 times: seq<int>, next: int)
    requires c.Valid() && Inv(c, log) && log.last <= at <= next
    requires Decide(c, log.kept, at) == (kept, answer) && !answer.allowed
    requires forall i :: 0 <= i < |times| ==> at <= times[i] < answer.resetTimeMs
    ensures Decide(c, Poll(c, kept, times), next).1.allowed <==> next >= answer.resetTimeMs
  {
    RefusedList(c, log, at);
    FullUntilReset(c, kept, times, answer.resetTimeMs);
    FullAnswers(c, kept, next);
  }

  lemma OldestLeavesFirst(ts: seq<int>, lo: int)
    requires Sorted(ts) && ts != []
    ensures |Newer(ts, lo)| < |ts| <==> ts[0] <= lo
  {
    if ts[0] > lo {
      NothingToPrune(ts, lo);
    } else {
      NewerIsSuffix(ts, lo);
    }
  }

  lemma NewerStaysSorted(ts: seq<int>, lo: int, hi: int)
    requires Sorted(ts) && forall i :: 0 <= i < |ts| ==> ts[i] <= hi
    ensures Sorted(Newer(ts, lo)) && Sorted(Newer(ts, lo) + [hi])
  {
    NewerIsSuffix(ts, lo);
    var k := |ts| - |Newer(ts, lo)|;
    assert forall i :: 0 <= i < |Newer(ts, lo)| ==> Newer(ts, lo)[i] == ts[k + i];
  }

  lemma KeptIsSorted(c: Settings, log: Log, at: int)
    requires c.Valid() && Inv(c, log) && log.last <= at
    ensures var (kept, answer) := Decide(c, log.kept, at);
            Sorted(kept) && kept != [] && answer.resetTimeMs == kept[0] + c.windowMs
  {
    PrunedHistory(c, log, at);
    NewerStaysSorted(log.allowed, at - c.windowMs, at);
  }

  /** Allowed or refused, `resetTimeMs` is the moment the oldest counted call leaves the window. */
  lemma ResetTimeIsNextExpiry(c: Settings, log: Log, at: int, kept: seq<int>, answer: Answer, later: int)
    requires c.Valid() && Inv(c, log) && log.last <= at && Decide(c, log.kept, at) == (kept, answer)
    ensures |Newer(kept, later - c.windowMs)| < |kept| <==> later >= answer.resetTimeMs
  {
    KeptIsSorted(c, log, at);
    OldestLeavesFirst(kept, later - c.windowMs);
  }

  // ---- The limiter object ----------------------------------------------------------------------

  function KeptLists(logs: map<string, Log>): map<string, seq<int>> {
    map k | k in logs :: logs[k].kept
  }

  predicate AllInv(c: Settings, logs: map<string, Log>, clock: int)
    requires c.Valid()
  {
    forall k :: k in logs ==> LogInv(c, logs[k], clock)
  }

  predicate LogInv(c: Settings, log: Log, clock: int)
    requires c.Valid()
  {
    log.last <= clock && Inv(c, log)
  }

  function LogIn(logs: map<string, Log>, key: string, clock: int): Log {
    if key in logs then logs[key] else Empty(clock)
  }

  lemma StoreKept(c: Settings, logs: map<string, Log>, key: string, clock: int, now: int)
    requires c.Valid()
    ensures var log := LogIn(logs, key, clock);
            KeptLists(logs[key := Step(c, log, CheckAt(now))]) == KeptLists(logs)[key := Decide(c, log.kept, now).0]
  {
  }

  lemma LaterLogInv(c: Settings, log: Log, clock: int, now: int)
    requires c.Valid() && LogInv(c, log, clock) && clock <= now
    ensures LogInv(c, log, now)
  {
  }

  lemma EmptyLogInv(c: Settings, clock: int)
    requires c.Valid()
    ensures LogInv(c, Empty(clock), clock)
  {
  }

  lemma CheckedLogInv(c: Settings, log: Log, clock: int, now: int)
    requires c.Valid() && LogInv(c, log, clock) && clock <= now
    ensures LogInv(c, Step(c, log, CheckAt(now)), now)
  {
    StepKeepsInv(c, log, CheckAt(now));
  }

  lemma CheckKeepsAll(c: Settings, logs: map<string, Log>, key: string, clock: int, now: int)
    requires c.Valid() && AllInv(c, logs, clock) && clock <= now
    ensures AllInv(c, logs[key := Step(c, LogIn(logs, key, clock), CheckAt(now))], now)
  {
    var logs' := logs[key := Step(c, LogIn(logs, key, clock), CheckAt(now))];
    EmptyLogInv(c, clock);
    CheckedLogInv(c, LogIn(logs, key, clock), clock, now);
    forall k | k in logs'
      ensures LogInv(c, logs'[k], now)
    {
      if k != key {
        LaterLogInv(c, logs[k], clock, now);
      }
    }
  }

  /** What the object's answers mean, key by key: the limit is counted over the key's own history. */
  lemma CheckMeansHistory(c: Settings, logs: map<string, Log>, key: string, clock: int, now: int)
    requires c.Valid() && AllInv(c, logs, clock) && clock <= now
    ensures var log := LogIn(logs, key, clock);
            var answer := Decide(c, log.kept, now).1;
            && (answer.allowed <==> Count(log.allowed, now - c.windowMs, now) < c.maxRequests)
            && answer.total == Count(Step(c, log, CheckAt(now)).allowed, now - c.windowMs, now)
            && answer.remaining == c.maxRequests - answer.total
  {
    AnswerFromHistory(c, LogIn(logs, key, clock), now);
  }

  class RateLimiter {
    const windowMs: int
    const maxRequests: int
    var hits: map<string, seq<int>>
    /** The reference history of each key, kept beside the list. */
    ghost var logs: map<string, Log>
    ghost var clock: int

    function Config(): Settings {
      Settings(windowMs, maxRequests)
    }

    ghost predicate Valid() reads this {
      && Config().Valid()
      && hits == KeptLists(logs)
      && AllInv(Config(), logs, clock)
    }

    ghost function LogOf(key: string): Log reads this {
      LogIn(logs, key, clock)
    }

    constructor (windowMs: int, maxRequests: int, ghost now: int)
      ensures Valid() <==> windowMs >= 0 && maxRequests >= 0
      ensures hits == map[] && clock == now
      ensures this.windowMs == if windowMs == 0 then 60000 else windowMs
      ensures this.maxRequests == if maxRequests == 0 then 100 else maxRequests
    {
      this.windowMs := if windowMs == 0 then 60000 else windowMs;
      this.maxRequests := if maxRequests == 0 then 100 else maxRequests;
      hits, logs, clock := map[], map[], now;
    }

    /** Answers from the pruned list; `CheckMeansHistory` says what that answer is in terms of the history. */
    method Check(key: string, now: int) returns (answer: Answer)
      requires Valid() && clock <= now
      modifies this
      ensures Valid() && clock == now
      ensures logs == old(logs)[key := Step(Config(), old(LogOf(key)), CheckAt(now))]
      ensures answer == Decide(Config(), old(LogOf(key)).kept, now).1
    {
      ghost var log' := Step(Config(), LogOf(key), CheckAt(now));
      CheckKeepsAll(Config(), logs, key, clock, now);
      StoreKept(Config(), logs, key, clock, now);
      var timestamps := if key in hits then hits[key] else [];
      timestamps, answer := PruneAndDecide(timestamps, now);
      hits := hits[key := timestamps];
      logs := logs[key := log'];
      clock := now;
    }

    method PruneAndDecide(stored: seq<int>, now: int) returns (timestamps: seq<int>, answer: Answer)
      requires Config().Valid()
      ensures (timestamps, answer) == Decide(Config(), stored, now)
    {
      var windowStart := now - windowMs;
      timestamps := Newer(stored, windowStart);
      if |timestamps| >= maxRequests {
        var oldest := timestamps[0];
        var resetTimeMs := oldest + windowMs;
        return timestamps, Answer(false, 0, resetTimeMs, |timestamps|);
      }
      timestamps := timestamps + [now];
      var left := maxRequests - |timestamps|;
      answer := Answer(true, if left > 0 then left else 0, timestamps[0] + windowMs, |timestamps|);
    }

    method Reset(key: string)
      requires Valid()
      modifies this
      ensures Valid() && clock == old(clock)
      ensures hits == old(hits) - {key} && logs == old(logs) - {key}
    {
      hits := hits - {key};
      logs := logs - {key};
    }

    method Clear()
      requires Valid()
      modifies this
      ensures Valid() && clock == old(clock) && hits == map[] && logs == map[]
    {
      hits, logs := map[], map[];
    }
  }
}
