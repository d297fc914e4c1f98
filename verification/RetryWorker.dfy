/** The background worker `retryPendingHcmSyncs` of src/modules/hcm/hcm-sync.service.js. What HCM answers
    is arbitrary; other writers are assumed still. */
module RetryWorker {
  import opened Collections
  import opened Ledger

  const MAX_PENDING_SYNC_RETRIES: nat := 10
  const BATCH: nat := 50

  /** `validateRequest`: null, `valid !== true`, `valid === true`, or an exception. */
  datatype Validation = Unavailable | Invalid | Valid | ValidationRaised

  /** `notifyApproval`: null, `success === false`, anything else, or an exception. */
  datatype Approval = NoAnswer | Refused | Acknowledged | ApprovalRaised

  datatype Reply = Reply(validation: Validation, approval: Approval)

  /** What HCM would answer for each request during one run. */
  type Replies = nat -> Reply

  /** `_updateSyncAttempt`. */
  function Attempted(r: Request, status: SyncStatus, validated: bool): Request {
    r.(syncStatus := status, hcmValidated := validated, syncAttempts := r.syncAttempts + 1)
  }

  function RetryValidationOnly(r: Request, v: Validation): Request {
    match (if r.hcmValidated then Valid else v)
    case Unavailable => Attempted(r, SyncPending, r.hcmValidated)
    case Invalid => Attempted(r, SyncFailed, false)
    case Valid => Attempted(r, SyncSuccess, true)
    case ValidationRaised => Attempted(r, SyncPending, r.hcmValidated)
  }

  function RetryApprovalFlow(r: Request, v: Validation, a: Approval): Request {
    match (if r.hcmValidated then Valid else v)
    case Unavailable => Attempted(r, SyncPending, r.hcmValidated)
    case Invalid => Attempted(r, SyncFailed, false)
    case ValidationRaised => Attempted(r, SyncPending, r.hcmValidated)
    case Valid =>
      match a
      case Acknowledged => Attempted(r, SyncSuccess, true)
      case NoAnswer => Attempted(r, SyncPending, true)
      case Refused => Attempted(r, SyncPending, true)
      case ApprovalRaised => Attempted(r, SyncPending, r.hcmValidated)
  }

  function RetryOne(r: Request, reply: Reply): Request {
    if r.syncAttempts >= MAX_PENDING_SYNC_RETRIES then r.(syncStatus := SyncFailed)
    else
      match r.status
      case Rejected => Attempted(r, SyncSkipped, r.hcmValidated)
      case Cancelled => Attempted(r, SyncSkipped, r.hcmValidated)
      case Pending => RetryValidationOnly(r, reply.validation)
      case Approved => RetryApprovalFlow(r, reply.validation, reply.approval)
  }

  /** What one visit decides. Rejected and cancelled requests are skipped; an active one succeeds just when it
      is validated - now or before - and, if approved, HCM acknowledged it; it fails just when HCM
      calls it invalid; otherwise it waits. A validation sticks unless the acknowledgement call after it
      raises. A request out of attempts fails. */
  lemma VisitVerdict(r: Request, reply: Reply)
    requires r.syncStatus == SyncPending
    ensures var r' := RetryOne(r, reply);
            var valid := r.hcmValidated || reply.validation == Valid;
            && r'.status == r.status
            && (r.syncAttempts >= 10 ==> r' == r.(syncStatus := SyncFailed))
            && (r.syncAttempts < 10 ==>
                 && r'.syncAttempts == r.syncAttempts + 1
                 && (r'.syncStatus == SyncSkipped <==> !Active(r))
                 && (r'.syncStatus == SyncSuccess <==>
                       Active(r) && valid && (r.status == Approved ==> reply.approval == Acknowledged))
                 && (r'.syncStatus == SyncFailed <==> Active(r) && !r.hcmValidated && reply.validation == Invalid)
                 && (r'.syncStatus == SyncSuccess ==> r'.hcmValidated)
                 && (r'.hcmValidated <==>
                       r.hcmValidated || (Active(r) && reply.validation == Valid
                                          && !(r.status == Approved && reply.approval == ApprovalRaised))))
  {
  }

  // ---- Selection: oldest of the least tried ----------------------------------------------------

  predicate Waiting(rs: seq<Request>, i: nat) {
    i < |rs| && rs[i].syncStatus == SyncPending
  }

  /** ORDER BY hcmSyncAttempts, createdAt; ids grow with creation time. */
  predicate Before(rs: seq<Request>, i: nat, j: nat)
    requires i < |rs| && j < |rs|
  {
    rs[i].syncAttempts < rs[j].syncAttempts || (rs[i].syncAttempts == rs[j].syncAttempts && i < j)
  }

  predicate Ids(rs: seq<Request>, ids: seq<nat>) {
    forall x :: 0 <= x < |ids| ==> ids[x] < |rs|
  }

  function InsertId(rs: seq<Request>, i: nat, ids: seq<nat>): (r: seq<nat>)
    requires i < |rs| && Ids(rs, ids)
    ensures Ids(rs, r)
    decreases |ids|
  {
    if ids == [] || Before(rs, i, ids[0]) then [i] + ids else [ids[0]] + InsertId(rs, i, ids[1..])
  }

  function SortedWaiting(rs: seq<Request>, n: nat): (ids: seq<nat>)
    requires n <= |rs|
    ensures Ids(rs, ids)
  {
    if n == 0 then []
    else if Waiting(rs, n - 1) then InsertId(rs, n - 1, SortedWaiting(rs, n - 1))
    else SortedWaiting(rs, n - 1)
  }

  function Selected(rs: seq<Request>): (ids: seq<nat>)
    ensures Ids(rs, ids)
  {
    var all := SortedWaiting(rs, |rs|);
    if |all| <= BATCH then all else all[..BATCH]
  }

  function Process(rs: seq<Request>, ids: seq<nat>, replies: Replies): (rs': seq<Request>)
    requires Ids(rs, ids)
    ensures |rs'| == |rs|
    decreases |ids|
  {
    if ids == [] then rs
    else Process(rs[ids[0] := RetryOne(rs[ids[0]], replies(ids[0]))], ids[1..], replies)
  }

  function RunOnce(rs: seq<Request>, replies: Replies): (rs': seq<Request>)
    ensures |rs'| == |rs|
  {
    Process(rs, Selected(rs), replies)
  }

  function RunAll(rs: seq<Request>, runs: seq<Replies>): (rs': seq<Request>)
    ensures |rs'| == |rs|
    decreases |runs|
  {
    if runs == [] then rs else RunAll(RunOnce(rs, runs[0]), runs[1..])
  }

  // ---- The selection is what it should be ------------------------------------------------------

  predicate InOrder(rs: seq<Request>, ids: seq<nat>)
    requires Ids(rs, ids)
  {
    forall x, y :: 0 <= x < y < |ids| ==> Before(rs, ids[x], ids[y])
  }

  lemma {:induction false} InsertIdSorts(rs: seq<Request>, i: nat, ids: seq<nat>)
    requires i < |rs| && Ids(rs, ids) && InOrder(rs, ids) && i !in ids
    ensures InOrder(rs, InsertId(rs, i, ids))
    ensures forall j :: j in InsertId(rs, i, ids) <==> j == i || j in ids
    ensures |InsertId(rs, i, ids)| == |ids| + 1
    decreases |ids|
  {
    if ids != [] && !Before(rs, i, ids[0]) {
      InsertIdSorts(rs, i, ids[1..]);
      var rest := InsertId(rs, i, ids[1..]);
      forall x | 0 <= x < |rest|
        ensures Before(rs, ids[0], rest[x])
      {
        assert rest[x] in rest;
      }
    }
  }

  function CountWaiting(rs: seq<Request>, n: nat): nat
    requires n <= |rs|
  {
    if n == 0 then 0 else CountWaiting(rs, n - 1) + (if Waiting(rs, n - 1) then 1 else 0)
  }

  lemma {:induction false} SortedWaitingIsRight(rs: seq<Request>, n: nat)
    requires n <= |rs|
    ensures var ids := SortedWaiting(rs, n);
            && InOrder(rs, ids) && |ids| == CountWaiting(rs, n)
            && forall i: nat :: i in ids <==> i < n && Waiting(rs, i)
  {
    if n > 0 {
      SortedWaitingIsRight(rs, n - 1);
      if Waiting(rs, n - 1) {
        InsertIdSorts(rs, n - 1, SortedWaiting(rs, n - 1));
      }
    }
  }

  /** The batch holds min(50, n) distinct waiting requests, and nobody left out comes before one chosen. */
  lemma SelectionIsRight(rs: seq<Request>)
    ensures var ids := Selected(rs);
            && |ids| == (if CountWaiting(rs, |rs|) < 50 then CountWaiting(rs, |rs|) else 50) && Distinct(ids)
            && (forall x :: 0 <= x < |ids| ==> Waiting(rs, ids[x]))
            && (forall x, j: nat :: 0 <= x < |ids| && Waiting(rs, j) && j !in ids ==> Before(rs, ids[x], j))
  {
    SortedWaitingIsRight(rs, |rs|);
    var all, ids := SortedWaiting(rs, |rs|), Selected(rs);
    forall x | 0 <= x < |ids|
      ensures Waiting(rs, ids[x])
    {
      assert all[x] in all;
    }
    forall x, j: nat | 0 <= x < |ids| && Waiting(rs, j) && j !in ids
      ensures Before(rs, ids[x], j)
    {
      assert j in all;
      var y :| 0 <= y < |all| && all[y] == j;
      assert forall z :: 0 <= z < |ids| ==> all[z] == ids[z] && ids[z] != j;
    }
  }

  // ---- The measure -----------------------------------------------------------------------------

  /** What a waiting request may still cost the worker. */
  function Weight(r: Request): nat {
    if r.syncStatus != SyncPending then 0
    else if r.syncAttempts >= MAX_PENDING_SYNC_RETRIES then 1
    else MAX_PENDING_SYNC_RETRIES + 1 - r.syncAttempts
  }

  function TotalWeight(rs: seq<Request>): nat
    decreases |rs|
  {
    if rs == [] then 0 else TotalWeight(rs[..|rs| - 1]) + Weight(rs[|rs| - 1])
  }

  lemma RetryLowersWeight(r: Request, reply: Reply)
    requires r.syncStatus == SyncPending
    ensures Weight(RetryOne(r, reply)) < Weight(r)
  {
  }

  lemma {:induction false} WeightUpdate(rs: seq<Request>, i: nat, r: Request)
    requires i < |rs|
    ensures TotalWeight(rs[i := r]) + Weight(rs[i]) == TotalWeight(rs) + Weight(r)
    decreases |rs|
  {
    var n := |rs| - 1;
    if i == n {
      assert rs[i := r][..n] == rs[..n];
    } else {
      WeightUpdate(rs[..n], i, r);
      assert rs[i := r][..n] == rs[..n][i := r];
    }
  }

  lemma {:induction false} ProcessLowersWeight(rs: seq<Request>, ids: seq<nat>, replies: Replies)
    requires Ids(rs, ids) && Distinct(ids) && forall x :: 0 <= x < |ids| ==> Waiting(rs, ids[x])
    ensures TotalWeight(Process(rs, ids, replies)) + |ids| <= TotalWeight(rs)
    decreases |ids|
  {
    if ids != [] {
      var r := RetryOne(rs[ids[0]], replies(ids[0]));
      RetryLowersWeight(rs[ids[0]], replies(ids[0]));
      WeightUpdate(rs, ids[0], r);
      var rs' := rs[ids[0] := r];
      forall x | 0 <= x < |ids[1..]|
        ensures Waiting(rs', ids[1..][x])
      {
        assert ids[1..][x] == ids[x + 1];
      }
      ProcessLowersWeight(rs', ids[1..], replies);
    }
  }

  /** Each run lowers the measure by at least min(50, n), whatever HCM answers. */
  lemma RunLowersWeight(rs: seq<Request>, replies: Replies)
    ensures var n := CountWaiting(rs, |rs|);
            TotalWeight(RunOnce(rs, replies)) + (if n < 50 then n else 50) <= TotalWeight(rs)
  {
    SelectionIsRight(rs);
    ProcessLowersWeight(rs, Selected(rs), replies);
  }

  lemma {:induction false} WaitingHasWeight(rs: seq<Request>)
    ensures CountWaiting(rs, |rs|) <= TotalWeight(rs)
    ensures CountWaiting(rs, |rs|) == 0 ==> forall i: nat :: !Waiting(rs, i)
    ensures TotalWeight(rs) == 0 <==> CountWaiting(rs, |rs|) == 0
    decreases |rs|
  {
    if rs != [] {
      var n := |rs| - 1;
      WaitingHasWeight(rs[..n]);
      CountPrefix(rs, n);
      if CountWaiting(rs, |rs|) == 0 {
        forall i: nat
          ensures !Waiting(rs, i)
        {
          assert !Waiting(rs[..n], i);
          if i < n { assert rs[..n][i] == rs[i]; }
        }
      }
    }
  }

  lemma {:induction false} CountPrefix(rs: seq<Request>, n: nat)
    requires n < |rs|
    ensures CountWaiting(rs, n) == CountWaiting(rs[..|rs| - 1], n)
  {
    if n > 0 {
      CountPrefix(rs, n - 1);
      assert rs[..|rs| - 1][n - 1] == rs[n - 1];
    }
  }

  /** Termination: once there have been as many runs as the initial measure, no request is waiting. */
  lemma {:induction false} EverythingLeavesPending(rs: seq<Request>, runs: seq<Replies>)
    requires |runs| >= TotalWeight(rs)
    ensures forall i: nat :: !Waiting(RunAll(rs, runs), i)
    decreases |runs|
  {
    WaitingHasWeight(rs);
    if runs != [] {
      RunLowersWeight(rs, runs[0]);
      EverythingLeavesPending(RunOnce(rs, runs[0]), runs[1..]);
    }
  }

  lemma {:induction false} WeightIsBounded(rs: seq<Request>)
    ensures TotalWeight(rs) <= 11 * CountWaiting(rs, |rs|)
    decreases |rs|
  {
    if rs != [] {
      WeightIsBounded(rs[..|rs| - 1]);
      CountPrefix(rs, |rs| - 1);
    }
  }

  /** In numbers: n waiting requests are all settled after at most 11 * n runs. */
  lemma SettledInElevenRunsEach(rs: seq<Request>, runs: seq<Replies>)
    requires |runs| >= 11 * CountWaiting(rs, |rs|)
    ensures forall i: nat :: !Waiting(RunAll(rs, runs), i)
  {
    WeightIsBounded(rs);
    EverythingLeavesPending(rs, runs);
  }

  /** A waiting request with a turn left is tried, not failed: ten attempts are really made before the worker
      gives up. */
  lemma {:induction false} TenAttemptsAreMade(r: Request, replies: seq<Reply>)
    requires r.syncStatus == SyncPending && Active(r) && r.syncAttempts + |replies| <= 10
    requires forall i :: 0 <= i < |replies| ==> replies[i].validation == Unavailable
    requires !r.hcmValidated
    ensures Visits(r, replies) == r.(syncAttempts := r.syncAttempts + |replies|)
    decreases |replies|
  {
    if replies != [] {
      var r' := RetryOne(r, replies[0]);
      assert r' == r.(syncAttempts := r.syncAttempts + 1);
      TenAttemptsAreMade(r', replies[1..]);
    }
  }

  /** One request over several visits of the worker. */
  function Visits(r: Request, replies: seq<Reply>): Request
    decreases |replies|
  {
    if replies == [] then r else Visits(RetryOne(r, replies[0]), replies[1..])
  }

  // ---- At most ten attempts each ---------------------------------------------------------------

  /** How often the worker has made an attempt for request `i` over these runs. */
  function AttemptsMade(rs: seq<Request>, runs: seq<Replies>, i: nat): nat
    decreases |runs|
  {
    if runs == [] || i >= |rs| then 0
    else
      (if i in Selected(rs) && rs[i].syncAttempts < MAX_PENDING_SYNC_RETRIES then 1 else 0)
      + AttemptsMade(RunOnce(rs, runs[0]), runs[1..], i)
  }

  lemma {:induction false} ProcessTouchesOnlyIds(rs: seq<Request>, ids: seq<nat>, replies: Replies, i: nat)
    requires Ids(rs, ids) && Distinct(ids) && i < |rs|
    ensures Process(rs, ids, replies)[i] == if i in ids then RetryOne(rs[i], replies(i)) else rs[i]
    decreases |ids|
  {
    if ids != [] {
      var rs' := rs[ids[0] := RetryOne(rs[ids[0]], replies(ids[0]))];
      ProcessTouchesOnlyIds(rs', ids[1..], replies, i);
      if i == ids[0] {
        assert i !in ids[1..];
      } else {
        assert i in ids <==> i in ids[1..];
      }
    }
  }

  /** One run visits a request at most once, and an attempt raises its count by one. */
  lemma RunVisitsOnce(rs: seq<Request>, replies: Replies, i: nat)
    requires i < |rs|
    ensures RunOnce(rs, replies)[i] == if i in Selected(rs) then RetryOne(rs[i], replies(i)) else rs[i]
  {
    SelectionIsRight(rs);
    ProcessTouchesOnlyIds(rs, Selected(rs), replies, i);
  }

  lemma AttemptCounts(rs: seq<Request>, replies: Replies, i: nat)
    requires i < |rs|
    ensures var made := if i in Selected(rs) && rs[i].syncAttempts < MAX_PENDING_SYNC_RETRIES then 1 else 0;
            RunOnce(rs, replies)[i].syncAttempts == rs[i].syncAttempts + made
  {
    RunVisitsOnce(rs, replies, i);
  }

  /** The worker attempts each request at most ten times in all, and counts every attempt. */
  lemma {:induction false} AtMostTenAttempts(rs: seq<Request>, runs: seq<Replies>, i: nat)
    requires i < |rs|
    ensures AttemptsMade(rs, runs, i) <= 10
    ensures RunAll(rs, runs)[i].syncAttempts == rs[i].syncAttempts + AttemptsMade(rs, runs, i)
    ensures AttemptsMade(rs, runs, i) > 0 ==> RunAll(rs, runs)[i].syncAttempts <= 10
    decreases |runs|
  {
    if runs != [] {
      AttemptCounts(rs, runs[0], i);
      AtMostTenAttempts(RunOnce(rs, runs[0]), runs[1..], i);
    }
  }

  lemma RetryIsBookkeeping(r: Request, reply: Reply)
    ensures var r' := RetryOne(r, reply);
            r' == r.(hcmValidated := r'.hcmValidated, syncStatus := r'.syncStatus, syncAttempts := r'.syncAttempts)
  {
  }

  lemma RetryIsSync(t: Tables, id: nat, reply: Reply)
    requires Inv(t) && id < |t.requests|
    ensures Inv(t.(requests := t.requests[id := RetryOne(t.requests[id], reply)]))
  {
    var r' := RetryOne(t.requests[id], reply);
    RetryIsBookkeeping(t.requests[id], reply);
    BookkeepingKeepsInv(t, id, r'.hcmValidated, r'.syncStatus, r'.syncAttempts);
    assert SyncUpdate(t, id, r'.hcmValidated, r'.syncStatus, r'.syncAttempts) == t.(requests := t.requests[id := r']);
  }

  /** The worker only moves HCM bookkeeping: every run is a series of the ledger's `Sync` operations, so it
      keeps the ledger invariant. */
  lemma {:induction false} WorkerKeepsLedger(t: Tables, ids: seq<nat>, replies: Replies)
    requires Inv(t) && Ids(t.requests, ids)
    ensures Inv(t.(requests := Process(t.requests, ids, replies)))
    decreases |ids|
  {
    if ids == [] {
      assert t.(requests := t.requests) == t;
    } else {
      var t' := t.(requests := t.requests[ids[0] := RetryOne(t.requests[ids[0]], replies(ids[0]))]);
      RetryIsSync(t, ids[0], replies(ids[0]));
      WorkerKeepsLedger(t', ids[1..], replies);
    }
  }
}
