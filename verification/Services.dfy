/** The services as objects over one database, each method proved against the function in `Ledger` or
    `CreateProtocol` that describes it. */
module Services {
  import opened Wrappers
  import opened CanonicalJson
  import opened Ledger
  import opened CreateProtocol

  class Database {
    var balances: Balances
    var requests: seq<Request>
    var idempotency: map<string, IdempotencyRow>

    function Value(): Tables reads this {
      Tables(balances, requests, idempotency)
    }

    constructor ()
      ensures Value() == EMPTY
    {
      balances, requests, idempotency := map[], [], map[];
    }

    /** ROLLBACK to the tables as they were at BEGIN. */
    method Restore(t: Tables)
      modifies this
      ensures Value() == t
    {
      balances, requests, idempotency := t.balances, t.requests, t.idempotency;
    }
  }

  /** src/modules/balance/balance.service.js. A thrown exception is `Some(error)`. */
  class BalanceService {
    const db: Database

    constructor (db: Database)
      ensures this.db == db
    {
      this.db := db;
    }

    method DeductAtomically(k: BalanceKey, days: real) returns (thrown: Option<Error>)
      modifies db`balances
      ensures match AtomicDeduct(old(db.balances), k, days)
              case Ok(bs) => thrown == None && db.balances == bs
              case Err(e) => thrown == Some(e) && db.balances == old(db.balances)
      ensures thrown == Some(BalanceNotFound) <==> k !in old(db.balances)
      ensures thrown == Some(InsufficientBalance) <==> k in old(db.balances) && old(db.balances)[k].available < days
    {
      if k !in db.balances { return Some(BalanceNotFound); }
      var balance := db.balances[k];
      if balance.available < days { return Some(InsufficientBalance); }
      balance := balance.(available := balance.available - days);
      balance := balance.(pending := balance.pending + days);
      db.balances := db.balances[k := balance];
      thrown := None;
    }

    method Release(k: BalanceKey, days: real) returns (thrown: Option<Error>)
      modifies db`balances
      ensures match ReleaseFromPending(old(db.balances), k, days)
              case Ok(bs) => thrown == None && db.balances == bs
              case Err(e) => thrown == Some(e) && db.balances == old(db.balances)
      ensures thrown == Some(BalanceNotFound) <==> k !in old(db.balances)
      ensures thrown == Some(BalanceConflict) <==> k in old(db.balances) && old(db.balances)[k].pending < days
    {
      if k !in db.balances { return Some(BalanceNotFound); }
      var balance := db.balances[k];
      if balance.pending < days { return Some(BalanceConflict); }
      balance := balance.(pending := balance.pending - days);
      balance := balance.(available := balance.available + days);
      db.balances := db.balances[k := balance];
      thrown := None;
    }

    method Finalize(k: BalanceKey, days: real) returns (thrown: Option<Error>)
      modifies db`balances
      ensures match FinalizeUsed(old(db.balances), k, days)
              case Ok(bs) => thrown == None && db.balances == bs
              case Err(e) => thrown == Some(e) && db.balances == old(db.balances)
      ensures thrown == Some(BalanceNotFound) <==> k !in old(db.balances)
      ensures thrown == Some(BalanceConflict) <==> k in old(db.balances) && old(db.balances)[k].pending < days
    {
      if k !in db.balances { return Some(BalanceNotFound); }
      var balance := db.balances[k];
      if balance.pending < days { return Some(BalanceConflict); }
      balance := balance.(pending := balance.pending - days);
      balance := balance.(used := balance.used + days);
      db.balances := db.balances[k := balance];
      thrown := None;
    }

    method Upsert(k: BalanceKey, total: real) returns (balance: Balance)
      modifies db`balances
      ensures db.balances == UpsertBalance(old(db.balances), k, total) && k in db.balances && balance == db.balances[k]
      ensures k in old(db.balances) ==> db.balances == old(db.balances)
      ensures k !in old(db.balances) ==>
                db.balances == old(db.balances)[k := Balance(total, total, 0.0, 0.0, total, None, false, None)]
    {
      if k !in db.balances {
        db.balances := db.balances[k := NewBalance(total, None)];
      }
      balance := db.balances[k];
    }

    method ApplyRealTimeUpdate(k: BalanceKey, hcmTotal: real, version: Option<string>) returns (balance: Option<Balance>)
      modifies db`balances
      ensures db.balances == ApplyHcmRealTimeUpdate(old(db.balances), k, hcmTotal, version)
      ensures balance == Lookup(db.balances, k)
    {
      if k !in db.balances { return None; }
      var b := db.balances[k];
      var localTotal := b.used + b.pending + b.available;
      var drift := hcmTotal - localTotal;
      var hasDiscrepancy, discrepancyAmount := false, None;
      if drift > REALTIME_TOLERANCE {
        b := b.(available := b.available + drift);
        b := b.(total := hcmTotal);
      } else if drift < -REALTIME_TOLERANCE {
        hasDiscrepancy := true;
        discrepancyAmount := Some(Abs(drift));
      }
      b := b.(hcmTotal := hcmTotal, hcmVersion := VersionOrNull(version), hasDiscrepancy := hasDiscrepancy,
              discrepancyAmount := discrepancyAmount);
      db.balances := db.balances[k := b];
      balance := Some(b);
    }
  }

  predicate StrikesAt(fault: Fault, at: nat) {
    fault != NoFault && fault.at == at
  }

  function Raised(fault: Fault): Error {
    if fault.Transient? then TransientTxError else DatabaseError
  }

  /** src/modules/timeoff/timeoff.service.js. */
  class TimeOffService {
    const db: Database
    const balanceService: BalanceService

    predicate Valid() {
      balanceService.db == db
    }

    constructor (db: Database, balanceService: BalanceService)
      requires balanceService.db == db
      ensures Valid() && this.db == db
    {
      this.db, this.balanceService := db, balanceService;
    }

    method LookUpKey(key: string, hash: Json, now: int) returns (hit: Hit)
      ensures hit == CheckIdempotency(db.Value(), key, hash, now)
    {
      if key !in db.idempotency { return Absent; }
      var existing := db.idempotency[key];
      if existing.expiresAt < now { return Absent; }
      if existing.requestHash != hash { return Conflict; }
      hit := Cached(existing.responseBody);
    }

    /** `_assertNoOverlap`: scan the active requests of the employee and place. */
    method HasOverlap(d: Draft) returns (conflict: bool)
      ensures conflict == Overlaps(db.requests, d)
    {
      for i := 0 to |db.requests|
        invariant forall j :: 0 <= j < i ==> !Blocks(db.requests[j], d.employeeId, d.locationId, d.startDay, d.endDay)
      {
        var existing := db.requests[i];
        if existing.employeeId == d.employeeId && existing.locationId == d.locationId
           && existing.status in {Pending, Approved}
        {
          if d.startDay <= existing.endDay && existing.startDay <= d.endDay {
            return true;
          }
        }
      }
      conflict := false;
    }

    /** One SERIALIZABLE transaction: BEGIN, the steps of a create, COMMIT; any error rolls back. */
    method CreateTransaction(d: Draft, fault: Fault, now: int) returns (thrown: Option<Error>)
      requires Valid()
      modifies db
      ensures match TryOnce(old(db.Value()), d, fault, now)
              case Ok(t) => thrown == None && db.Value() == t
              case Err(e) => thrown == Some(e) && db.Value() == old(db.Value())
    {
      var atBegin := db.Value();
      if StrikesAt(fault, 0) { return Some(Raised(fault)); }
      var conflict := HasOverlap(d);
      if conflict { return Some(OverlappingRequest); }
      if StrikesAt(fault, 1) { return Some(Raised(fault)); }
      thrown := balanceService.DeductAtomically(DraftKey(d), d.days as real);
      if thrown.Some? { return; }
      if StrikesAt(fault, 2) {
        db.Restore(atBegin);
        return Some(Raised(fault));
      }
      if KeyTaken(db.requests, d.idempotencyKey) {
        db.Restore(atBegin);
        return Some(UniqueViolation);
      }
      var saved := NewRequest(d);
      var id := |db.requests|;
      db.requests := db.requests + [saved];
      if StrikesAt(fault, 3) {
        db.Restore(atBegin);
        return Some(Raised(fault));
      }
      if d.idempotencyKey in db.idempotency {
        db.Restore(atBegin);
        return Some(UniqueViolation);
      }
      var expiresAt := now + IDEMPOTENCY_TTL_MS;
      db.idempotency := db.idempotency[d.idempotencyKey :=
        IdempotencyRow(d.employeeId, d.requestHash, Serialize(id, saved), expiresAt)];
      if fault != NoFault {
        db.Restore(atBegin);
        return Some(Raised(fault));
      }
      thrown := None;
    }

    method RunCreateTransactionWithRetry(d: Draft, env: Env) returns (thrown: Option<Error>)
      requires Valid()
      modifies db
      ensures match Attempts(old(db.Value()), d, env, 1)
              case Ok(t) => thrown == None && db.Value() == t
              case Err(e) => thrown == Some(e) && db.Value() == old(db.Value())
    {
      var attempt := 1;
      while true
        invariant 1 <= attempt <= MAX_ATTEMPTS
        invariant db.Value() == old(db.Value())
        invariant Attempts(old(db.Value()), d, env, 1) == Attempts(old(db.Value()), d, env, attempt)
        decreases MAX_ATTEMPTS - attempt
      {
        thrown := CreateTransaction(d, FaultAt(env, attempt), env.commitAt);
        if thrown != Some(TransientTxError) || attempt == MAX_ATTEMPTS {
          return;
        }
        attempt := attempt + 1;
      }
    }

    method RecoverAfterConstraint(key: string, hash: Json, now: int) returns (hit: Hit)
      ensures hit == CreateProtocol.Recover(db.Value(), key, hash, now)
    {
      hit := LookUpKey(key, hash, now);
      if hit == Absent {
        var id := FindByKey(db.requests, key);
        if id.Some? {
          hit := Cached(Serialize(id.value, db.requests[id.value]));
        }
      }
    }

    method CreateRequest(dto: Dto, key: string, env: Env) returns (answer: Answer)
      requires Valid()
      modifies db
      ensures (db.Value(), answer) == CreateProtocol.CreateRequest(old(db.Value()), dto, key, env)
    {
      var invalid := Validate(dto, key, env.validateAt);
      if invalid.Some? { return Thrown(invalid.value); }
      var d := DraftOf(dto, key);
      var hit := LookUpKey(key, d.requestHash, env.checkAt);
      if hit == Conflict { return Thrown(IdempotencyConflict); }
      if hit.Cached? { return Returned(hit.body); }
      answer := CreateInLane(d, env);
    }

    /** The body that `_withCreateLock` runs. */
    method CreateInLane(d: Draft, env: Env) returns (answer: Answer)
      requires Valid()
      modifies db
      ensures (db.Value(), answer) == InLane(old(db.Value()), d, env)
    {
      var hit := LookUpKey(d.idempotencyKey, d.requestHash, env.recheckAt);
      if hit == Conflict { return Thrown(IdempotencyConflict); }
      if hit.Cached? { return Returned(hit.body); }
      ghost var before := db.Value();
      var thrown := RunCreateTransactionWithRetry(d, env);
      if thrown.None? {
        AttemptsCommitOnce(before, d, env, 1);
        var id := |db.requests| - 1;
        return Returned(Serialize(id, db.requests[id]));
      }
      var err := thrown.value;
      if err == UniqueViolation {
        hit := RecoverAfterConstraint(d.idempotencyKey, d.requestHash, env.recoverAt);
        if hit == Conflict { return Thrown(IdempotencyConflict); }
        if hit.Cached? { return Returned(hit.body); }
      }
      if err == TransientTxError {
        hit := RecoverAfterConstraint(d.idempotencyKey, d.requestHash, env.recoverAt);
        if hit == Conflict { return Thrown(IdempotencyConflict); }
        if hit.Cached? { return Returned(hit.body); }
        return Thrown(BalanceConflict);
      }
      answer := Thrown(err);
    }

    method ApproveRequest(id: nat, approverId: string) returns (r: Result<Body, Error>)
      requires Valid()
      modifies db
      ensures match ApproveTx(old(db.Value()), id, approverId)
              case Ok(t) => db.Value() == t && id < |t.requests| && r == Ok(Serialize(id, t.requests[id]))
              case Err(e) => db.Value() == old(db.Value()) && r == Err(e)
      ensures r.Ok? ==> id < |old(db.requests)| && r.value.id == id && r.value.notes == old(db.requests)[id].notes
                         && r.value.status == Approved && r.value.approvedBy == Some(approverId)
                         && r.value.rejectionReason == old(db.requests)[id].rejectionReason
    {
      var atBegin := db.Value();
      if id >= |db.requests| { return Err(RequestNotFound); }
      var request := db.requests[id];
      if Approved !in AllowedFrom(request.status) { return Err(InvalidStatusTransition); }
      request := request.(status := Approved, approvedBy := Some(approverId));
      db.requests := db.requests[id := request];
      var thrown := balanceService.Finalize(KeyOf(request), request.daysRequested as real);
      if thrown.Some? {
        db.Restore(atBegin);
        return Err(thrown.value);
      }
      r := Ok(Serialize(id, request));
    }

    method RejectRequest(id: nat, approverId: string, reason: Option<string>) returns (r: Result<Body, Error>)
      requires Valid()
      modifies db
      ensures match RejectTx(old(db.Value()), id, approverId, reason)
              case Ok(t) => db.Value() == t && id < |t.requests| && r == Ok(Serialize(id, t.requests[id]))
              case Err(e) => db.Value() == old(db.Value()) && r == Err(e)
      ensures r.Ok? ==> id < |old(db.requests)| && r.value.id == id && r.value.notes == old(db.requests)[id].notes
                         && r.value.status == Rejected && r.value.approvedBy == Some(approverId) && r.value.rejectionReason == reason
    {
      var atBegin := db.Value();
      if id >= |db.requests| { return Err(RequestNotFound); }
      var request := db.requests[id];
      if Rejected !in AllowedFrom(request.status) { return Err(InvalidStatusTransition); }
      request := request.(status := Rejected, approvedBy := Some(approverId), rejectionReason := reason);
      db.requests := db.requests[id := request];
      var thrown := balanceService.Release(KeyOf(request), request.daysRequested as real);
      if thrown.Some? {
        db.Restore(atBegin);
        return Err(thrown.value);
      }
      r := Ok(Serialize(id, request));
    }

    method CancelRequest(id: nat, reason: Option<string>) returns (r: Result<Body, Error>)
      requires Valid()
      modifies db
      ensures match CancelTx(old(db.Value()), id, reason)
              case Ok(t) => db.Value() == t && id < |t.requests| && r == Ok(Serialize(id, t.requests[id]))
              case Err(e) => db.Value() == old(db.Value()) && r == Err(e)
      ensures r.Ok? ==> id < |old(db.requests)| && r.value.id == id && r.value.notes == old(db.requests)[id].notes
                         && r.value.status == Cancelled && r.value.approvedBy == old(db.requests)[id].approvedBy
                         && r.value.rejectionReason == reason
    {
      var atBegin := db.Value();
      if id >= |db.requests| { return Err(RequestNotFound); }
      var request := db.requests[id];
      if Cancelled !in AllowedFrom(request.status) { return Err(InvalidStatusTransition); }
      request := request.(status := Cancelled, rejectionReason := reason);
      db.requests := db.requests[id := request];
      var thrown := balanceService.Release(KeyOf(request), request.daysRequested as real);
      if thrown.Some? {
        db.Restore(atBegin);
        return Err(thrown.value);
      }
      r := Ok(Serialize(id, request));
    }
  }
}
