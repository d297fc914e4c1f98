/** `createRequest` of src/modules/timeoff/timeoff.service.js: idempotency, the transaction with its
    bounded retries, and recovery after a unique-key clash. First as one call run alone, then as a
    system in which any number of calls interleave between their database steps. */
module CreateProtocol {
  import opened Wrappers
  import opened Dates
  import opened CanonicalJson
  import opened Ledger

  /** The request body: its fields, and the JSON object that is hashed. */
  datatype Dto = Dto(employeeId: string, locationId: string, leaveType: LeaveType, startDate: Civil, endDate: Civil,
                     notes: Option<string>, payload: Json)

  const IDEMPOTENCY_TTL_MS: int := 24 * 60 * 60 * 1000
  const MAX_ATTEMPTS: nat := 3

  datatype Answer = Returned(body: Body) | Thrown(error: Error)

  /** A failure the database raises by itself during one run of the transaction, at one of its statements:
      0 is BEGIN, 1 the deduction, 2 the request row, 3 the idempotency row, anything later COMMIT. */
  datatype Fault = NoFault | Transient(at: nat) | Fatal(at: nat)

  function DraftOf(dto: Dto, key: string): Draft {
    Draft(key, dto.employeeId, dto.locationId, dto.leaveType, DayNumber(dto.startDate), DayNumber(dto.endDate),
          CalculateDaysRequested(dto.startDate, dto.endDate), if dto.notes == Some("") then None else dto.notes,
          SortObjectKeys(dto.payload))
  }

  /** The checks made before anything is read. */
  function Validate(dto: Dto, key: string, now: int): Option<Error> {
    if key == "" then Some(MissingIdempotencyKey)
    else if !IsNotInPast(dto.startDate, now) then Some(InvalidDateRange)
    else if Utc(dto.endDate) < Utc(dto.startDate) then Some(InvalidDateRange)
    else None
  }

  /** Exactly which requests pass the input checks: those with a key, a start today or later and an end not before
      the start. A one-day leave passes. */
  lemma ChecksPassIff(dto: Dto, key: string, now: int)
    ensures Validate(dto, key, now) == None
            <==> key != "" && now / 86400000 <= DayNumber(dto.startDate) <= DayNumber(dto.endDate)
    ensures Validate(dto, key, now) == Some(MissingIdempotencyKey) <==> key == ""
    ensures Validate(dto, key, now) == Some(InvalidDateRange)
            <==> key != "" && !(now / 86400000 <= DayNumber(dto.startDate) <= DayNumber(dto.endDate))
  {
    NotInPastMeansTodayOrLater(dto.startDate, now);
    UtcOrder(dto.startDate, dto.endDate);
  }

  lemma ValidatedDraft(dto: Dto, key: string, now: int)
    requires Validate(dto, key, now) == None
    ensures ValidDraft(DraftOf(dto, key))
  {
    ChecksPassIff(dto, key, now);
    DaysRequestedCountsDays(dto.startDate, dto.endDate);
  }

  datatype Hit = Absent | Cached(body: Body) | Conflict

  /** `_checkIdempotency`: an expired row counts as absent. */
  function CheckIdempotency(t: Tables, key: string, hash: Json, now: int): Hit {
    if key !in t.idempotency then Absent
    else if t.idempotency[key].expiresAt < now then Absent
    else if t.idempotency[key].requestHash != hash then Conflict
    else Cached(t.idempotency[key].responseBody)
  }

  function FindByKey(rs: seq<Request>, key: string): (r: Option<nat>)
    ensures r.Some? ==> r.value < |rs| && rs[r.value].idempotencyKey == key
    ensures r.None? ==> !KeyTaken(rs, key)
    decreases |rs|
  {
    if rs == [] then None
    else if rs[|rs| - 1].idempotencyKey == key then Some(|rs| - 1)
    else FindByKey(rs[..|rs| - 1], key)
  }

  /** `_recoverAfterConstraint`: the live row, else the request itself as it now stands. */
  function Recover(t: Tables, key: string, hash: Json, now: int): Hit {
    match CheckIdempotency(t, key, hash, now)
    case Cached(b) => Cached(b)
    case Conflict => Conflict
    case Absent =>
      match FindByKey(t.requests, key)
      case Some(id) => Cached(Serialize(id, t.requests[id]))
      case None => Absent
  }

  /** The error the transaction raises by itself before it gets to the given statement. */
  function ErrorBefore(t: Tables, d: Draft, at: nat): Option<Error> {
    var deducted := AtomicDeduct(t.balances, DraftKey(d), d.days as real);
    if at >= 1 && Overlaps(t.requests, d) then Some(OverlappingRequest)
    else if at >= 2 && deducted.Err? then Some(deducted.error)
    else if at >= 3 && KeyTaken(t.requests, d.idempotencyKey) then Some(UniqueViolation)
    else if at >= 4 && d.idempotencyKey in t.idempotency then Some(UniqueViolation)
    else None
  }

  lemma OwnErrorComesFirst(t: Tables, d: Draft, at: nat, expiresAt: int)
    ensures ErrorBefore(t, d, at).Some? ==> CreateTx(t, d, expiresAt) == Err(ErrorBefore(t, d, at).value)
    ensures CreateTx(t, d, expiresAt) != Err(TransientTxError)
  {
  }

  /** One run of the transaction, faults included. */
  function TryOnce(t: Tables, d: Draft, fault: Fault, now: int): Result<Tables, Error> {
    if fault == NoFault then CreateTx(t, d, now + IDEMPOTENCY_TTL_MS)
    else
      match ErrorBefore(t, d, fault.at)
      case Some(e) => Err(e)
      case None => Err(if fault.Transient? then TransientTxError else DatabaseError)
  }

  /** The `catch` around the transaction. */
  function AfterFailure(t: Tables, d: Draft, e: Error, now: int): Answer {
    if e != UniqueViolation && e != TransientTxError then Thrown(e)
    else
      match Recover(t, d.idempotencyKey, d.requestHash, now)
      case Cached(b) => Returned(b)
      case Conflict => Thrown(IdempotencyConflict)
      case Absent => Thrown(if e == TransientTxError then BalanceConflict else e)
  }

  // ---- One call, alone -------------------------------------------------------------------------

  /** The clock readings and database faults one call meets. */
  datatype Env = Env(validateAt: int, checkAt: int, recheckAt: int, faults: seq<Fault>, commitAt: int, recoverAt: int)

  function FaultAt(env: Env, attempt: nat): Fault
    requires attempt >= 1
  {
    if attempt <= |env.faults| then env.faults[attempt - 1] else NoFault
  }

  /** `_runCreateTransactionWithRetry`, from the given attempt on. */
  function Attempts(t: Tables, d: Draft, env: Env, attempt: nat): Result<Tables, Error>
    requires 1 <= attempt <= MAX_ATTEMPTS
    decreases MAX_ATTEMPTS - attempt
  {
    var r := TryOnce(t, d, FaultAt(env, attempt), env.commitAt);
    if r.Ok? || r.error != TransientTxError || attempt == MAX_ATTEMPTS then r
    else Attempts(t, d, env, attempt + 1)
  }

  function InLane(t: Tables, d: Draft, env: Env): (Tables, Answer) {
    match CheckIdempotency(t, d.idempotencyKey, d.requestHash, env.recheckAt)
    case Cached(b) => (t, Returned(b))
    case Conflict => (t, Thrown(IdempotencyConflict))
    case Absent =>
      match Attempts(t, d, env, 1)
      case Ok(t') => (t', Returned(Serialize(|t.requests|, NewRequest(d))))
      case Err(e) => (t, AfterFailure(t, d, e, env.recoverAt))
  }

  function CreateRequest(t: Tables, dto: Dto, key: string, env: Env): (Tables, Answer) {
    match Validate(dto, key, env.validateAt)
    case Some(e) => (t, Thrown(e))
    case None =>
      var d := DraftOf(dto, key);
      match CheckIdempotency(t, key, d.requestHash, env.checkAt)
      case Cached(b) => (t, Returned(b))
      case Conflict => (t, Thrown(IdempotencyConflict))
      case Absent => InLane(t, d, env)
  }

  predicate Live(t: Tables, key: string, now: int) {
    key in t.idempotency && now <= t.idempotency[key].expiresAt
  }

  /** The fault is transient and strikes before the transaction finds an error of its own. */
  predicate StruckTransiently(t: Tables, d: Draft, fault: Fault) {
    fault.Transient? && ErrorBefore(t, d, fault.at) == None
  }

  lemma {:induction false} AttemptsCommitOnce(t: Tables, d: Draft, env: Env, attempt: nat)
    requires 1 <= attempt <= MAX_ATTEMPTS
    ensures var r := Attempts(t, d, env, attempt);
            r.Ok? ==> r == CreateTx(t, d, env.commitAt + IDEMPOTENCY_TTL_MS)
    ensures (forall i :: attempt <= i <= MAX_ATTEMPTS ==> StruckTransiently(t, d, FaultAt(env, i)))
            <==> Attempts(t, d, env, attempt) == Err(TransientTxError)
    decreases MAX_ATTEMPTS - attempt
  {
    OwnErrorComesFirst(t, d, if FaultAt(env, attempt) == NoFault then 0 else FaultAt(env, attempt).at,
                       env.commitAt + IDEMPOTENCY_TTL_MS);
    if attempt < MAX_ATTEMPTS {
      AttemptsCommitOnce(t, d, env, attempt + 1);
    }
  }

  lemma InLaneChangesOnceOrNever(t: Tables, d: Draft, env: Env)
    requires Inv(t) && ValidDraft(d)
    ensures var (t', answer) := InLane(t, d, env);
            && Inv(t')
            && (answer.Thrown? ==> t' == t)
            && (t' != t ==> t' == Apply(t, Create(d, env.commitAt + IDEMPOTENCY_TTL_MS))
                            && answer == Returned(Serialize(|t.requests|, NewRequest(d))))
  {
    AttemptsCommitOnce(t, d, env, 1);
    OpKeepsInv(t, Create(d, env.commitAt + IDEMPOTENCY_TTL_MS));
  }

  /** However the call goes, the tables end as they were or with this one request added; a call that throws
      changes nothing; a call that changes something returns the request it added. */
  lemma ThrowsChangeNothing(t: Tables, dto: Dto, key: string, env: Env)
    requires Inv(t)
    ensures var (t', answer) := CreateRequest(t, dto, key, env);
            && Inv(t')
            && (answer.Thrown? ==> t' == t)
            && (t' != t ==> t' == Apply(t, Create(DraftOf(dto, key), env.commitAt + IDEMPOTENCY_TTL_MS))
                            && answer == Returned(Serialize(|t.requests|, NewRequest(DraftOf(dto, key)))))
  {
    if Validate(dto, key, env.validateAt).None? {
      ValidatedDraft(dto, key, env.validateAt);
      InLaneChangesOnceOrNever(t, DraftOf(dto, key), env);
    }
  }

  /** Fewer than three transient failures leave no trace: the call ends as if there had been none. */
  lemma RetriesAreInvisible(t: Tables, dto: Dto, key: string, env: Env)
    requires |env.faults| <= 2 && forall i :: 0 <= i < |env.faults| ==> env.faults[i].Transient?
    ensures CreateRequest(t, dto, key, env) == CreateRequest(t, dto, key, env.(faults := []))
  {
    SkipTransient(t, DraftOf(dto, key), env, 1);
  }

  lemma {:induction false} SkipTransient(t: Tables, d: Draft, env: Env, attempt: nat)
    requires 1 <= attempt <= |env.faults| + 1 <= MAX_ATTEMPTS
    requires forall i :: 0 <= i < |env.faults| ==> env.faults[i].Transient?
    ensures Attempts(t, d, env, attempt) == CreateTx(t, d, env.commitAt + IDEMPOTENCY_TTL_MS)
    ensures Attempts(t, d, env.(faults := []), 1) == CreateTx(t, d, env.commitAt + IDEMPOTENCY_TTL_MS)
    decreases |env.faults| + 1 - attempt
  {
    OwnErrorComesFirst(t, d, if FaultAt(env, attempt) == NoFault then 0 else FaultAt(env, attempt).at,
                       env.commitAt + IDEMPOTENCY_TTL_MS);
    if attempt <= |env.faults| {
      SkipTransient(t, d, env, attempt + 1);
    }
  }

  /** A valid create under a key never used ends as BALANCE_CONFLICT exactly when each of its three runs is struck
      by a transient failure before it finds an error of its own; nothing is changed then. */
  lemma ThreeTransientFailures(t: Tables, dto: Dto, key: string, env: Env)
    requires Inv(t) && key !in t.idempotency && Validate(dto, key, env.validateAt) == None
    ensures CreateRequest(t, dto, key, env).1 == Thrown(BalanceConflict)
            <==> forall i :: 1 <= i <= 3 ==> StruckTransiently(t, DraftOf(dto, key), FaultAt(env, i))
    ensures CreateRequest(t, dto, key, env).1 == Thrown(BalanceConflict) ==> CreateRequest(t, dto, key, env).0 == t
  {
    var d := DraftOf(dto, key);
    assert !KeyTaken(t.requests, key);
    assert Recover(t, key, d.requestHash, env.recoverAt) == Absent;
    AttemptsCommitOnce(t, d, env, 1);
    AttemptErrors(t, d, env, 1);
  }

  /** Any other database failure surfaces as it is, on the attempt it strikes, and changes nothing. */
  lemma FatalFailureSurfaces(t: Tables, dto: Dto, key: string, env: Env, j: nat)
    requires key !in t.idempotency && Validate(dto, key, env.validateAt) == None && 1 <= j <= 3
    requires forall i :: 1 <= i < j ==> StruckTransiently(t, DraftOf(dto, key), FaultAt(env, i))
    requires FaultAt(env, j).Fatal? && ErrorBefore(t, DraftOf(dto, key), FaultAt(env, j).at) == None
    ensures CreateRequest(t, dto, key, env) == (t, Thrown(DatabaseError))
  {
    FatalAttempt(t, DraftOf(dto, key), env, 1, j);
  }

  lemma {:induction false} FatalAttempt(t: Tables, d: Draft, env: Env, attempt: nat, j: nat)
    requires 1 <= attempt <= j <= MAX_ATTEMPTS
    requires forall i :: attempt <= i < j ==> StruckTransiently(t, d, FaultAt(env, i))
    requires FaultAt(env, j).Fatal? && ErrorBefore(t, d, FaultAt(env, j).at) == None
    ensures Attempts(t, d, env, attempt) == Err(DatabaseError)
    decreases j - attempt
  {
    if attempt < j {
      assert StruckTransiently(t, d, FaultAt(env, attempt));
      FatalAttempt(t, d, env, attempt + 1, j);
    }
  }

  lemma {:induction false} AttemptErrors(t: Tables, d: Draft, env: Env, attempt: nat)
    requires 1 <= attempt <= MAX_ATTEMPTS
    ensures Attempts(t, d, env, attempt) != Err(BalanceConflict)
    decreases MAX_ATTEMPTS - attempt
  {
    if attempt < MAX_ATTEMPTS {
      AttemptErrors(t, d, env, attempt + 1);
    }
  }

  /** A replay with a live key and the same payload changes nothing, and returns the stored answer exactly
      when it passes the input checks, which come first. */
  lemma ReplayReturnsStored(t: Tables, dto: Dto, key: string, env: Env)
    requires Live(t, key, env.checkAt) && t.idempotency[key].requestHash == SortObjectKeys(dto.payload)
    ensures var (t', answer) := CreateRequest(t, dto, key, env);
            && t' == t
            && (answer == Returned(t.idempotency[key].responseBody) <==> Validate(dto, key, env.validateAt) == None)
  {
  }

  /** Later operations never touch the answer stored for a key. */
  lemma {:induction false} StoredAnswersStay(t: Tables, ops: seq<Op>, key: string)
    requires key in t.idempotency
    ensures key in ApplyAll(t, ops).idempotency && ApplyAll(t, ops).idempotency[key] == t.idempotency[key]
    decreases |ops|
  {
    if ops != [] {
      StoredAnswersStay(Apply(t, ops[0]), ops[1..], key);
    }
  }

  /** The idempotency promise end to end: a create that committed, replayed up to 24 hours after the commit and
      after any other operations on the tables, changes nothing and gets the very answer of the first
      call, provided it still passes the input checks. */
  lemma CreateThenReplay(t: Tables, dto: Dto, key: string, env: Env, later: seq<Op>, replay: Env)
    requires Inv(t) && CreateRequest(t, dto, key, env).0 != t
    requires Validate(dto, key, replay.validateAt) == None && replay.checkAt <= env.commitAt + 24 * 3600 * 1000
    ensures var (t', answer) := CreateRequest(t, dto, key, env);
            var after := ApplyAll(t', later);
            CreateRequest(after, dto, key, replay) == (after, answer)
  {
    var (t', answer) := CreateRequest(t, dto, key, env);
    ThrowsChangeNothing(t, dto, key, env);
    StoredAnswersStay(t', later, key);
    ReplayReturnsStored(ApplyAll(t', later), dto, key, replay);
  }

  /** The exception: a request accepted on its start date and replayed, within its key's lifetime, after
      midnight is answered INVALID_DATE_RANGE instead of the stored body. */
  lemma ReplayAfterMidnight(dto: Dto, key: string, env: Env, t: Tables)
    requires key != "" && Live(t, key, env.checkAt) && t.idempotency[key].requestHash == SortObjectKeys(dto.payload)
    requires env.validateAt / MS_PER_DAY > DayNumber(dto.startDate)
    ensures CreateRequest(t, dto, key, env) == (t, Thrown(InvalidDateRange))
  {
    NotInPastMeansTodayOrLater(dto.startDate, env.validateAt);
  }

  /** A live key with another payload is a conflict, and "another" means another JSON tree, `__proto__` members
      aside. */
  lemma LiveKeyOtherPayload(t: Tables, dto: Dto, stored: Json, key: string, env: Env)
    requires Live(t, key, env.checkAt) && t.idempotency[key].requestHash == SortObjectKeys(stored)
    requires WellFormed(dto.payload) && WellFormed(stored)
    requires Validate(dto, key, env.validateAt) == None
    ensures var conflict := CreateRequest(t, dto, key, env) == (t, Thrown(IdempotencyConflict));
            && (conflict <==> Visible(dto.payload) != Visible(stored))
            && (NoProto(dto.payload) && NoProto(stored) ==> (conflict <==> Meaning(dto.payload) != Meaning(stored)))
  {
    SortedFormsDecideEquality(dto.payload, stored);
    if NoProto(dto.payload) && NoProto(stored) {
      CanonicalForm(dto.payload, stored);
    }
  }

  /** A key that has ever been used never creates again: expired or not, a second request is ruled out. */
  lemma UsedKeyNeverCreatesAgain(t: Tables, dto: Dto, key: string, env: Env)
    requires Inv(t) && key in t.idempotency
    ensures CreateRequest(t, dto, key, env).0 == t
  {
    AttemptsCommitOnce(t, DraftOf(dto, key), env, 1);
    UsedKeyNeverCommits(t, DraftOf(dto, key), env.commitAt + IDEMPOTENCY_TTL_MS);
  }

  /** After expiry the payload is no longer compared. Without database faults the caller is handed the old
      request, whatever was asked for, exactly when the wanted days are free and funded: then the transaction
      gets as far as the unique key. */
  lemma ExpiredKeyReturnsOldRequest(t: Tables, dto: Dto, key: string, env: Env)
    requires Inv(t) && key in t.idempotency && Validate(dto, key, env.validateAt) == None
    requires t.idempotency[key].expiresAt < env.checkAt <= env.recheckAt <= env.recoverAt && env.faults == []
    ensures var id, d := t.idempotency[key].responseBody.id, DraftOf(dto, key);
            && id < |t.requests|
            && (CreateRequest(t, dto, key, env) == (t, Returned(Serialize(id, t.requests[id]))) <==>
                 !Overlaps(t.requests, d) && AtomicDeduct(t.balances, DraftKey(d), d.days as real).Ok?)
  {
    ExpiredInLane(t, DraftOf(dto, key), env);
  }

  lemma ExpiredInLane(t: Tables, d: Draft, env: Env)
    requires Inv(t) && d.idempotencyKey in t.idempotency && env.faults == []
    requires t.idempotency[d.idempotencyKey].expiresAt < env.recheckAt <= env.recoverAt
    ensures var id := t.idempotency[d.idempotencyKey].responseBody.id;
            && id < |t.requests|
            && (InLane(t, d, env) == (t, Returned(Serialize(id, t.requests[id]))) <==>
                 !Overlaps(t.requests, d) && AtomicDeduct(t.balances, DraftKey(d), d.days as real).Ok?)
  {
    var expiresAt := env.commitAt + IDEMPOTENCY_TTL_MS;
    RecoversOldRequest(t, d, env.recoverAt);
    NoFaultNoRetry(t, d, env);
    UsedKeyNeverCommits(t, d, expiresAt);
  }

  lemma NoFaultNoRetry(t: Tables, d: Draft, env: Env)
    requires env.faults == []
    ensures Attempts(t, d, env, 1) == CreateTx(t, d, env.commitAt + IDEMPOTENCY_TTL_MS)
  {
    OwnErrorComesFirst(t, d, 0, env.commitAt + IDEMPOTENCY_TTL_MS);
  }

  lemma RecoversOldRequest(t: Tables, d: Draft, now: int)
    requires OneToOne(t) && d.idempotencyKey in t.idempotency && t.idempotency[d.idempotencyKey].expiresAt < now
    ensures var id := t.idempotency[d.idempotencyKey].responseBody.id;
            id < |t.requests| && Recover(t, d.idempotencyKey, d.requestHash, now) == Cached(Serialize(id, t.requests[id]))
  {
    UniqueKeyHasOneRow(t, d.idempotencyKey);
  }

  lemma UsedKeyNeverCommits(t: Tables, d: Draft, expiresAt: int)
    requires OneToOne(t) && d.idempotencyKey in t.idempotency
    ensures CreateTx(t, d, expiresAt).Err?
    ensures CreateTx(t, d, expiresAt) == Err(UniqueViolation) <==>
            !Overlaps(t.requests, d) && AtomicDeduct(t.balances, DraftKey(d), d.days as real).Ok?
    ensures CreateTx(t, d, expiresAt) != Err(TransientTxError)
  {
    assert KeyTaken(t.requests, d.idempotencyKey);
  }

  lemma KeysIdentify(t: Tables, i: nat, j: nat)
    requires OneToOne(t) && i < |t.requests| && j < |t.requests|
    requires t.requests[i].idempotencyKey == t.requests[j].idempotencyKey
    ensures i == j
  {
  }

  lemma UniqueKeyHasOneRow(t: Tables, key: string)
    requires OneToOne(t) && key in t.idempotency
    ensures FindByKey(t.requests, key) == Some(t.idempotency[key].responseBody.id)
  {
    var id := t.idempotency[key].responseBody.id;
    assert t.requests[id].idempotencyKey == key;
    assert KeyTaken(t.requests, key);
    KeysIdentify(t, id, FindByKey(t.requests, key).value);
  }

  /** A clash on the unique key is always explained: the caller gets the request of its key, or is told that the
      payload differs; the constraint error itself is never what comes back. */
  lemma ClashIsExplained(t: Tables, d: Draft, now: int)
    requires Inv(t) && (KeyTaken(t.requests, d.idempotencyKey) || d.idempotencyKey in t.idempotency)
    ensures var answer := AfterFailure(t, d, UniqueViolation, now);
            var id, row := t.idempotency[d.idempotencyKey].responseBody.id, t.idempotency[d.idempotencyKey];
            && d.idempotencyKey in t.idempotency && id < |t.requests|
            && answer == (if row.expiresAt < now then Returned(Serialize(id, t.requests[id]))
                          else if row.requestHash == d.requestHash then Returned(row.responseBody)
                          else Thrown(IdempotencyConflict))
  {
    if d.idempotencyKey in t.idempotency {
      UniqueKeyHasOneRow(t, d.idempotencyKey);
    }
  }

  // ---- Many calls, interleaved -----------------------------------------------------------------

  /** Where a call stands between its database steps. */
  datatype Stage =
    | Checking              // validated, before the first idempotency check
    | Rechecking            // in the lane, before the second check
    | Trying(attempt: nat)  // about to run the transaction
    | Failed(error: Error)  // the transaction gave up; about to recover
    | Done(answer: Answer)

  datatype Call = Call(draft: Draft, stage: Stage)

  /** `commits` lists, request by request, the call that inserted it. */
  datatype System = System(tables: Tables, calls: seq<Call>, commits: seq<nat>)

  const START := System(EMPTY, [], [])

  datatype Step =
    | Submit(dto: Dto, key: string, at: int)
    | Check(i: nat, at: int)
    | Recheck(i: nat, at: int)
    | Attempt(i: nat, fault: Fault, at: int)
    | RecoverStep(i: nat, at: int)
    | Other(op: Op)

  predicate Enabled(s: System, a: Step) {
    match a
    case Submit(_, _, _) => true
    case Check(i, _) => i < |s.calls| && s.calls[i].stage == Checking
    case Recheck(i, _) => i < |s.calls| && s.calls[i].stage == Rechecking
    case Attempt(i, _, _) => i < |s.calls| && s.calls[i].stage.Trying?
    case RecoverStep(i, _) => i < |s.calls| && s.calls[i].stage.Failed?
    case Other(op) => !op.Create? && Admissible(op)
  }

  function AfterCheck(t: Tables, d: Draft, now: int, onAbsent: Stage): Stage {
    match CheckIdempotency(t, d.idempotencyKey, d.requestHash, now)
    case Cached(b) => Done(Returned(b))
    case Conflict => Done(Thrown(IdempotencyConflict))
    case Absent => onAbsent
  }

  function AfterAttempt(attempt: nat, e: Error): Stage {
    if e == TransientTxError && attempt < MAX_ATTEMPTS then Trying(attempt + 1)
    else if e == TransientTxError || e == UniqueViolation then Failed(e)
    else Done(Thrown(e))
  }

  function Move(s: System, i: nat, st: Stage): System
    requires i < |s.calls|
  {
    s.(calls := s.calls[i := s.calls[i].(stage := st)])
  }

  function Do(s: System, a: Step): System
    requires Enabled(s, a)
  {
    match a
    case Submit(dto, key, at) =>
      var st := match Validate(dto, key, at) case Some(e) => Done(Thrown(e)) case None => Checking;
      s.(calls := s.calls + [Call(DraftOf(dto, key), st)])
    case Check(i, at) => Move(s, i, AfterCheck(s.tables, s.calls[i].draft, at, Rechecking))
    case Recheck(i, at) => Move(s, i, AfterCheck(s.tables, s.calls[i].draft, at, Trying(1)))
    case Attempt(i, fault, at) =>
      var d := s.calls[i].draft;
      (match TryOnce(s.tables, d, fault, at)
       case Ok(t') =>
         Move(s, i, Done(Returned(Serialize(|s.tables.requests|, NewRequest(d))))).(tables := t', commits := s.commits + [i])
       case Err(e) => Move(s, i, AfterAttempt(s.calls[i].stage.attempt, e)))
    case RecoverStep(i, at) =>
      Move(s, i, Done(AfterFailure(s.tables, s.calls[i].draft, s.calls[i].stage.error, at)))
    case Other(op) => s.(tables := Apply(s.tables, op))
  }

  predicate Executes(s: System, steps: seq<Step>, end: System)
    decreases |steps|
  {
    if steps == [] then s == end
    else Enabled(s, steps[0]) && Executes(Do(s, steps[0]), steps[1..], end)
  }

  /** The answer describes the one request stored under the key. */
  predicate Describes(t: Tables, key: string, b: Body) {
    b.id < |t.requests| && b.idempotencyKey == key && t.requests[b.id].idempotencyKey == key
    && SameContent(b, t.requests[b.id])
  }

  predicate CallSound(s: System, c: Call) {
    && (c.stage.Done? && c.stage.answer.Returned? ==> Describes(s.tables, c.draft.idempotencyKey, c.stage.answer.body))
    && (!c.stage.Done? ==> ValidDraft(c.draft))
  }

  predicate CommitSound(s: System, j: nat)
    requires j < |s.commits|
  {
    && j < |s.tables.requests|
    && s.commits[j] < |s.calls|
    && var c := s.calls[s.commits[j]];
       c.draft.idempotencyKey == s.tables.requests[j].idempotencyKey && c.stage.Done? && c.stage.answer.Returned?
  }

  predicate SystemInv(s: System) {
    && Inv(s.tables)
    && |s.commits| == |s.tables.requests|
    && (forall i :: 0 <= i < |s.calls| ==> CallSound(s, s.calls[i]))
    && (forall j :: 0 <= j < |s.commits| ==> CommitSound(s, j))
  }

  lemma DescribesLater(t: Tables, t': Tables, key: string, b: Body)
    requires Later(t, t') && Describes(t, key, b)
    ensures Describes(t', key, b)
  {
    assert SameIdentity(t'.requests[b.id], t.requests[b.id]);
  }

  /** Every cached or recovered answer describes the request of its key. */
  lemma RecoveredDescribes(t: Tables, d: Draft, now: int)
    requires Inv(t)
    ensures var h := CheckIdempotency(t, d.idempotencyKey, d.requestHash, now);
            h.Cached? ==> Describes(t, d.idempotencyKey, h.body)
    ensures var h := Recover(t, d.idempotencyKey, d.requestHash, now);
            h.Cached? ==> Describes(t, d.idempotencyKey, h.body)
  {
  }

  /** A step in which a call only moves on. */
  lemma MoveKeepsInv(s: System, i: nat, st: Stage)
    requires SystemInv(s) && i < |s.calls| && !s.calls[i].stage.Done?
    requires CallSound(s, s.calls[i].(stage := st))
    ensures SystemInv(Move(s, i, st))
  {
    var s' := Move(s, i, st);
    forall j | 0 <= j < |s.commits|
      ensures CommitSound(s', j)
    {
      assert CommitSound(s, j);
    }
    forall k | 0 <= k < |s'.calls|
      ensures CallSound(s', s'.calls[k])
    {
      assert CallSound(s, s.calls[k]);
    }
  }

  /** A step in which the tables move on and no call does. */
  lemma TablesMoveOn(s: System, t': Tables)
    requires SystemInv(s) && Inv(t') && Later(s.tables, t') && |t'.requests| == |s.tables.requests|
    ensures SystemInv(s.(tables := t'))
  {
    var s' := s.(tables := t');
    forall k | 0 <= k < |s.calls|
      ensures CallSound(s', s.calls[k])
    {
      assert CallSound(s, s.calls[k]);
      var c := s.calls[k];
      if c.stage.Done? && c.stage.answer.Returned? {
        DescribesLater(s.tables, t', c.draft.idempotencyKey, c.stage.answer.body);
      }
    }
    forall j: nat | j < |s.commits|
      ensures CommitSound(s', j)
    {
      assert CommitSound(s, j);
      assert SameIdentity(t'.requests[j], s.tables.requests[j]);
    }
  }

  /** Answers given earlier still hold after the tables have moved on. */
  lemma CallsStaySound(s: System, s': System, i: nat)
    requires i < |s.calls| == |s'.calls| && Later(s.tables, s'.tables)
    requires forall k :: 0 <= k < |s.calls| ==> CallSound(s, s.calls[k])
    requires s'.calls == s.calls[i := s'.calls[i]] && CallSound(s', s'.calls[i])
    ensures forall k :: 0 <= k < |s'.calls| ==> CallSound(s', s'.calls[k])
  {
    forall k | 0 <= k < |s'.calls|
      ensures CallSound(s', s'.calls[k])
    {
      if k != i {
        var c := s.calls[k];
        assert CallSound(s, c);
        if c.stage.Done? && c.stage.answer.Returned? {
          DescribesLater(s.tables, s'.tables, c.draft.idempotencyKey, c.stage.answer.body);
        }
      }
    }
  }

  lemma CommitsStaySound(s: System, s': System, i: nat)
    requires |s.commits| == |s.tables.requests| && forall j :: 0 <= j < |s.commits| ==> CommitSound(s, j)
    requires i < |s.calls| == |s'.calls| && s'.calls == s.calls[i := s'.calls[i]] && s'.commits == s.commits + [i]
    requires s'.calls[i].draft == s.calls[i].draft && s'.calls[i].stage.Done? && s'.calls[i].stage.answer.Returned?
    requires s'.tables.requests == s.tables.requests + [NewRequest(s.calls[i].draft)]
    ensures forall j :: 0 <= j < |s'.commits| ==> CommitSound(s', j)
  {
    forall j: nat | j < |s'.commits|
      ensures CommitSound(s', j)
    {
      if j < |s.commits| {
        assert CommitSound(s, j);
      }
    }
  }

  predicate Commits(s: System, i: nat, at: int) {
    Enabled(s, Attempt(i, NoFault, at)) && TryOnce(s.tables, s.calls[i].draft, NoFault, at).Ok?
  }

  /** What a committing attempt changes: the tables, the list of commits, and the call that made it. */
  lemma CommitShape(s: System, i: nat, at: int)
    requires Commits(s, i, at)
    ensures var s' := Do(s, Attempt(i, NoFault, at));
            && |s'.calls| == |s.calls| && s'.calls == s.calls[i := s'.calls[i]] && s'.commits == s.commits + [i]
            && s'.tables == Apply(s.tables, Create(s.calls[i].draft, at + IDEMPOTENCY_TTL_MS))
            && s'.tables.requests == s.tables.requests + [NewRequest(s.calls[i].draft)]
            && s'.calls[i].draft == s.calls[i].draft
            && s'.calls[i].stage == Done(Returned(Serialize(|s.tables.requests|, NewRequest(s.calls[i].draft))))
  {
  }

  lemma CommitterSound(s: System, i: nat, at: int)
    requires Commits(s, i, at)
    ensures CallSound(Do(s, Attempt(i, NoFault, at)), Do(s, Attempt(i, NoFault, at)).calls[i])
  {
    CommitShape(s, i, at);
  }

  lemma CommitKeepsInv(s: System, i: nat, at: int)
    requires SystemInv(s) && Commits(s, i, at)
    ensures SystemInv(Do(s, Attempt(i, NoFault, at)))
  {
    var op := Create(s.calls[i].draft, at + IDEMPOTENCY_TTL_MS);
    var s' := Do(s, Attempt(i, NoFault, at));
    assert CallSound(s, s.calls[i]);
    CommitShape(s, i, at);
    CommitterSound(s, i, at);
    OpKeepsInv(s.tables, op);
    OpIsLater(s.tables, op);
    CallsStaySound(s, s', i);
    CommitsStaySound(s, s', i);
  }

  lemma SubmitKeepsInv(s: System, dto: Dto, key: string, at: int)
    requires SystemInv(s)
    ensures SystemInv(Do(s, Submit(dto, key, at)))
  {
    if Validate(dto, key, at).None? {
      ValidatedDraft(dto, key, at);
    }
    JoinKeepsInv(s, Do(s, Submit(dto, key, at)).calls[|s.calls|]);
  }

  lemma JoinKeepsInv(s: System, c: Call)
    requires SystemInv(s) && CallSound(s, c)
    ensures SystemInv(s.(calls := s.calls + [c]))
  {
    var s' := s.(calls := s.calls + [c]);
    forall j: nat | j < |s.commits|
      ensures CommitSound(s', j)
    {
      assert CommitSound(s, j);
    }
    forall k | 0 <= k < |s'.calls|
      ensures CallSound(s', s'.calls[k])
    {
      if k < |s.calls| { assert CallSound(s, s.calls[k]); }
    }
  }

  lemma OtherKeepsInv(s: System, op: Op)
    requires SystemInv(s) && Enabled(s, Other(op))
    ensures SystemInv(Do(s, Other(op)))
  {
    OpKeepsInv(s.tables, op);
    OpIsLater(s.tables, op);
    TablesMoveOn(s, Apply(s.tables, op));
  }

  lemma StepKeepsInv(s: System, a: Step)
    requires SystemInv(s) && Enabled(s, a)
    ensures SystemInv(Do(s, a))
  {
    match a
    case Submit(dto, key, at) => SubmitKeepsInv(s, dto, key, at);
    case Check(i, at) =>
      RecoveredDescribes(s.tables, s.calls[i].draft, at);
      assert CallSound(s, s.calls[i]);
      MoveKeepsInv(s, i, AfterCheck(s.tables, s.calls[i].draft, at, Rechecking));
    case Recheck(i, at) =>
      RecoveredDescribes(s.tables, s.calls[i].draft, at);
      assert CallSound(s, s.calls[i]);
      MoveKeepsInv(s, i, AfterCheck(s.tables, s.calls[i].draft, at, Trying(1)));
    case Attempt(i, fault, at) =>
      assert CallSound(s, s.calls[i]);
      var r := TryOnce(s.tables, s.calls[i].draft, fault, at);
      if r.Ok? {
        CommitKeepsInv(s, i, at);
      } else {
        MoveKeepsInv(s, i, AfterAttempt(s.calls[i].stage.attempt, r.error));
      }
    case RecoverStep(i, at) =>
      RecoveredDescribes(s.tables, s.calls[i].draft, at);
      assert CallSound(s, s.calls[i]);
      MoveKeepsInv(s, i, Done(AfterFailure(s.tables, s.calls[i].draft, s.calls[i].stage.error, at)));
    case Other(op) => OtherKeepsInv(s, op);
  }

  lemma {:induction false} AllSchedulesKeepInv(s: System, steps: seq<Step>, end: System)
    requires SystemInv(s) && Executes(s, steps, end)
    ensures SystemInv(end)
    decreases |steps|
  {
    if steps != [] {
      StepKeepsInv(s, steps[0]);
      AllSchedulesKeepInv(Do(s, steps[0]), steps[1..], end);
    }
  }

  /** Exactly once: on every interleaving of any number of calls - replays, key clashes, expiries, transient
      failures and retries included, with any clock - each key has at most one request; every call that
      returns, returns that request of its key; and a request was inserted by one call of its key, which
      did not throw. The balances add up to those requests (`Inv`), so each was deducted once. */
  lemma ExactlyOnce(steps: seq<Step>, s: System)
    requires Executes(START, steps, s)
    ensures Inv(s.tables)
    ensures forall i, j :: 0 <= i < j < |s.tables.requests| ==>
              s.tables.requests[i].idempotencyKey != s.tables.requests[j].idempotencyKey
    ensures forall i :: 0 <= i < |s.calls| && s.calls[i].stage.Done? && s.calls[i].stage.answer.Returned?
              ==> Describes(s.tables, s.calls[i].draft.idempotencyKey, s.calls[i].stage.answer.body)
    ensures |s.commits| == |s.tables.requests| && forall j :: 0 <= j < |s.commits| ==> CommitSound(s, j)
  {
    EmptyTablesAgree();
    AllSchedulesKeepInv(START, steps, s);
  }

  /** A call that has thrown inserted nothing. */
  lemma ThrownCallsCommittedNothing(steps: seq<Step>, s: System, i: nat)
    requires Executes(START, steps, s) && i < |s.calls| && s.calls[i].stage.Done? && s.calls[i].stage.answer.Thrown?
    ensures i !in s.commits
  {
    ExactlyOnce(steps, s);
    forall j: nat | j < |s.commits|
      ensures s.commits[j] != i
    {
      assert CommitSound(s, j);
    }
  }

  /** No two requests were inserted under the same key, so no call inserted two. */
  lemma CommittersDiffer(steps: seq<Step>, s: System, j: nat, k: nat)
    requires Executes(START, steps, s) && j < k < |s.commits|
    ensures s.commits[j] < |s.calls| && s.commits[k] < |s.calls|
    ensures s.calls[s.commits[j]].draft.idempotencyKey != s.calls[s.commits[k]].draft.idempotencyKey
  {
    ExactlyOnce(steps, s);
    assert CommitSound(s, j);
    assert CommitSound(s, k);
    assert s.tables.requests[j].idempotencyKey != s.tables.requests[k].idempotencyKey;
  }

  // ---- One call alone is one schedule ----------------------------------------------------------

  lemma FirstStep(s: System, a: Step, rest: seq<Step>, end: System)
    requires Enabled(s, a) && Executes(Do(s, a), rest, end)
    ensures Executes(s, [a] + rest, end)
  {
    assert ([a] + rest)[1..] == rest;
  }

  /** The call has ended with the given tables and answer. */
  predicate EndedWith(end: System, i: nat, t: Tables, answer: Answer) {
    i < |end.calls| && end.calls[i].stage == Done(answer) && end.tables == t
  }

  function AnswerOf(t: Tables, d: Draft, r: Result<Tables, Error>, recoverAt: int): (Tables, Answer) {
    match r
    case Ok(t') => (t', Returned(Serialize(|t.requests|, NewRequest(d))))
    case Err(e) => (t, AfterFailure(t, d, e, recoverAt))
  }

  lemma {:induction false} FromTrying(s: System, i: nat, n: nat, env: Env) returns (steps: seq<Step>, end: System)
    requires i < |s.calls| && s.calls[i].stage == Trying(n) && 1 <= n <= MAX_ATTEMPTS
    ensures Executes(s, steps, end) && |end.calls| == |s.calls|
    ensures var (t', answer) := AnswerOf(s.tables, s.calls[i].draft, Attempts(s.tables, s.calls[i].draft, env, n), env.recoverAt);
            EndedWith(end, i, t', answer)
    decreases MAX_ATTEMPTS - n
  {
    var a := Attempt(i, FaultAt(env, n), env.commitAt);
    var mid := Do(s, a);
    var r := TryOnce(s.tables, s.calls[i].draft, FaultAt(env, n), env.commitAt);
    var rest;
    if r.Err? && r.error == TransientTxError && n < MAX_ATTEMPTS {
      rest, end := FromTrying(mid, i, n + 1, env);
    } else if mid.calls[i].stage.Failed? {
      rest, end := FromFailed(mid, i, env.recoverAt);
    } else {
      rest, end := [], mid;
    }
    steps := [a] + rest;
    FirstStep(s, a, rest, end);
  }

  lemma FromFailed(s: System, i: nat, at: int) returns (steps: seq<Step>, end: System)
    requires i < |s.calls| && s.calls[i].stage.Failed?
    ensures Executes(s, steps, end) && |end.calls| == |s.calls|
    ensures EndedWith(end, i, s.tables, AfterFailure(s.tables, s.calls[i].draft, s.calls[i].stage.error, at))
  {
    end := Do(s, RecoverStep(i, at));
    steps := [RecoverStep(i, at)] + [];
    FirstStep(s, RecoverStep(i, at), [], end);
  }

  lemma FromRechecking(s: System, i: nat, env: Env) returns (steps: seq<Step>, end: System)
    requires i < |s.calls| && s.calls[i].stage == Rechecking
    ensures Executes(s, steps, end) && |end.calls| == |s.calls|
    ensures var (t', answer) := InLane(s.tables, s.calls[i].draft, env); EndedWith(end, i, t', answer)
  {
    var a := Recheck(i, env.recheckAt);
    var mid := Do(s, a);
    var rest;
    if mid.calls[i].stage == Trying(1) {
      rest, end := FromTrying(mid, i, 1, env);
    } else {
      rest, end := [], mid;
    }
    steps := [a] + rest;
    FirstStep(s, a, rest, end);
  }

  lemma FromChecking(s: System, i: nat, env: Env) returns (steps: seq<Step>, end: System)
    requires i < |s.calls| && s.calls[i].stage == Checking
    ensures Executes(s, steps, end) && |end.calls| == |s.calls|
    ensures var d := s.calls[i].draft;
            var (t', answer) := match CheckIdempotency(s.tables, d.idempotencyKey, d.requestHash, env.checkAt)
                                case Cached(b) => (s.tables, Returned(b))
                                case Conflict => (s.tables, Thrown(IdempotencyConflict))
                                case Absent => InLane(s.tables, d, env);
            EndedWith(end, i, t', answer)
  {
    var a := Check(i, env.checkAt);
    var mid := Do(s, a);
    var rest;
    if mid.calls[i].stage == Rechecking {
      rest, end := FromRechecking(mid, i, env);
    } else {
      rest, end := [], mid;
    }
    steps := [a] + rest;
    FirstStep(s, a, rest, end);
  }

  /** A call that nobody interrupts is one schedule of the interleaved system, with the same tables and the
      same answer: what holds on every schedule holds of `CreateRequest`. */
  lemma AloneIsOneSchedule(s: System, dto: Dto, key: string, env: Env) returns (steps: seq<Step>, end: System)
    ensures Executes(s, steps, end) && |end.calls| == |s.calls| + 1
    ensures var (t', answer) := CreateRequest(s.tables, dto, key, env); EndedWith(end, |s.calls|, t', answer)
  {
    var a := Submit(dto, key, env.validateAt);
    var mid := Do(s, a);
    var rest;
    if mid.calls[|s.calls|].stage == Checking {
      rest, end := FromChecking(mid, |s.calls|, env);
    } else {
      rest, end := [], mid;
    }
    steps := [a] + rest;
    FirstStep(s, a, rest, end);
  }
}
