/** When a create succeeds and what it leaves, in terms of the request alone. */
module Creation {
  import opened Wrappers
  import opened DayRanges
  import opened Dates
  import opened CanonicalJson
  import opened Ledger
  import opened Coverage
  import opened CreateProtocol

  /** The dates are in order and do not start in the past. */
  predicate DatesHold(dto: Dto, now: int) {
    now / 86400000 <= DayNumber(dto.startDate) <= DayNumber(dto.endDate)
  }

  /** No pending or approved request of the employee and place has a day in common with the wanted ones. */
  predicate DaysFree(t: Tables, dto: Dto) {
    forall i :: 0 <= i < |t.requests| ==>
      var r := t.requests[i];
      (r.status == Pending || r.status == Approved) && r.employeeId == dto.employeeId && r.locationId == dto.locationId
      ==> r.endDay < DayNumber(dto.startDate) || DayNumber(dto.endDate) < r.startDay
  }

  function WantedDays(dto: Dto): nat {
    var first, last := DayNumber(dto.startDate), DayNumber(dto.endDate);
    if first <= last then last - first + 1 else 0
  }

  function WantedKey(dto: Dto): BalanceKey {
    BalanceKey(dto.employeeId, dto.locationId, dto.leaveType)
  }

  lemma OverlapsIffTaken(t: Tables, dto: Dto, key: string)
    ensures Overlaps(t.requests, DraftOf(dto, key)) <==> !DaysFree(t, dto)
  {
  }

  lemma ExactDraft(dto: Dto, key: string, now: int)
    requires DatesHold(dto, now)
    ensures var d := DraftOf(dto, key);
            && d.idempotencyKey == key && DraftKey(d) == WantedKey(dto) && d.days == WantedDays(dto)
            && d.startDay == DayNumber(dto.startDate) && d.endDay == DayNumber(dto.endDate)
            && d.notes == (if dto.notes == Some("") then None else dto.notes)
  {
    DaysRequestedCountsDays(dto.startDate, dto.endDate);
  }

  /** Without database faults, a valid create under a new key is its transaction. */
  lemma UndisturbedCreate(t: Tables, dto: Dto, key: string, env: Env)
    requires Inv(t) && key !in t.idempotency && env.faults == [] && Validate(dto, key, env.validateAt) == None
    ensures var d := DraftOf(dto, key);
            CreateRequest(t, dto, key, env)
            == match CreateTx(t, d, env.commitAt + 24 * 3600 * 1000)
               case Ok(t') => (t', Returned(Serialize(|t.requests|, NewRequest(d))))
               case Err(e) => (t, Thrown(e))
  {
    var d := DraftOf(dto, key);
    NoFaultNoRetry(t, d, env);
    NewKeyNotTaken(t, key);
    OwnErrorComesFirst(t, d, 0, env.commitAt + 24 * 3600 * 1000);
  }

  lemma NewKeyNotTaken(t: Tables, key: string)
    requires Inv(t) && key !in t.idempotency
    ensures !KeyTaken(t.requests, key)
  {
  }

  lemma NewKeyTx(t: Tables, d: Draft, expiresAt: int)
    requires !KeyTaken(t.requests, d.idempotencyKey) && d.idempotencyKey !in t.idempotency
    ensures var r := CreateTx(t, d, expiresAt);
            if Overlaps(t.requests, d) then r == Err(OverlappingRequest)
            else if DraftKey(d) !in t.balances then r == Err(BalanceNotFound)
            else if t.balances[DraftKey(d)].available < d.days as real then r == Err(InsufficientBalance)
            else r.Ok?
  {
  }

  /** The whole of create, for a new key and without faults: it returns a new request if and only if the key is
      there, the dates hold, the days are free and the balance exists and holds them; otherwise nothing
      changes and the error names the first of these that fails. */
  lemma CreateSucceedsIff(t: Tables, dto: Dto, key: string, env: Env)
    requires Inv(t) && key !in t.idempotency && env.faults == []
    ensures var (t', answer) := CreateRequest(t, dto, key, env);
            if key == "" then (t', answer) == (t, Thrown(MissingIdempotencyKey))
            else if !DatesHold(dto, env.validateAt) then (t', answer) == (t, Thrown(InvalidDateRange))
            else if !DaysFree(t, dto) then (t', answer) == (t, Thrown(OverlappingRequest))
            else if WantedKey(dto) !in t.balances then (t', answer) == (t, Thrown(BalanceNotFound))
            else if t.balances[WantedKey(dto)].available < WantedDays(dto) as real
            then (t', answer) == (t, Thrown(InsufficientBalance))
            else answer.Returned? && t' != t
  {
    ChecksPassIff(dto, key, env.validateAt);
    if Validate(dto, key, env.validateAt) == None {
      var d := DraftOf(dto, key);
      ExactDraft(dto, key, env.validateAt);
      OverlapsIffTaken(t, dto, key);
      UndisturbedCreate(t, dto, key, env);
      NewKeyNotTaken(t, key);
      NewKeyTx(t, d, env.commitAt + 24 * 3600 * 1000);
      if CreateTx(t, d, env.commitAt + 24 * 3600 * 1000).Ok? {
        CreateEffect(t, d, env.commitAt + 24 * 3600 * 1000, CreateTx(t, d, env.commitAt + 24 * 3600 * 1000).value);
      }
    }
  }

  /** The request such a create adds, and the answer it gives and stores. */
  function Created(dto: Dto, key: string): Request {
    Request(key, dto.employeeId, dto.locationId, dto.leaveType, DayNumber(dto.startDate), DayNumber(dto.endDate),
            WantedDays(dto), Pending, None, None, if dto.notes == Some("") then None else dto.notes,
            false, SyncPending, 0)
  }

  function Confirmation(id: nat, dto: Dto, key: string): Body {
    Body(id, key, dto.employeeId, dto.locationId, dto.leaveType, DayNumber(dto.startDate), DayNumber(dto.endDate),
         WantedDays(dto), Pending, dto.employeeId, None, None, if dto.notes == Some("") then None else dto.notes,
         false, SyncPending)
  }

  lemma CommittedTx(t: Tables, dto: Dto, key: string, expiresAt: int, now: int)
    requires DatesHold(dto, now) && CreateTx(t, DraftOf(dto, key), expiresAt).Ok?
    ensures var k, days := WantedKey(dto), WantedDays(dto) as real;
            && k in t.balances
            && CreateTx(t, DraftOf(dto, key), expiresAt).value
               == Tables(t.balances[k := t.balances[k].(available := t.balances[k].available - days,
                                                        pending := t.balances[k].pending + days)],
                         t.requests + [Created(dto, key)],
                         t.idempotency[key := IdempotencyRow(dto.employeeId, SortObjectKeys(dto.payload),
                                                             Confirmation(|t.requests|, dto, key), expiresAt)])
    ensures Serialize(|t.requests|, NewRequest(DraftOf(dto, key))) == Confirmation(|t.requests|, dto, key)
  {
    ExactDraft(dto, key, now);
  }

  /** What a create that succeeds leaves and answers: one pending request with the caller's own content, its days
      moved from available to pending, and its key good for exactly 24 hours. */
  lemma CreatedContent(t: Tables, dto: Dto, key: string, env: Env)
    requires Inv(t) && key !in t.idempotency && env.faults == []
    requires CreateRequest(t, dto, key, env).1.Returned?
    ensures var k, days := WantedKey(dto), WantedDays(dto) as real;
            && k in t.balances
            && CreateRequest(t, dto, key, env)
               == (Tables(t.balances[k := t.balances[k].(available := t.balances[k].available - days,
                                                         pending := t.balances[k].pending + days)],
                          t.requests + [Created(dto, key)],
                          t.idempotency[key := IdempotencyRow(dto.employeeId, SortObjectKeys(dto.payload),
                                                              Confirmation(|t.requests|, dto, key),
                                                              env.commitAt + 86400000)]),
                   Returned(Confirmation(|t.requests|, dto, key)))
  {
    CreateSucceedsIff(t, dto, key, env);
    ChecksPassIff(dto, key, env.validateAt);
    UndisturbedCreate(t, dto, key, env);
    CommittedTx(t, dto, key, env.commitAt + 86400000, env.validateAt);
  }
}
