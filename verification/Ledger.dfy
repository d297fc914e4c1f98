/** The tables of the service and every operation on them as a function from tables to tables:
    src/modules/balance/balance.service.js, the transactions of src/modules/timeoff/timeoff.service.js
    and the per-record updates of src/modules/hcm/hcm-sync.service.js. A transaction that throws
    leaves the tables as they were. Amounts are exact; dates are day numbers. */
module Ledger {
  import opened Wrappers
  import opened CanonicalJson

  datatype LeaveType = Vacation | Sick | Personal | Maternity | Paternity | Bereavement

  function LeaveName(l: LeaveType): string {
    match l
    case Vacation => "VACATION"
    case Sick => "SICK"
    case Personal => "PERSONAL"
    case Maternity => "MATERNITY"
    case Paternity => "PATERNITY"
    case Bereavement => "BEREAVEMENT"
  }

  lemma LeaveNamesDiffer(a: LeaveType, b: LeaveType)
    ensures LeaveName(a) == LeaveName(b) ==> a == b
  {
    assert LeaveName(a) == LeaveName(b) ==> |LeaveName(a)| == |LeaveName(b)| && LeaveName(a)[0] == LeaveName(b)[0];
  }

  datatype RequestStatus = Pending | Approved | Rejected | Cancelled

  datatype SyncStatus = SyncPending | SyncSuccess | SyncFailed | SyncSkipped

  datatype BalanceKey = BalanceKey(employeeId: string, locationId: string, leaveType: LeaveType)

  datatype Balance = Balance(total: real, available: real, pending: real, used: real, hcmTotal: real,
                             hcmVersion: Option<string>, hasDiscrepancy: bool, discrepancyAmount: Option<real>)

  datatype Request = Request(idempotencyKey: string, employeeId: string, locationId: string, leaveType: LeaveType,
                             startDay: int, endDay: int, daysRequested: nat, status: RequestStatus,
                             approvedBy: Option<string>, rejectionReason: Option<string>, notes: Option<string>,
                             hcmValidated: bool, syncStatus: SyncStatus, syncAttempts: nat)

  /** `_serializeRequest`. */
  datatype Body = Body(id: nat, idempotencyKey: string, employeeId: string, locationId: string, leaveType: LeaveType,
                       startDay: int, endDay: int, daysRequested: nat, status: RequestStatus, requestedBy: string,
                       approvedBy: Option<string>, rejectionReason: Option<string>, notes: Option<string>,
                       hcmValidated: bool, syncStatus: SyncStatus)

  datatype IdempotencyRow = IdempotencyRow(employeeId: string, requestHash: Json, responseBody: Body, expiresAt: int)

  /** A request's id is its place in the table: rows are only ever added. */
  datatype Tables = Tables(balances: map<BalanceKey, Balance>, requests: seq<Request>,
                           idempotency: map<string, IdempotencyRow>)

  const EMPTY := Tables(map[], [], map[])

  datatype Error =
    | MissingIdempotencyKey | InvalidDateRange | IdempotencyConflict
    | OverlappingRequest | BalanceNotFound | InsufficientBalance | BalanceConflict
    | RequestNotFound | InvalidStatusTransition
    | UniqueViolation | TransientTxError | DatabaseError

  function KeyOf(r: Request): BalanceKey {
    BalanceKey(r.employeeId, r.locationId, r.leaveType)
  }

  predicate Active(r: Request) {
    r.status == Pending || r.status == Approved
  }

  function Serialize(id: nat, r: Request): Body {
    Body(id, r.idempotencyKey, r.employeeId, r.locationId, r.leaveType, r.startDay, r.endDay, r.daysRequested,
         r.status, r.employeeId, r.approvedBy, r.rejectionReason, r.notes, r.hcmValidated, r.syncStatus)
  }

  // ---- Balances --------------------------------------------------------------------------------

  type Balances = map<BalanceKey, Balance>

  function AtomicDeduct(bs: Balances, k: BalanceKey, days: real): Result<Balances, Error> {
    if k !in bs then Err(BalanceNotFound)
    else
      var b := bs[k];
      if b.available < days then Err(InsufficientBalance)
      else Ok(bs[k := b.(available := b.available - days, pending := b.pending + days)])
  }

  function ReleaseFromPending(bs: Balances, k: BalanceKey, days: real): Result<Balances, Error> {
    if k !in bs then Err(BalanceNotFound)
    else
      var b := bs[k];
      if b.pending < days then Err(BalanceConflict)
      else Ok(bs[k := b.(pending := b.pending - days, available := b.available + days)])
  }

  function FinalizeUsed(bs: Balances, k: BalanceKey, days: real): Result<Balances, Error> {
    if k !in bs then Err(BalanceNotFound)
    else
      var b := bs[k];
      if b.pending < days then Err(BalanceConflict)
      else Ok(bs[k := b.(pending := b.pending - days, used := b.used + days)])
  }

  function NewBalance(total: real, version: Option<string>): Balance {
    Balance(total, total, 0.0, 0.0, total, version, false, None)
  }

  function UpsertBalance(bs: Balances, k: BalanceKey, total: real): Balances {
    if k in bs then bs else bs[k := NewBalance(total, None)]
  }

  /** `version || null`. */
  function VersionOrNull(v: Option<string>): Option<string> {
    if v == Some("") then None else v
  }

  function LocalTotal(b: Balance): real {
    b.used + b.pending + b.available
  }

  function Abs(x: real): real {
    if x < 0.0 then -x else x
  }

  const REALTIME_TOLERANCE: real := 0.001
  const DRIFT_TOLERANCE: real := 0.01

  function ApplyHcmRealTimeUpdate(bs: Balances, k: BalanceKey, hcmTotal: real, version: Option<string>): Balances {
    if k !in bs then bs
    else
      var b := bs[k];
      var drift := hcmTotal - LocalTotal(b);
      var raised := if drift > REALTIME_TOLERANCE then b.(available := b.available + drift, total := hcmTotal) else b;
      var short := drift < -REALTIME_TOLERANCE;
      bs[k := raised.(hcmTotal := hcmTotal, hcmVersion := VersionOrNull(version), hasDiscrepancy := short,
                      discrepancyAmount := if short then Some(Abs(drift)) else None)]
  }

  /** One HCM record against one local record. */
  function Reconciled(local: Option<Balance>, hcmTotal: real, version: Option<string>): Balance {
    match local
    case None => NewBalance(hcmTotal, VersionOrNull(version))
    case Some(b) =>
      var drift := hcmTotal - LocalTotal(b);
      var synced := b.(hcmTotal := hcmTotal, hcmVersion := VersionOrNull(version));
      if Abs(drift) <= DRIFT_TOLERANCE then synced.(hasDiscrepancy := false, discrepancyAmount := None)
      else if drift > DRIFT_TOLERANCE then
        synced.(total := hcmTotal, available := b.available + drift, hasDiscrepancy := false, discrepancyAmount := None)
      else synced.(hasDiscrepancy := true, discrepancyAmount := Some(Abs(drift)))
  }

  function Lookup<K, V>(m: map<K, V>, k: K): Option<V> {
    if k in m then Some(m[k]) else None
  }

  function ReconcileRecord(bs: Balances, k: BalanceKey, hcmTotal: real, version: Option<string>): Balances {
    bs[k := Reconciled(Lookup(bs, k), hcmTotal, version)]
  }

  function Flagged(b: Balance): Balance {
    b.(hasDiscrepancy := true,
       discrepancyAmount := Some(if b.discrepancyAmount.Some? then b.discrepancyAmount.value else 0.0))
  }

  /** A local record the HCM snapshot does not mention. */
  function FlagMissing(bs: Balances, k: BalanceKey): Balances {
    if k in bs then bs[k := Flagged(bs[k])] else bs
  }

  // ---- Request transactions --------------------------------------------------------------------

  /** A validated create: what the transaction inserts. */
  datatype Draft = Draft(idempotencyKey: string, employeeId: string, locationId: string, leaveType: LeaveType,
                         startDay: int, endDay: int, days: nat, notes: Option<string>, requestHash: Json)

  predicate ValidDraft(d: Draft) {
    d.startDay <= d.endDay && d.days == d.endDay - d.startDay + 1
  }

  function DraftKey(d: Draft): BalanceKey {
    BalanceKey(d.employeeId, d.locationId, d.leaveType)
  }

  function NewRequest(d: Draft): Request {
    Request(d.idempotencyKey, d.employeeId, d.locationId, d.leaveType, d.startDay, d.endDay, d.days,
            Pending, None, None, d.notes, false, SyncPending, 0)
  }

  predicate Blocks(r: Request, employeeId: string, locationId: string, startDay: int, endDay: int) {
    && Active(r) && r.employeeId == employeeId && r.locationId == locationId
    && startDay <= r.endDay && r.startDay <= endDay
  }

  predicate Overlaps(rs: seq<Request>, d: Draft) {
    exists i :: 0 <= i < |rs| && Blocks(rs[i], d.employeeId, d.locationId, d.startDay, d.endDay)
  }

  predicate KeyTaken(rs: seq<Request>, key: string) {
    exists i :: 0 <= i < |rs| && rs[i].idempotencyKey == key
  }

  /** One run of the create transaction: overlap check, deduction, request row, idempotency row. */
  function CreateTx(t: Tables, d: Draft, expiresAt: int): Result<Tables, Error> {
    if Overlaps(t.requests, d) then Err(OverlappingRequest)
    else
      match AtomicDeduct(t.balances, DraftKey(d), d.days as real)
      case Err(e) => Err(e)
      case Ok(bs) =>
        if KeyTaken(t.requests, d.idempotencyKey) || d.idempotencyKey in t.idempotency then Err(UniqueViolation)
        else
          var r := NewRequest(d);
          var row := IdempotencyRow(d.employeeId, d.requestHash, Serialize(|t.requests|, r), expiresAt);
          Ok(Tables(bs, t.requests + [r], t.idempotency[d.idempotencyKey := row]))
  }

  /** VALID_TRANSITIONS. */
  function AllowedFrom(s: RequestStatus): set<RequestStatus> {
    if s == Pending then {Approved, Rejected, Cancelled} else {}
  }

  /** What a transition does to the balance: approval uses the pending days, the others give them back. */
  function Settle(target: RequestStatus, bs: Balances, k: BalanceKey, days: real): Result<Balances, Error> {
    if target == Approved then FinalizeUsed(bs, k, days) else ReleaseFromPending(bs, k, days)
  }

  /** The shape the three transitions share: load, check the transition, save the row, settle the balance. */
  function Transition(t: Tables, id: nat, target: RequestStatus, approvedBy: Option<string>, reason: Option<string>)
    : Result<Tables, Error>
  {
    if id >= |t.requests| then Err(RequestNotFound)
    else if target !in AllowedFrom(t.requests[id].status) then Err(InvalidStatusTransition)
    else
      var r := t.requests[id];
      var updated := r.(status := target, approvedBy := if approvedBy.Some? then approvedBy else r.approvedBy,
                        rejectionReason := if target == Approved then r.rejectionReason else reason);
      match Settle(target, t.balances, KeyOf(r), r.daysRequested as real)
      case Err(e) => Err(e)
      case Ok(bs) => Ok(t.(balances := bs, requests := t.requests[id := updated]))
  }

  function ApproveTx(t: Tables, id: nat, approver: string): Result<Tables, Error> {
    Transition(t, id, Approved, Some(approver), None)
  }

  function RejectTx(t: Tables, id: nat, approver: string, reason: Option<string>): Result<Tables, Error> {
    Transition(t, id, Rejected, Some(approver), reason)
  }

  function CancelTx(t: Tables, id: nat, reason: Option<string>): Result<Tables, Error> {
    Transition(t, id, Cancelled, None, reason)
  }

  /** HCM bookkeeping on a request row: the async helpers and the retry worker. */
  function SyncUpdate(t: Tables, id: nat, validated: bool, status: SyncStatus, attempts: nat): Tables {
    if id >= |t.requests| then t
    else t.(requests := t.requests[id := t.requests[id].(hcmValidated := validated, syncStatus := status, syncAttempts := attempts)])
  }

  datatype Op =
    | Create(draft: Draft, expiresAt: int)
    | Approve(id: nat, approver: string)
    | Reject(id: nat, approver: string, reason: Option<string>)
    | Cancel(id: nat, reason: Option<string>)
    | Upsert(key: BalanceKey, total: real)
    | RealTime(key: BalanceKey, total: real, version: Option<string>)
    | Reconcile(key: BalanceKey, total: real, version: Option<string>)
    | Flag(key: BalanceKey)
    | Sync(id: nat, validated: bool, status: SyncStatus, attempts: nat)

  /** Creates are validated before they reach the tables; totals from HCM and admins are not negative. */
  predicate Admissible(op: Op) {
    match op
    case Create(d, _) => ValidDraft(d)
    case Upsert(_, total) => total >= 0.0
    case RealTime(_, total, _) => total >= 0.0
    case Reconcile(_, total, _) => total >= 0.0
    case _ => true
  }

  function Committed(t: Tables, r: Result<Tables, Error>): Tables {
    if r.Ok? then r.value else t
  }

  function Apply(t: Tables, op: Op): Tables {
    match op
    case Create(d, expiresAt) => Committed(t, CreateTx(t, d, expiresAt))
    case Approve(id, approver) => Committed(t, ApproveTx(t, id, approver))
    case Reject(id, approver, reason) => Committed(t, RejectTx(t, id, approver, reason))
    case Cancel(id, reason) => Committed(t, CancelTx(t, id, reason))
    case Upsert(k, total) => t.(balances := UpsertBalance(t.balances, k, total))
    case RealTime(k, total, version) => t.(balances := ApplyHcmRealTimeUpdate(t.balances, k, total, version))
    case Reconcile(k, total, version) => t.(balances := ReconcileRecord(t.balances, k, total, version))
    case Flag(k) => t.(balances := FlagMissing(t.balances, k))
    case Sync(id, validated, status, attempts) => SyncUpdate(t, id, validated, status, attempts)
  }

  function ApplyAll(t: Tables, ops: seq<Op>): Tables
    decreases |ops|
  {
    if ops == [] then t else ApplyAll(Apply(t, ops[0]), ops[1..])
  }

  // ---- The invariant ---------------------------------------------------------------------------

  function Share(r: Request, k: BalanceKey, s: RequestStatus): nat {
    if KeyOf(r) == k && r.status == s then r.daysRequested else 0
  }

  /** What the request table says one balance field should be. */
  function DaysFor(rs: seq<Request>, k: BalanceKey, s: RequestStatus): nat
    decreases |rs|
  {
    if rs == [] then 0 else DaysFor(rs[..|rs| - 1], k, s) + Share(rs[|rs| - 1], k, s)
  }

  predicate BalanceAgrees(t: Tables, k: BalanceKey)
    requires k in t.balances
  {
    var b := t.balances[k];
    && b.pending == DaysFor(t.requests, k, Pending) as real
    && b.used == DaysFor(t.requests, k, Approved) as real
    && b.available + b.pending + b.used == b.total
    && b.available >= 0.0
  }

  predicate Agreed(t: Tables) {
    forall k :: k in t.balances ==> BalanceAgrees(t, k)
  }

  predicate RowsSound(t: Tables) {
    forall i :: 0 <= i < |t.requests| ==>
      var r := t.requests[i];
      KeyOf(r) in t.balances && r.startDay <= r.endDay && r.daysRequested == r.endDay - r.startDay + 1
  }

  predicate Clash(a: Request, b: Request) {
    Active(a) && Blocks(b, a.employeeId, a.locationId, a.startDay, a.endDay)
  }

  predicate Disjoint(rs: seq<Request>) {
    forall i, j :: 0 <= i < j < |rs| ==> !Clash(rs[i], rs[j])
  }

  /** Requests and idempotency rows pair up by key, and a row's stored answer describes its request. */
  predicate OneToOne(t: Tables) {
    && (forall i, j :: 0 <= i < j < |t.requests| ==> t.requests[i].idempotencyKey != t.requests[j].idempotencyKey)
    && (forall i :: 0 <= i < |t.requests| ==>
          var key := t.requests[i].idempotencyKey; key in t.idempotency && t.idempotency[key].responseBody.id == i)
    && (forall key :: key in t.idempotency ==>
          var body := t.idempotency[key].responseBody;
          && body.id < |t.requests| && t.requests[body.id].idempotencyKey == key == body.idempotencyKey
          && SameContent(body, t.requests[body.id]))
  }

  predicate SameContent(body: Body, r: Request) {
    && body.employeeId == r.employeeId && body.locationId == r.locationId && body.leaveType == r.leaveType
    && body.startDay == r.startDay && body.endDay == r.endDay && body.daysRequested == r.daysRequested
  }

  predicate Inv(t: Tables) {
    Agreed(t) && RowsSound(t) && Disjoint(t.requests) && OneToOne(t)
  }

  // ---- Every operation keeps it ----------------------------------------------------------------

  lemma {:induction false} DaysForUpdate(rs: seq<Request>, i: nat, r: Request, k: BalanceKey, s: RequestStatus)
    requires i < |rs|
    ensures DaysFor(rs[i := r], k, s) + Share(rs[i], k, s) == DaysFor(rs, k, s) + Share(r, k, s)
    decreases |rs|
  {
    var n := |rs| - 1;
    if i == n {
      assert rs[i := r][..n] == rs[..n];
    } else {
      DaysForUpdate(rs[..n], i, r, k, s);
      assert rs[i := r][..n] == rs[..n][i := r];
    }
  }

  lemma DaysForAppend(rs: seq<Request>, r: Request, k: BalanceKey, s: RequestStatus)
    ensures DaysFor(rs + [r], k, s) == DaysFor(rs, k, s) + Share(r, k, s)
  {
    assert (rs + [r])[..|rs|] == rs;
  }

  lemma CreateKeepsOthers(t: Tables, d: Draft, expiresAt: int, k: BalanceKey)
    requires Agreed(t) && CreateTx(t, d, expiresAt).Ok? && k in t.balances && k != DraftKey(d)
    ensures var t' := CreateTx(t, d, expiresAt).value; k in t'.balances && BalanceAgrees(t', k)
  {
    DaysForAppend(t.requests, NewRequest(d), k, Pending);
    DaysForAppend(t.requests, NewRequest(d), k, Approved);
    assert BalanceAgrees(t, k);
  }

  lemma CreateKeepsOwn(t: Tables, d: Draft, expiresAt: int)
    requires Agreed(t) && CreateTx(t, d, expiresAt).Ok?
    ensures var t' := CreateTx(t, d, expiresAt).value; DraftKey(d) in t'.balances && BalanceAgrees(t', DraftKey(d))
  {
    DaysForAppend(t.requests, NewRequest(d), DraftKey(d), Pending);
    DaysForAppend(t.requests, NewRequest(d), DraftKey(d), Approved);
    assert BalanceAgrees(t, DraftKey(d));
  }

  lemma CreateKeepsAgreement(t: Tables, d: Draft, expiresAt: int)
    requires Agreed(t) && CreateTx(t, d, expiresAt).Ok?
    ensures Agreed(CreateTx(t, d, expiresAt).value)
  {
    var t' := CreateTx(t, d, expiresAt).value;
    CreateKeepsOwn(t, d, expiresAt);
    forall k | k in t'.balances && k != DraftKey(d)
      ensures BalanceAgrees(t', k)
    {
      CreateKeepsOthers(t, d, expiresAt, k);
    }
  }

  lemma AppendKeepsDisjoint(rs: seq<Request>, d: Draft)
    requires Disjoint(rs) && !Overlaps(rs, d)
    ensures Disjoint(rs + [NewRequest(d)])
  {
    forall i | 0 <= i < |rs|
      ensures !Clash(rs[i], NewRequest(d))
    {
      assert !Blocks(rs[i], d.employeeId, d.locationId, d.startDay, d.endDay);
    }
  }

  lemma AppendKeepsPairs(t: Tables, t': Tables, r: Request, row: IdempotencyRow)
    requires OneToOne(t) && !KeyTaken(t.requests, r.idempotencyKey) && r.idempotencyKey !in t.idempotency
    requires t'.requests == t.requests + [r] && t'.idempotency == t.idempotency[r.idempotencyKey := row]
    requires row.responseBody == Serialize(|t.requests|, r)
    ensures OneToOne(t')
  {
    forall i: nat | i < |t.requests|
      ensures t'.requests[i] == t.requests[i] && t.requests[i].idempotencyKey != r.idempotencyKey
    {
    }
  }

  lemma CreateKeepsRows(t: Tables, d: Draft, expiresAt: int)
    requires RowsSound(t) && ValidDraft(d) && CreateTx(t, d, expiresAt).Ok?
    ensures RowsSound(CreateTx(t, d, expiresAt).value)
  {
  }

  lemma CreateKeepsInv(t: Tables, d: Draft, expiresAt: int)
    requires Inv(t) && ValidDraft(d) && CreateTx(t, d, expiresAt).Ok?
    ensures Inv(CreateTx(t, d, expiresAt).value)
  {
    CreateKeepsAgreement(t, d, expiresAt);
    CreateKeepsRows(t, d, expiresAt);
    AppendKeepsDisjoint(t.requests, d);
    var t', r := CreateTx(t, d, expiresAt).value, NewRequest(d);
    AppendKeepsPairs(t, t', r, t'.idempotency[d.idempotencyKey]);
  }

  predicate SameIdentity(a: Request, b: Request) {
    && a.idempotencyKey == b.idempotencyKey && KeyOf(a) == KeyOf(b)
    && a.startDay == b.startDay && a.endDay == b.endDay && a.daysRequested == b.daysRequested
  }

  predicate RowUpdate(t: Tables, t': Tables, id: nat) {
    && id < |t.requests| == |t'.requests|
    && t'.requests == t.requests[id := t'.requests[id]]
    && SameIdentity(t'.requests[id], t.requests[id])
    && (Active(t'.requests[id]) ==> Active(t.requests[id]))
    && t'.idempotency == t.idempotency && t'.balances.Keys == t.balances.Keys
  }

  lemma RowUpdateFields(t: Tables, t': Tables, id: nat, i: nat)
    requires RowUpdate(t, t', id) && i < |t.requests|
    ensures SameIdentity(t'.requests[i], t.requests[i]) && (Active(t'.requests[i]) ==> Active(t.requests[i]))
  {
  }

  lemma RowUpdateKeepsDisjoint(t: Tables, t': Tables, id: nat)
    requires Disjoint(t.requests) && RowUpdate(t, t', id)
    ensures Disjoint(t'.requests)
  {
    forall i, j | 0 <= i < j < |t.requests|
      ensures !Clash(t'.requests[i], t'.requests[j])
    {
      RowUpdateFields(t, t', id, i);
      RowUpdateFields(t, t', id, j);
      assert !Clash(t.requests[i], t.requests[j]);
    }
  }

  lemma RowUpdateKeepsPairs(t: Tables, t': Tables, id: nat)
    requires OneToOne(t) && RowUpdate(t, t', id)
    ensures OneToOne(t')
  {
    forall i: nat | i < |t.requests|
      ensures t'.requests[i].idempotencyKey == t.requests[i].idempotencyKey
      ensures SameIdentity(t'.requests[i], t.requests[i])
    {
      RowUpdateFields(t, t', id, i);
    }
  }

  /** Updating a row's status or bookkeeping fields leaves the shape of the tables sound. */
  lemma RowUpdateKeepsShape(t: Tables, t': Tables, id: nat)
    requires RowsSound(t) && Disjoint(t.requests) && OneToOne(t) && RowUpdate(t, t', id)
    ensures RowsSound(t') && Disjoint(t'.requests) && OneToOne(t')
  {
    forall i: nat | i < |t.requests|
      ensures SameIdentity(t'.requests[i], t.requests[i])
    {
      RowUpdateFields(t, t', id, i);
    }
    RowUpdateKeepsDisjoint(t, t', id);
    RowUpdateKeepsPairs(t, t', id);
  }

  /** A pending row leaves its balance's pending field, which therefore covers it. */
  lemma PendingCovers(t: Tables, id: nat)
    requires Agreed(t) && id < |t.requests| && t.requests[id].status == Pending && KeyOf(t.requests[id]) in t.balances
    ensures t.balances[KeyOf(t.requests[id])].pending >= t.requests[id].daysRequested as real
  {
    var r := t.requests[id];
    DaysForUpdate(t.requests, id, r.(daysRequested := 0), KeyOf(r), Pending);
    assert BalanceAgrees(t, KeyOf(r));
  }

  lemma TransitionKeepsAgreement(t: Tables, t': Tables, id: nat)
    requires Agreed(t) && id < |t.requests| && t.requests[id].status == Pending && RowUpdate(t, t', id)
    requires t'.requests[id].status != Pending && KeyOf(t.requests[id]) in t.balances
    requires Settle(t'.requests[id].status, t.balances, KeyOf(t.requests[id]), t.requests[id].daysRequested as real)
             == Ok(t'.balances)
    ensures Agreed(t')
  {
    forall k | k in t'.balances
      ensures BalanceAgrees(t', k)
    {
      DaysForUpdate(t.requests, id, t'.requests[id], k, Pending);
      DaysForUpdate(t.requests, id, t'.requests[id], k, Approved);
      assert BalanceAgrees(t, k);
    }
  }

  /** A settled transition: the row leaves pending, the balance follows. */
  lemma TransitionKeepsInv(t: Tables, id: nat, target: RequestStatus, who: Option<string>, reason: Option<string>)
    requires Inv(t) && id < |t.requests| && t.requests[id].status == Pending && target != Pending
    ensures Transition(t, id, target, who, reason).Ok?
    ensures Inv(Transition(t, id, target, who, reason).value)
  {
    PendingCovers(t, id);
    var t' := Transition(t, id, target, who, reason).value;
    assert RowUpdate(t, t', id);
    RowUpdateKeepsShape(t, t', id);
    TransitionKeepsAgreement(t, t', id);
  }

  /** Updating a row without its key, days or status leaves every sum as it was. */
  lemma SameSums(t: Tables, t': Tables, id: nat)
    requires Agreed(t) && RowUpdate(t, t', id) && t'.balances == t.balances
    requires t'.requests[id].status == t.requests[id].status
    ensures Agreed(t')
  {
    forall k | k in t'.balances
      ensures BalanceAgrees(t', k)
    {
      DaysForUpdate(t.requests, id, t'.requests[id], k, Pending);
      DaysForUpdate(t.requests, id, t'.requests[id], k, Approved);
      assert BalanceAgrees(t, k);
    }
  }

  lemma BookkeepingKeepsInv(t: Tables, id: nat, validated: bool, status: SyncStatus, attempts: nat)
    requires Inv(t)
    ensures Inv(SyncUpdate(t, id, validated, status, attempts))
  {
    if id < |t.requests| {
      var t' := SyncUpdate(t, id, validated, status, attempts);
      assert RowUpdate(t, t', id);
      RowUpdateKeepsShape(t, t', id);
      SameSums(t, t', id);
    }
  }

  lemma {:induction false} NoDaysWithoutBalance(t: Tables, rs: seq<Request>, k: BalanceKey, s: RequestStatus)
    requires k !in t.balances && forall i :: 0 <= i < |rs| ==> KeyOf(rs[i]) in t.balances
    ensures DaysFor(rs, k, s) == 0
    decreases |rs|
  {
    if rs != [] {
      NoDaysWithoutBalance(t, rs[..|rs| - 1], k, s);
    }
  }

  /** An operation on one balance record that agrees with the request table keeps the invariant. */
  lemma OneBalanceKeepsInv(t: Tables, k: BalanceKey, b: Balance)
    requires Inv(t)
    requires b.pending == DaysFor(t.requests, k, Pending) as real && b.used == DaysFor(t.requests, k, Approved) as real
    requires b.available + b.pending + b.used == b.total && b.available >= 0.0
    ensures Inv(t.(balances := t.balances[k := b]))
  {
    var t' := t.(balances := t.balances[k := b]);
    forall k' | k' in t'.balances
      ensures BalanceAgrees(t', k')
    {
      if k' != k { assert BalanceAgrees(t, k'); }
    }
  }

  /** Creating a record for a key nobody has requested under yet. */
  lemma NewBalanceKeepsInv(t: Tables, k: BalanceKey, total: real, version: Option<string>)
    requires Inv(t) && k !in t.balances && total >= 0.0
    ensures Inv(t.(balances := t.balances[k := NewBalance(total, version)]))
  {
    NoDaysWithoutBalance(t, t.requests, k, Pending);
    NoDaysWithoutBalance(t, t.requests, k, Approved);
    OneBalanceKeepsInv(t, k, NewBalance(total, version));
  }

  /** HCM and flag updates of a record keep what the request table fixes. */
  lemma KnownBalanceKeepsInv(t: Tables, op: Op)
    requires Inv(t) && Admissible(op) && (op.RealTime? || op.Reconcile? || op.Flag?) && op.key in t.balances
    ensures Inv(Apply(t, op))
  {
    assert BalanceAgrees(t, op.key);
    OneBalanceKeepsInv(t, op.key, Apply(t, op).balances[op.key]);
    assert t.(balances := t.balances[op.key := Apply(t, op).balances[op.key]]) == Apply(t, op);
  }

  lemma BalanceOpKeepsInv(t: Tables, op: Op)
    requires Inv(t) && Admissible(op) && (op.Upsert? || op.RealTime? || op.Reconcile? || op.Flag?)
    ensures Inv(Apply(t, op))
  {
    if op.key in t.balances {
      if op.Upsert? {
        assert Apply(t, op) == t;
      } else {
        KnownBalanceKeepsInv(t, op);
      }
    } else if op.Upsert? {
      NewBalanceKeepsInv(t, op.key, op.total, None);
    } else if op.Reconcile? {
      NewBalanceKeepsInv(t, op.key, op.total, VersionOrNull(op.version));
    } else {
      assert Apply(t, op) == t;
    }
  }

  /** On agreeing tables a transition is decided by the request alone: it commits exactly when the request
      exists and is pending, and the balance branches (missing record, pending underflow) never fire. */
  lemma TransitionsNeverUnderflow(t: Tables, id: nat, who: string, reason: Option<string>)
    requires Inv(t)
    ensures forall r :: r in {ApproveTx(t, id, who), RejectTx(t, id, who, reason), CancelTx(t, id, reason)} ==>
              && (r.Ok? <==> id < |t.requests| && t.requests[id].status == Pending)
              && (r.Err? ==> r.error == if id < |t.requests| then InvalidStatusTransition else RequestNotFound)
              && (r.Ok? ==> Inv(r.value))
  {
    if id < |t.requests| && t.requests[id].status == Pending {
      TransitionKeepsInv(t, id, Approved, Some(who), None);
      TransitionKeepsInv(t, id, Rejected, Some(who), reason);
      TransitionKeepsInv(t, id, Cancelled, None, reason);
    }
  }

  /** What a committed create does: it adds one pending, not yet synchronised request at the end, holds exactly
      its days out of available, pairs it with one idempotency row carrying its description, and touches
      nothing else. */
  lemma CreateEffect(t: Tables, d: Draft, expiresAt: int, t': Tables)
    requires CreateTx(t, d, expiresAt) == Ok(t')
    ensures |t'.requests| == |t.requests| + 1 && t'.requests[..|t.requests|] == t.requests
    ensures var r := t'.requests[|t.requests|];
            && r.status == Pending && r.syncStatus == SyncPending && !r.hcmValidated && r.syncAttempts == 0
            && r.idempotencyKey == d.idempotencyKey && KeyOf(r) == DraftKey(d)
            && r.startDay == d.startDay && r.endDay == d.endDay && r.daysRequested == d.days && r.notes == d.notes
            && r.approvedBy == None && r.rejectionReason == None
    ensures var k := DraftKey(d);
            && k in t.balances && k in t'.balances && t'.balances - {k} == t.balances - {k}
            && t.balances[k].available - t'.balances[k].available == d.days as real
            && t'.balances[k].pending - t.balances[k].pending == d.days as real
            && t'.balances[k].used == t.balances[k].used && t'.balances[k].total == t.balances[k].total
    ensures t'.idempotency.Keys == t.idempotency.Keys + {d.idempotencyKey} && d.idempotencyKey !in t.idempotency
    ensures var row := t'.idempotency[d.idempotencyKey];
            && row.responseBody == Serialize(|t.requests|, t'.requests[|t.requests|])
            && row.requestHash == d.requestHash && row.expiresAt == expiresAt
  {
  }

  /** What each transition of a pending request does: it sets the status it is named for and records who and
      why, moves exactly the request's days out of pending (into used, or back to available), keeps the
      balance's total, and touches no other row. */
  lemma TransitionEffect(t: Tables, id: nat, target: RequestStatus, who: Option<string>, reason: Option<string>,
                         t': Tables)
    requires Inv(t) && Transition(t, id, target, who, reason) == Ok(t')
    ensures id < |t.requests| == |t'.requests| && t.balances.Keys == t'.balances.Keys
    ensures var r, k := t.requests[id], KeyOf(t.requests[id]);
            var b, b' := t.balances[k], t'.balances[k];
            && t'.requests[id].status == target && SameIdentity(t'.requests[id], r)
            && (who.Some? ==> t'.requests[id].approvedBy == who)
            && (target != Approved ==> t'.requests[id].rejectionReason == reason)
            && t'.idempotency == t.idempotency && t'.balances - {k} == t.balances - {k}
            && (forall i :: 0 <= i < |t.requests| && i != id ==> t'.requests[i] == t.requests[i])
            && b.pending - b'.pending == r.daysRequested as real
            && b'.used - b.used == (if target == Approved then r.daysRequested as real else 0.0)
            && b'.available - b.available == (if target == Approved then 0.0 else r.daysRequested as real)
            && b'.total == b.total && LocalTotal(b') == LocalTotal(b)
  {
  }

  /** A pending request whose balance still holds its days as pending. */
  predicate Fundable(t: Tables, id: nat) {
    && id < |t.requests| && t.requests[id].status == Pending
    && var r := t.requests[id]; var k := BalanceKey(r.employeeId, r.locationId, r.leaveType);
       k in t.balances && t.balances[k].pending >= r.daysRequested as real
  }

  lemma PendingIsFundable(t: Tables, id: nat)
    requires Inv(t) && id < |t.requests| && t.requests[id].status == Pending
    ensures Fundable(t, id)
  {
    PendingCovers(t, id);
  }

  lemma ApproveWhenFunded(t: Tables, id: nat, who: string)
    requires Fundable(t, id)
    ensures var r, t' := t.requests[id], Apply(t, Approve(id, who));
            var k, days := BalanceKey(r.employeeId, r.locationId, r.leaveType), r.daysRequested as real;
            && ApproveTx(t, id, who) == Ok(t') && k in t.balances
            && t'.requests == t.requests[id := r.(status := Approved, approvedBy := Some(who))]
            && t'.balances == t.balances[k := t.balances[k].(pending := t.balances[k].pending - days,
                                                             used := t.balances[k].used + days)]
            && t'.idempotency == t.idempotency
  {
  }

  /** Approval, spelled out: the request becomes APPROVED with its approver recorded, and exactly its days move
      from pending to used. */
  lemma ApproveEffect(t: Tables, id: nat, who: string)
    requires Inv(t) && id < |t.requests| && t.requests[id].status == Pending
    ensures var r, t' := t.requests[id], Apply(t, Approve(id, who));
            var k, days := BalanceKey(r.employeeId, r.locationId, r.leaveType), r.daysRequested as real;
            && ApproveTx(t, id, who) == Ok(t') && k in t.balances
            && t'.requests == t.requests[id := r.(status := Approved, approvedBy := Some(who))]
            && t'.balances == t.balances[k := t.balances[k].(pending := t.balances[k].pending - days,
                                                             used := t.balances[k].used + days)]
            && t'.idempotency == t.idempotency
  {
    PendingIsFundable(t, id);
    ApproveWhenFunded(t, id, who);
  }

  lemma RejectWhenFunded(t: Tables, id: nat, who: string, reason: Option<string>)
    requires Fundable(t, id)
    ensures var r, t' := t.requests[id], Apply(t, Reject(id, who, reason));
            var k, days := BalanceKey(r.employeeId, r.locationId, r.leaveType), r.daysRequested as real;
            && RejectTx(t, id, who, reason) == Ok(t') && k in t.balances
            && t'.requests == t.requests[id := r.(status := Rejected, approvedBy := Some(who), rejectionReason := reason)]
            && t'.balances == t.balances[k := t.balances[k].(pending := t.balances[k].pending - days,
                                                             available := t.balances[k].available + days)]
            && t'.idempotency == t.idempotency
  {
  }

  /** Rejection: REJECTED, with who and why recorded, and the days back to available. */
  lemma RejectEffect(t: Tables, id: nat, who: string, reason: Option<string>)
    requires Inv(t) && id < |t.requests| && t.requests[id].status == Pending
    ensures var r, t' := t.requests[id], Apply(t, Reject(id, who, reason));
            var k, days := BalanceKey(r.employeeId, r.locationId, r.leaveType), r.daysRequested as real;
            && RejectTx(t, id, who, reason) == Ok(t') && k in t.balances
            && t'.requests == t.requests[id := r.(status := Rejected, approvedBy := Some(who), rejectionReason := reason)]
            && t'.balances == t.balances[k := t.balances[k].(pending := t.balances[k].pending - days,
                                                             available := t.balances[k].available + days)]
            && t'.idempotency == t.idempotency
  {
    PendingIsFundable(t, id);
    RejectWhenFunded(t, id, who, reason);
  }

  lemma CancelWhenFunded(t: Tables, id: nat, reason: Option<string>)
    requires Fundable(t, id)
    ensures var r, t' := t.requests[id], Apply(t, Cancel(id, reason));
            var k, days := BalanceKey(r.employeeId, r.locationId, r.leaveType), r.daysRequested as real;
            && CancelTx(t, id, reason) == Ok(t') && k in t.balances
            && t'.requests == t.requests[id := r.(status := Cancelled, rejectionReason := reason)]
            && t'.balances == t.balances[k := t.balances[k].(pending := t.balances[k].pending - days,
                                                             available := t.balances[k].available + days)]
            && t'.idempotency == t.idempotency
  {
  }

  /** Cancellation: CANCELLED, with the reason recorded and no approver, and the days back to available. */
  lemma CancelEffect(t: Tables, id: nat, reason: Option<string>)
    requires Inv(t) && id < |t.requests| && t.requests[id].status == Pending
    ensures var r, t' := t.requests[id], Apply(t, Cancel(id, reason));
            var k, days := BalanceKey(r.employeeId, r.locationId, r.leaveType), r.daysRequested as real;
            && CancelTx(t, id, reason) == Ok(t') && k in t.balances
            && t'.requests == t.requests[id := r.(status := Cancelled, rejectionReason := reason)]
            && t'.balances == t.balances[k := t.balances[k].(pending := t.balances[k].pending - days,
                                                             available := t.balances[k].available + days)]
            && t'.idempotency == t.idempotency
  {
    PendingIsFundable(t, id);
    CancelWhenFunded(t, id, reason);
  }

  /** A request that is not pending, or not there, is left alone by all three, with the error that says so. */
  lemma SettledRequestsStay(t: Tables, id: nat, who: string, reason: Option<string>)
    requires id < |t.requests| ==> t.requests[id].status != Pending
    ensures Apply(t, Approve(id, who)) == t && Apply(t, Reject(id, who, reason)) == t && Apply(t, Cancel(id, reason)) == t
    ensures var e := if id < |t.requests| then InvalidStatusTransition else RequestNotFound;
            ApproveTx(t, id, who) == Err(e) && RejectTx(t, id, who, reason) == Err(e) && CancelTx(t, id, reason) == Err(e)
  {
  }

  /** What a new balance holds; an existing one is not touched. */
  lemma UpsertEffect(t: Tables, k: BalanceKey, total: real)
    ensures var t' := Apply(t, Upsert(k, total));
            && t'.requests == t.requests && t'.idempotency == t.idempotency
            && t'.balances == UpsertBalance(t.balances, k, total)
            && t'.balances == (if k in t.balances then t.balances
                               else t.balances[k := Balance(total, total, 0.0, 0.0, total, None, false, None)])
  {
  }

  /** HCM bookkeeping touches three fields of one row. */
  lemma SyncEffect(t: Tables, id: nat, validated: bool, status: SyncStatus, attempts: nat)
    ensures var t' := Apply(t, Sync(id, validated, status, attempts));
            && t'.balances == t.balances && t'.idempotency == t.idempotency && |t'.requests| == |t.requests|
            && forall i :: 0 <= i < |t.requests| ==>
                 t'.requests[i] == (if i == id
                                    then t.requests[i].(hcmValidated := validated, syncStatus := status, syncAttempts := attempts)
                                    else t.requests[i])
  {
  }

  /** What a caller reads in an answer is what the request row says. */
  lemma BodyShowsRequest(id: nat, r: Request)
    ensures var b := Serialize(id, r);
            && b.id == id && b.idempotencyKey == r.idempotencyKey && b.requestedBy == r.employeeId
            && b.employeeId == r.employeeId && b.locationId == r.locationId && b.leaveType == r.leaveType
            && b.startDay == r.startDay && b.endDay == r.endDay && b.daysRequested == r.daysRequested
            && b.status == r.status && b.approvedBy == r.approvedBy && b.rejectionReason == r.rejectionReason
            && b.notes == r.notes && b.hcmValidated == r.hcmValidated && b.syncStatus == r.syncStatus
  {
  }

  lemma OpKeepsInv(t: Tables, op: Op)
    requires Inv(t) && Admissible(op)
    ensures Inv(Apply(t, op))
  {
    match op
    case Create(d, expiresAt) => if CreateTx(t, d, expiresAt).Ok? { CreateKeepsInv(t, d, expiresAt); }
    case Approve(id, approver) => TransitionsNeverUnderflow(t, id, approver, None);
    case Reject(id, approver, reason) => TransitionsNeverUnderflow(t, id, approver, reason);
    case Cancel(id, reason) => TransitionsNeverUnderflow(t, id, "", reason);
    case Sync(id, validated, status, attempts) => BookkeepingKeepsInv(t, id, validated, status, attempts);
    case _ => BalanceOpKeepsInv(t, op);
  }

  /** Ledger agreement: after any sequence of creates, approvals, rejections, cancellations, upserts and HCM
      updates, every balance has pending and used equal to the sums over its requests,
      available + pending + used = total, and no negative part; active requests of one employee and
      place are disjoint; and requests and idempotency rows are in one-to-one correspondence. */
  lemma {:induction false} LedgerAgreement(t: Tables, ops: seq<Op>)
    requires Inv(t) && forall i :: 0 <= i < |ops| ==> Admissible(ops[i])
    ensures Inv(ApplyAll(t, ops))
    decreases |ops|
  {
    if ops != [] {
      OpKeepsInv(t, ops[0]);
      LedgerAgreement(Apply(t, ops[0]), ops[1..]);
    }
  }

  lemma EmptyTablesAgree()
    ensures Inv(EMPTY)
  {
  }

  /** A request's story: no operation changes who asked for which days under which key, and a status, once it
      has left pending, is final. */
  predicate Later(before: Tables, after: Tables) {
    && |before.requests| <= |after.requests|
    && forall i :: 0 <= i < |before.requests| ==>
         && SameIdentity(after.requests[i], before.requests[i])
         && (before.requests[i].status != Pending ==> after.requests[i].status == before.requests[i].status)
  }

  lemma OpIsLater(t: Tables, op: Op)
    ensures Later(t, Apply(t, op))
  {
  }

  lemma {:induction false} StatusesAreFinal(t: Tables, ops: seq<Op>)
    ensures Later(t, ApplyAll(t, ops))
    decreases |ops|
  {
    if ops != [] {
      var mid := Apply(t, ops[0]);
      OpIsLater(t, ops[0]);
      StatusesAreFinal(mid, ops[1..]);
      LaterTransitive(t, mid, ApplyAll(mid, ops[1..]));
    }
  }

  lemma LaterTransitive(a: Tables, b: Tables, c: Tables)
    requires Later(a, b) && Later(b, c)
    ensures Later(a, c)
  {
    forall i | 0 <= i < |a.requests|
      ensures SameIdentity(c.requests[i], a.requests[i])
      ensures a.requests[i].status != Pending ==> c.requests[i].status == a.requests[i].status
    {
      assert SameIdentity(b.requests[i], a.requests[i]) && SameIdentity(c.requests[i], b.requests[i]);
    }
  }
}
