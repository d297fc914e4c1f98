/** Replies answer the question: under a live key, what `createRequest` hands back is the leave this caller
    asked for, although only hashes are compared. */
module Replies {
  import opened Wrappers
  import opened Collections
  import opened Dates
  import opened CanonicalJson
  import opened Ledger
  import opened CreateProtocol

  /** The leave a request asks for: whose balance, and which days. */
  datatype Ask = Ask(key: BalanceKey, startDay: int, endDay: int)

  function TextAt(j: Json, key: string): Option<string> {
    if j.Obj? && key in Keys(j.members) && Get(j.members, key).Str? then Some(Get(j.members, key).s) else None
  }

  function LeaveOf(name: string): Option<LeaveType> {
    if name == LeaveName(Vacation) then Some(Vacation)
    else if name == LeaveName(Sick) then Some(Sick)
    else if name == LeaveName(Personal) then Some(Personal)
    else if name == LeaveName(Maternity) then Some(Maternity)
    else if name == LeaveName(Paternity) then Some(Paternity)
    else if name == LeaveName(Bereavement) then Some(Bereavement)
    else None
  }

  /** What a JSON object asks for, whatever else it holds and in whatever order. */
  function AskOf(j: Json): Option<Ask> {
    var employee, location := TextAt(j, "employeeId"), TextAt(j, "locationId");
    var leave, start, end := TextAt(j, "leaveType"), TextAt(j, "startDate"), TextAt(j, "endDate");
    if employee.Some? && location.Some? && leave.Some? && LeaveOf(leave.value).Some? && start.Some? && end.Some?
    then Some(Ask(BalanceKey(employee.value, location.value, LeaveOf(leave.value).value),
                  DayNumber(ParseDate(start.value)), DayNumber(ParseDate(end.value))))
    else None
  }

  /** The fields of a request body are those of the object that is hashed. */
  predicate SoundDto(dto: Dto) {
    && WellFormed(dto.payload)
    && AskOf(dto.payload) == Some(Ask(BalanceKey(dto.employeeId, dto.locationId, dto.leaveType),
                                      DayNumber(dto.startDate), DayNumber(dto.endDate)))
  }

  lemma MemberText(ms: seq<Member>, i: nat)
    requires i < |ms| && Distinct(Keys(ms)) && ms[i].value.Str?
    ensures TextAt(Obj(ms), ms[i].key) == Some(ms[i].value.s)
  {
    assert Keys(ms)[i] == ms[i].key;
    GetAt(ms, i);
  }

  lemma {:induction false} GetAt(ms: seq<Member>, i: nat)
    requires i < |ms| && Distinct(Keys(ms))
    ensures ms[i].key in Keys(ms) && Get(ms, ms[i].key) == ms[i].value
    decreases |ms|
  {
    assert Keys(ms)[i] == ms[i].key;
    if i > 0 {
      assert Keys(ms)[0] == ms[0].key;
      KeysTail(ms);
      GetAt(ms[1..], i - 1);
    }
  }

  lemma KeysTail(ms: seq<Member>)
    requires ms != [] && Distinct(Keys(ms))
    ensures Keys(ms[1..]) == Keys(ms)[1..] && Distinct(Keys(ms[1..]))
  {
    assert Keys(ms[1..]) == Keys(ms)[1..];
  }

  /** How a body is read: an object with these five members, wherever they stand among others, asks for that
      employee's leave of that type at that place on those dates. */
  lemma BodyIsReadByName(ms: seq<Member>, dto: Dto, e: nat, l: nat, t: nat, s: nat, f: nat)
    requires Distinct(Keys(ms)) && e < |ms| && l < |ms| && t < |ms| && s < |ms| && f < |ms|
    requires 0 <= dto.startDate.year <= 9999 && 0 <= dto.startDate.month <= 99 && 0 <= dto.startDate.day <= 99
    requires 0 <= dto.endDate.year <= 9999 && 0 <= dto.endDate.month <= 99 && 0 <= dto.endDate.day <= 99
    requires ms[e] == Member("employeeId", Str(dto.employeeId)) && ms[l] == Member("locationId", Str(dto.locationId))
    requires ms[t] == Member("leaveType", Str(LeaveName(dto.leaveType)))
    requires ms[s] == Member("startDate", Str(IsoText(dto.startDate))) && ms[f] == Member("endDate", Str(IsoText(dto.endDate)))
    ensures AskOf(Obj(ms)) == Some(Ask(BalanceKey(dto.employeeId, dto.locationId, dto.leaveType),
                                       DayNumber(dto.startDate), DayNumber(dto.endDate)))
  {
    MemberText(ms, e);
    MemberText(ms, l);
    MemberText(ms, t);
    MemberText(ms, s);
    MemberText(ms, f);
    DateTextRoundTrip(dto.startDate);
    DateTextRoundTrip(dto.endDate);
    LeaveIsRead(dto.leaveType);
  }

  lemma LeaveIsRead(l: LeaveType)
    ensures LeaveOf(LeaveName(l)) == Some(l)
  {
    LeaveNamesDiffer(l, Vacation);
    LeaveNamesDiffer(l, Sick);
    LeaveNamesDiffer(l, Personal);
    LeaveNamesDiffer(l, Maternity);
    LeaveNamesDiffer(l, Paternity);
  }

  lemma SortingKeepsText(j: Json, key: string)
    requires WellFormed(j) && key != PROTO
    ensures TextAt(SortObjectKeys(j), key) == TextAt(j, key)
  {
    if j.Obj? {
      var sorted := SortObjectKeys(j);
      SortedContent(j.members);
      HoldsKeys(sorted.members, SortedFields(j.members));
      if key in Keys(j.members) {
        HoldsGet(sorted.members, SortedFields(j.members), key);
      }
    }
  }

  /** The hashed form asks for what the payload asks for. */
  lemma SortingKeepsTheAsk(payload: Json)
    requires WellFormed(payload)
    ensures AskOf(SortObjectKeys(payload)) == AskOf(payload)
  {
    SortingKeepsText(payload, "employeeId");
    SortingKeepsText(payload, "locationId");
    SortingKeepsText(payload, "leaveType");
    SortingKeepsText(payload, "startDate");
    SortingKeepsText(payload, "endDate");
  }

  // ---- Kept by every schedule, however the hashed form is read ---------------------------------

  type Reader = Json -> Option<Ask>

  predicate DraftAsks(read: Reader, d: Draft) {
    read(d.requestHash) == Some(Ask(DraftKey(d), d.startDay, d.endDay))
  }

  function BodyKey(b: Body): BalanceKey {
    BalanceKey(b.employeeId, b.locationId, b.leaveType)
  }

  /** The stored answer grants what the hashed payload asked for. */
  predicate RowAsks(read: Reader, row: IdempotencyRow) {
    read(row.requestHash) == Some(Ask(BodyKey(row.responseBody), row.responseBody.startDay, row.responseBody.endDay))
  }

  predicate RowsAsk(read: Reader, t: Tables) {
    forall key :: key in t.idempotency ==> RowAsks(read, t.idempotency[key])
  }

  /** The answer grants what the draft wanted: employee, place, leave type and dates. */
  predicate Matches(b: Body, d: Draft) {
    BodyKey(b) == DraftKey(d) && b.startDay == d.startDay && b.endDay == d.endDay
  }

  lemma CachedMatches(read: Reader, t: Tables, d: Draft, now: int)
    requires RowsAsk(read, t) && DraftAsks(read, d)
    ensures var hit := CheckIdempotency(t, d.idempotencyKey, d.requestHash, now); hit.Cached? ==> Matches(hit.body, d)
  {
    if d.idempotencyKey in t.idempotency {
      assert RowAsks(read, t.idempotency[d.idempotencyKey]);
    }
  }

  lemma CreateAddsItsRow(t: Tables, d: Draft, expiresAt: int)
    ensures var rows := Apply(t, Create(d, expiresAt)).idempotency;
            rows == t.idempotency
            || rows == t.idempotency[d.idempotencyKey :=
                         IdempotencyRow(d.employeeId, d.requestHash, Serialize(|t.requests|, NewRequest(d)), expiresAt)]
  {
  }

  lemma OthersLeaveRows(t: Tables, op: Op)
    requires !op.Create?
    ensures Apply(t, op).idempotency == t.idempotency
  {
  }

  lemma NewRowAsks(read: Reader, d: Draft, id: nat, expiresAt: int)
    requires DraftAsks(read, d)
    ensures RowAsks(read, IdempotencyRow(d.employeeId, d.requestHash, Serialize(id, NewRequest(d)), expiresAt))
  {
  }

  lemma RowsKeepAsking(read: Reader, t: Tables, op: Op)
    requires RowsAsk(read, t) && (op.Create? ==> DraftAsks(read, op.draft))
    ensures RowsAsk(read, Apply(t, op))
  {
    if op.Create? {
      CreateAddsItsRow(t, op.draft, op.expiresAt);
      NewRowAsks(read, op.draft, |t.requests|, op.expiresAt);
    } else {
      OthersLeaveRows(t, op);
    }
  }

  predicate SystemAsks(read: Reader, s: System) {
    RowsAsk(read, s.tables) && forall i :: 0 <= i < |s.calls| ==> DraftAsks(read, s.calls[i].draft)
  }

  lemma SubmitAddsItsCall(s: System, dto: Dto, key: string, at: int)
    ensures var s' := Do(s, Submit(dto, key, at));
            && s'.tables == s.tables && |s'.calls| == |s.calls| + 1
            && s'.calls[..|s.calls|] == s.calls && s'.calls[|s.calls|].draft == DraftOf(dto, key)
  {
  }

  /** Apart from a submission, a step changes the tables and the stage of a call, never a draft. */
  lemma DraftsStay(s: System, a: Step)
    requires Enabled(s, a) && !a.Submit?
    ensures |Do(s, a).calls| == |s.calls|
    ensures forall i :: 0 <= i < |s.calls| ==> Do(s, a).calls[i].draft == s.calls[i].draft
  {
  }

  lemma TablesAfter(s: System, a: Step)
    requires Enabled(s, a) && !a.Submit?
    ensures Do(s, a).tables == match a
                               case Other(op) => Apply(s.tables, op)
                               case Attempt(i, fault, at) =>
                                 if TryOnce(s.tables, s.calls[i].draft, fault, at).Ok?
                                 then Apply(s.tables, Create(s.calls[i].draft, at + IDEMPOTENCY_TTL_MS)) else s.tables
                               case _ => s.tables
  {
  }

  predicate SoundStep(read: Reader, a: Step) {
    a.Submit? ==> DraftAsks(read, DraftOf(a.dto, a.key))
  }

  lemma StepKeepsAsks(read: Reader, s: System, a: Step)
    requires SystemAsks(read, s) && Enabled(s, a) && SoundStep(read, a)
    ensures SystemAsks(read, Do(s, a))
  {
    if a.Submit? {
      SubmitAddsItsCall(s, a.dto, a.key, a.at);
      var s' := Do(s, a);
      forall i | 0 <= i < |s'.calls|
        ensures DraftAsks(read, s'.calls[i].draft)
      {
        if i < |s.calls| {
          assert s'.calls[..|s.calls|][i] == s.calls[i];
        }
      }
    } else {
      DraftsStay(s, a);
      TablesAfter(s, a);
      if a.Attempt? {
        RowsKeepAsking(read, s.tables, Create(s.calls[a.i].draft, a.at + IDEMPOTENCY_TTL_MS));
      } else if a.Other? {
        RowsKeepAsking(read, s.tables, a.op);
      }
    }
  }

  lemma {:induction false} SchedulesKeepAsks(read: Reader, s: System, steps: seq<Step>, end: System)
    requires SystemAsks(read, s) && Executes(s, steps, end)
    requires forall n :: 0 <= n < |steps| ==> SoundStep(read, steps[n])
    ensures SystemAsks(read, end)
    decreases |steps|
  {
    if steps != [] {
      StepKeepsAsks(read, s, steps[0]);
      SchedulesKeepAsks(read, Do(s, steps[0]), steps[1..], end);
    }
  }

  /** A create under a new key either throws or returns the request it has just added. */
  lemma NewKeyAnswer(t: Tables, d: Draft, env: Env)
    requires Inv(t) && d.idempotencyKey !in t.idempotency
    ensures var answer := InLane(t, d, env).1;
            answer.Returned? ==> answer.body == Serialize(|t.requests|, NewRequest(d))
  {
    assert !KeyTaken(t.requests, d.idempotencyKey);
    assert Recover(t, d.idempotencyKey, d.requestHash, env.recoverAt) == Absent;
  }

  lemma AnswerMatches(read: Reader, t: Tables, d: Draft, dto: Dto, key: string, env: Env)
    requires Inv(t) && RowsAsk(read, t) && d == DraftOf(dto, key) && DraftAsks(read, d)
    requires Live(t, key, env.checkAt) || key !in t.idempotency
    ensures var answer := CreateRequest(t, dto, key, env).1; answer.Returned? ==> Matches(answer.body, d)
  {
    CachedMatches(read, t, d, env.checkAt);
    if key !in t.idempotency {
      NewKeyAnswer(t, d, env);
    }
  }

  // ---- Read as the request it is ---------------------------------------------------------------

  lemma SoundDraftAsks(dto: Dto, key: string)
    requires SoundDto(dto)
    ensures DraftAsks(AskOf, DraftOf(dto, key))
  {
    SortingKeepsTheAsk(dto.payload);
  }

  /** As long as its key is new or live, a create that returns grants what this caller asked for. (Past the
      expiry of the key it may not: `ExpiredKeyReturnsOldRequest`.) */
  lemma AnswerIsWhatWasAsked(t: Tables, dto: Dto, key: string, env: Env)
    requires Inv(t) && RowsAsk(AskOf, t) && SoundDto(dto)
    requires Live(t, key, env.checkAt) || key !in t.idempotency
    ensures var answer := CreateRequest(t, dto, key, env).1; answer.Returned? ==> Matches(answer.body, DraftOf(dto, key))
  {
    SoundDraftAsks(dto, key);
    AnswerMatches(AskOf, t, DraftOf(dto, key), dto, key, env);
  }

  lemma SoundSteps(steps: seq<Step>)
    requires forall n :: 0 <= n < |steps| && steps[n].Submit? ==> SoundDto(steps[n].dto)
    ensures forall n :: 0 <= n < |steps| ==> SoundStep(AskOf, steps[n])
  {
    forall n | 0 <= n < |steps| && steps[n].Submit?
      ensures SoundStep(AskOf, steps[n])
    {
      SoundDraftAsks(steps[n].dto, steps[n].key);
    }
  }

  /** On every interleaving of well-formed calls: the answers stored are the leaves their payloads asked for, and
      an answer found under a live key grants what the call that finds it asked for. */
  lemma CachedRepliesAreWhatWasAsked(steps: seq<Step>, s: System, i: nat, at: int)
    requires Executes(START, steps, s) && i < |s.calls|
    requires forall n :: 0 <= n < |steps| && steps[n].Submit? ==> SoundDto(steps[n].dto)
    ensures RowsAsk(AskOf, s.tables)
    ensures var d := s.calls[i].draft;
            var hit := CheckIdempotency(s.tables, d.idempotencyKey, d.requestHash, at);
            hit.Cached? ==> Matches(hit.body, d)
  {
    SoundSteps(steps);
    SchedulesKeepAsks(AskOf, START, steps, s);
    CachedMatches(AskOf, s.tables, s.calls[i].draft, at);
  }
}
