/** Overlap safety with no database lock: the SQLite path of src/modules/timeoff/timeoff.service.js,
    where `_getWriteLock` returns null. A create runs in its lane as separate steps - check, deduct,
    insert, commit - that interleave freely with other creates and with approve, reject and cancel.
    Nothing is assumed about balances: a deduction may succeed or fail at will. */
module OverlapSafety {
  import opened Collections
  import opened DayRanges
  import CreateLanes
  import Ledger

  type LaneStep = CreateLanes.Step
  type Lanes = CreateLanes.Lanes
  type Claim = Ledger.Draft
  type Row = Ledger.Request

  /** Where a create stands: queued for its lane, about to open a transaction, past the overlap check,
      past the deduction, past the insert (uncommitted), through with its body, out of the lane. */
  datatype Progress = Queued | Ready | Checked | Deducted | Inserted(id: nat) | Through | Gone

  datatype Job = Job(claim: Claim, at: Progress)

  /** Rows by id: unlike the committed table, it loses rows again when a create rolls back. */
  datatype System = System(lanes: Lanes, jobs: seq<Job>, rows: map<nat, Row>)

  const EMPTY := System(CreateLanes.NO_LANES, [], map[])

  function LockKey(c: Claim): string {
    c.employeeId + ":" + c.locationId
  }

  predicate SamePlace(a: Claim, b: Claim) {
    a.employeeId == b.employeeId && a.locationId == b.locationId
  }

  /** Creates share a lane exactly when they are for one employee and place (ids without `:`). */
  lemma LaneIffSamePlace(a: Claim, b: Claim)
    requires ':' !in a.employeeId && ':' !in b.employeeId
    ensures LockKey(a) == LockKey(b) <==> a.employeeId == b.employeeId && a.locationId == b.locationId
  {
    if LockKey(a) == LockKey(b) {
      FirstSeparator(':', a.employeeId, a.locationId, b.employeeId, b.locationId);
    }
  }

  predicate NoConflict(rows: map<nat, Row>, c: Claim) {
    forall id :: id in rows ==> !Ledger.Blocks(rows[id], c.employeeId, c.locationId, c.startDay, c.endDay)
  }

  datatype Step =
    | Arrive(claim: Claim)          // validated, first idempotency check passed, now in the lane
    | Begin(i: nat)                 // the lane lets the body start
    | ReturnEarly(i: nat)           // the second idempotency check answers or throws
    | CheckOverlap(i: nat)          // reads the active rows; throws on a conflict
    | Deduct(i: nat, ok: bool)      // throws when the balance is missing or short
    | Insert(i: nat, id: nat)       // the row becomes visible to others
    | Commit(i: nat)
    | RollBack(i: nat, retry: bool) // any database error, at any point; transient ones are retried
    | Leave(i: nat)                 // the lane's finally clause
    | Approve(id: nat)
    | Reject(id: nat)
    | Cancel(id: nat)

  predicate InTransaction(p: Progress) {
    p.Ready? || p.Checked? || p.Deducted? || p.Inserted?
  }

  predicate At(s: System, i: nat, p: Progress) {
    i < |s.jobs| && s.jobs[i].at == p
  }

  ghost predicate Enabled(s: System, a: Step) {
    match a
    case Arrive(claim) => Ledger.ValidDraft(claim)
    case Begin(i) => At(s, i, Queued) && CreateLanes.Enabled(s.lanes, CreateLanes.Start(i))
    case ReturnEarly(i) => At(s, i, Ready)
    case CheckOverlap(i) => At(s, i, Ready)
    case Deduct(i, _) => At(s, i, Checked)
    case Insert(i, id) => At(s, i, Deducted) && id !in s.rows
    case Commit(i) => i < |s.jobs| && s.jobs[i].at.Inserted?
    case RollBack(i, _) => i < |s.jobs| && InTransaction(s.jobs[i].at)
    case Leave(i) => At(s, i, Through) && CreateLanes.Enabled(s.lanes, CreateLanes.Finish(i))
    case Approve(id) => id in s.rows && Ledger.Approved in Ledger.AllowedFrom(s.rows[id].status)
    case Reject(id) => id in s.rows && Ledger.Rejected in Ledger.AllowedFrom(s.rows[id].status)
    case Cancel(id) => id in s.rows && Ledger.Cancelled in Ledger.AllowedFrom(s.rows[id].status)
  }

  function Move(s: System, i: nat, p: Progress): System
    requires i < |s.jobs|
  {
    s.(jobs := s.jobs[i := s.jobs[i].(at := p)])
  }

  function SetStatus(s: System, id: nat, st: Ledger.RequestStatus): System
    requires id in s.rows
  {
    s.(rows := s.rows[id := s.rows[id].(status := st)])
  }

  function WithoutOwnRow(s: System, i: nat): System
    requires i < |s.jobs|
  {
    if s.jobs[i].at.Inserted? then s.(rows := s.rows - {s.jobs[i].at.id}) else s
  }

  ghost function Do(s: System, a: Step): System
    requires Enabled(s, a)
  {
    match a
    case Arrive(claim) =>
      System(CreateLanes.Do(s.lanes, CreateLanes.Enter(LockKey(claim))), s.jobs + [Job(claim, Queued)], s.rows)
    case Begin(i) => Move(s, i, Ready).(lanes := CreateLanes.Do(s.lanes, CreateLanes.Start(i)))
    case ReturnEarly(i) => Move(s, i, Through)
    case CheckOverlap(i) => Move(s, i, if NoConflict(s.rows, s.jobs[i].claim) then Checked else Through)
    case Deduct(i, ok) => Move(s, i, if ok then Deducted else Through)
    case Insert(i, id) => Move(s, i, Inserted(id)).(rows := s.rows[id := Ledger.NewRequest(s.jobs[i].claim)])
    case Commit(i) => Move(s, i, Through)
    case RollBack(i, retry) => Move(WithoutOwnRow(s, i), i, if retry then Ready else Through)
    case Leave(i) => Move(s, i, Gone).(lanes := CreateLanes.Do(s.lanes, CreateLanes.Finish(i)))
    case Approve(id) => SetStatus(s, id, Ledger.Approved)
    case Reject(id) => SetStatus(s, id, Ledger.Rejected)
    case Cancel(id) => SetStatus(s, id, Ledger.Cancelled)
  }

  /** What the steps do to the rows: an insert adds a pending row with the claim's content, a roll-back takes its
      own row away, and the transitions set the status they are named for. */
  lemma RowsAfter(s: System, a: Step)
    requires Enabled(s, a)
    ensures var rows' := Do(s, a).rows;
            match a
            case Insert(i, id) =>
              var c := s.jobs[i].claim;
              && rows'.Keys == s.rows.Keys + {id} && rows' - {id} == s.rows
              && rows'[id].status == Ledger.Pending
              && rows'[id].employeeId == c.employeeId && rows'[id].locationId == c.locationId
              && rows'[id].startDay == c.startDay && rows'[id].endDay == c.endDay
            case RollBack(i, _) => rows' == if s.jobs[i].at.Inserted? then s.rows - {s.jobs[i].at.id} else s.rows
            case Approve(id) => rows' == s.rows[id := s.rows[id].(status := Ledger.Approved)]
            case Reject(id) => rows' == s.rows[id := s.rows[id].(status := Ledger.Rejected)]
            case Cancel(id) => rows' == s.rows[id := s.rows[id].(status := Ledger.Cancelled)]
            case _ => rows' == s.rows
  {
    if a.Insert? {
      assert s.rows - {a.id} == s.rows;
    }
  }

  /** The overlap check lets a create on exactly when no pending or approved row of its employee and place has a
      day in common with it. */
  lemma CheckPassesIff(s: System, i: nat)
    requires Enabled(s, CheckOverlap(i))
    ensures var c, at := s.jobs[i].claim, Do(s, CheckOverlap(i)).jobs[i].at;
            && (at == Checked || at == Through)
            && (at == Checked <==> forall id :: id in s.rows ==>
                  var r := s.rows[id];
                  (r.status == Ledger.Pending || r.status == Ledger.Approved)
                  && r.employeeId == c.employeeId && r.locationId == c.locationId
                  ==> r.endDay < c.startDay || c.endDay < r.startDay)
  {
    var c := s.jobs[i].claim;
    if id :| id in s.rows && Ledger.Blocks(s.rows[id], c.employeeId, c.locationId, c.startDay, c.endDay) {
      assert !NoConflict(s.rows, c);
    } else {
      assert NoConflict(s.rows, c);
    }
  }

  ghost predicate Executes(s: System, steps: seq<Step>, end: System)
    decreases |steps|
  {
    if steps == [] then s == end
    else Enabled(s, steps[0]) && Executes(Do(s, steps[0]), steps[1..], end)
  }

  // ---- The invariant ---------------------------------------------------------------------------

  function PhaseOf(p: Progress): CreateLanes.Phase {
    match p
    case Queued => CreateLanes.Waiting
    case Gone => CreateLanes.Finished
    case _ => CreateLanes.Running
  }

  ghost predicate Aligned(s: System) {
    && |s.jobs| == |s.lanes.callers|
    && forall i: nat :: i < |s.jobs| ==>
         s.lanes.callers[i].key == LockKey(s.jobs[i].claim) && s.lanes.callers[i].phase == PhaseOf(s.jobs[i].at)
  }

  predicate ClashFree(rows: map<nat, Row>) {
    forall a, b :: a in rows && b in rows && a != b ==> !Ledger.Clash(rows[a], rows[b])
  }

  predicate PastCheck(p: Progress) {
    p.Checked? || p.Deducted?
  }

  ghost predicate ChecksStand(s: System) {
    forall i: nat :: i < |s.jobs| && PastCheck(s.jobs[i].at) ==> NoConflict(s.rows, s.jobs[i].claim)
  }

  ghost predicate Inv(s: System) {
    && CreateLanes.Inv(s.lanes)
    && Aligned(s)
    && ChecksStand(s)
    && ClashFree(s.rows)
    && (forall id :: id in s.rows ==> s.rows[id].startDay <= s.rows[id].endDay)
    && (forall i: nat :: i < |s.jobs| ==> Ledger.ValidDraft(s.jobs[i].claim))
  }

  /** The lane at work: two creates for one employee and place are never past their checks together. */
  lemma SameLaneExcludes(s: System, i: nat, j: nat)
    requires CreateLanes.Inv(s.lanes) && Aligned(s) && i < |s.jobs| && j < |s.jobs| && i != j
    requires PhaseOf(s.jobs[i].at) == CreateLanes.Running && PhaseOf(s.jobs[j].at) == CreateLanes.Running
    ensures !SamePlace(s.jobs[i].claim, s.jobs[j].claim)
  {
    if SamePlace(s.jobs[i].claim, s.jobs[j].claim) {
      assert CreateLanes.SameKey(s.lanes.callers, if i < j then i else j, if i < j then j else i);
    }
  }

  lemma InsertKeepsInv(s: System, i: nat, id: nat)
    requires Inv(s) && Enabled(s, Insert(i, id))
    ensures Inv(Do(s, Insert(i, id)))
  {
    var s' := Do(s, Insert(i, id));
    forall j: nat | j < |s'.jobs| && PastCheck(s'.jobs[j].at)
      ensures NoConflict(s'.rows, s'.jobs[j].claim)
    {
      SameLaneExcludes(s, i, j);
    }
  }

  /** Fewer active rows never hurt. */
  lemma FewerActive(rows: map<nat, Row>, rows': map<nat, Row>)
    requires forall id :: id in rows' ==> id in rows && Ledger.SameIdentity(rows'[id], rows[id])
                                          && (Ledger.Active(rows'[id]) ==> Ledger.Active(rows[id]))
    requires ClashFree(rows)
    ensures ClashFree(rows')
    ensures forall c :: NoConflict(rows, c) ==> NoConflict(rows', c)
  {
  }

  /** A step that only takes rows out of play. */
  lemma RowsKeepInv(s: System, rows': map<nat, Row>)
    requires Inv(s)
    requires forall id :: id in rows' ==> id in s.rows && Ledger.SameIdentity(rows'[id], s.rows[id])
                                          && (Ledger.Active(rows'[id]) ==> Ledger.Active(s.rows[id]))
    ensures Inv(s.(rows := rows'))
  {
    FewerActive(s.rows, rows');
  }

  lemma RowStepKeepsInv(s: System, a: Step)
    requires Inv(s) && Enabled(s, a) && (a.Approve? || a.Reject? || a.Cancel? || a.RollBack?)
    ensures Inv(Do(s, a))
  {
    RowsKeepInv(s, Do(s, a).rows);
    if a.RollBack? {
      MoveKeepsInv(WithoutOwnRow(s, a.i), a.i, if a.retry then Ready else Through);
    }
  }

  lemma ArriveKeepsInv(s: System, claim: Claim)
    requires Inv(s) && Ledger.ValidDraft(claim)
    ensures Inv(Do(s, Arrive(claim)))
  {
    CreateLanes.StepKeepsInv(s.lanes, CreateLanes.Enter(LockKey(claim)));
  }

  lemma BeginKeepsInv(s: System, i: nat)
    requires Inv(s) && Enabled(s, Begin(i))
    ensures Inv(Do(s, Begin(i)))
  {
    CreateLanes.StepKeepsInv(s.lanes, CreateLanes.Start(i));
  }

  lemma LeaveKeepsInv(s: System, i: nat)
    requires Inv(s) && Enabled(s, Leave(i))
    ensures Inv(Do(s, Leave(i)))
  {
    CreateLanes.StepKeepsInv(s.lanes, CreateLanes.Finish(i));
  }

  /** A create that only moves on within its body, keeping the rows as they are. */
  lemma MoveKeepsInv(s: System, i: nat, p: Progress)
    requires Inv(s) && i < |s.jobs| && PhaseOf(s.jobs[i].at) == PhaseOf(p) == CreateLanes.Running
    requires PastCheck(p) ==> NoConflict(s.rows, s.jobs[i].claim)
    ensures Inv(Move(s, i, p))
  {
  }

  lemma StepKeepsInv(s: System, a: Step)
    requires Inv(s) && Enabled(s, a)
    ensures Inv(Do(s, a))
  {
    match a
    case Arrive(claim) => ArriveKeepsInv(s, claim);
    case Begin(i) => BeginKeepsInv(s, i);
    case Leave(i) => LeaveKeepsInv(s, i);
    case Insert(i, id) => InsertKeepsInv(s, i, id);
    case ReturnEarly(i) => MoveKeepsInv(s, i, Through);
    case CheckOverlap(i) => MoveKeepsInv(s, i, if NoConflict(s.rows, s.jobs[i].claim) then Checked else Through);
    case Deduct(i, ok) => MoveKeepsInv(s, i, if ok then Deducted else Through);
    case Commit(i) => MoveKeepsInv(s, i, Through);
    case _ => RowStepKeepsInv(s, a);
  }

  lemma {:induction false} AllSchedulesKeepInv(s: System, steps: seq<Step>, end: System)
    requires Inv(s) && Executes(s, steps, end)
    ensures Inv(end)
    decreases |steps|
  {
    if steps != [] {
      StepKeepsInv(s, steps[0]);
      AllSchedulesKeepInv(Do(s, steps[0]), steps[1..], end);
    }
  }

  /** Overlap safety: whatever the schedule, no calendar day is ever covered by two distinct
      pending or approved requests of one employee and location. */
  lemma NoDayIsBookedTwice(steps: seq<Step>, s: System, a: nat, b: nat)
    requires Executes(EMPTY, steps, s)
    requires a in s.rows && b in s.rows && a != b && Ledger.Active(s.rows[a]) && Ledger.Active(s.rows[b])
    requires s.rows[a].employeeId == s.rows[b].employeeId && s.rows[a].locationId == s.rows[b].locationId
    ensures DaysIn(s.rows[a].startDay, s.rows[a].endDay) * DaysIn(s.rows[b].startDay, s.rows[b].endDay) == {}
  {
    AllSchedulesKeepInv(EMPTY, steps, s);
    assert !Ledger.Clash(s.rows[a], s.rows[b]);
    RangesMeet(s.rows[a].startDay, s.rows[a].endDay, s.rows[b].startDay, s.rows[b].endDay);
  }

  // ---- The same system without the lane --------------------------------------------------------

  /** As `Enabled`, but a body begins and ends without asking its lane. */
  ghost predicate EnabledWithoutLane(s: System, a: Step) {
    if a.Begin? then At(s, a.i, Queued)
    else if a.Leave? then At(s, a.i, Through)
    else Enabled(s, a)
  }

  ghost function DoWithoutLane(s: System, a: Step): System
    requires EnabledWithoutLane(s, a)
  {
    if a.Arrive? then s.(jobs := s.jobs + [Job(a.claim, Queued)])
    else if a.Begin? then Move(s, a.i, Ready)
    else if a.Leave? then Move(s, a.i, Gone)
    else Do(s, a)
  }

  ghost predicate ExecutesWithoutLane(s: System, steps: seq<Step>, end: System)
    decreases |steps|
  {
    if steps == [] then s == end
    else EnabledWithoutLane(s, steps[0]) && ExecutesWithoutLane(DoWithoutLane(s, steps[0]), steps[1..], end)
  }

  lemma {:induction false} OneMoreStep(s: System, steps: seq<Step>, mid: System, a: Step) returns (steps': seq<Step>)
    requires ExecutesWithoutLane(s, steps, mid) && EnabledWithoutLane(mid, a)
    ensures ExecutesWithoutLane(s, steps', DoWithoutLane(mid, a))
    decreases |steps|
  {
    if steps == [] {
      steps' := [a];
      assert [a][1..] == [];
    } else {
      var rest := OneMoreStep(DoWithoutLane(s, steps[0]), steps[1..], mid, a);
      steps' := [steps[0]] + rest;
      assert steps'[1..] == rest;
    }
  }

  /** One create's steps from arrival up to its overlap check. */
  lemma ArriveAndBegin(s: System, steps: seq<Step>, mid: System, c: Claim) returns (steps': seq<Step>)
    requires ExecutesWithoutLane(s, steps, mid) && Ledger.ValidDraft(c)
    ensures ExecutesWithoutLane(s, steps', mid.(jobs := mid.jobs + [Job(c, Ready)]))
  {
    var i := |mid.jobs|;
    steps' := OneMoreStep(s, steps, mid, Arrive(c));
    var queued := mid.(jobs := mid.jobs + [Job(c, Queued)]);
    steps' := OneMoreStep(s, steps', queued, Begin(i));
    assert Move(queued, i, Ready) == mid.(jobs := mid.jobs + [Job(c, Ready)]);
  }

  /** A create past its check deducts, inserts its row and commits, without looking at the other rows again. */
  lemma FinishCreate(s: System, steps: seq<Step>, mid: System, i: nat, id: nat) returns (steps': seq<Step>)
    requires ExecutesWithoutLane(s, steps, mid) && At(mid, i, Checked) && id !in mid.rows
    ensures ExecutesWithoutLane(s, steps',
              Move(mid, i, Through).(rows := mid.rows[id := Ledger.NewRequest(mid.jobs[i].claim)]))
  {
    var rows' := mid.rows[id := Ledger.NewRequest(mid.jobs[i].claim)];
    steps' := OneMoreStep(s, steps, mid, Deduct(i, true));
    steps' := OneMoreStep(s, steps', Move(mid, i, Deducted), Insert(i, id));
    assert Do(Move(mid, i, Deducted), Insert(i, id)) == Move(mid, i, Inserted(id)).(rows := rows');
    steps' := OneMoreStep(s, steps', Move(mid, i, Inserted(id)).(rows := rows'), Commit(i));
    assert Move(Move(mid, i, Inserted(id)).(rows := rows'), i, Through) == Move(mid, i, Through).(rows := rows');
  }

  lemma BothPassTheirChecks(a: Claim, b: Claim) returns (steps: seq<Step>)
    requires Ledger.ValidDraft(a) && Ledger.ValidDraft(b)
    ensures ExecutesWithoutLane(EMPTY, steps, System(CreateLanes.NO_LANES, [Job(a, Checked), Job(b, Checked)], map[]))
  {
    steps := ArriveAndBegin(EMPTY, [], EMPTY, a);
    assert [] + [Job(a, Ready)] == [Job(a, Ready)];
    var one := System(CreateLanes.NO_LANES, [Job(a, Ready)], map[]);
    steps := ArriveAndBegin(EMPTY, steps, one, b);
    assert [Job(a, Ready)] + [Job(b, Ready)] == [Job(a, Ready), Job(b, Ready)];
    var two := System(CreateLanes.NO_LANES, [Job(a, Ready), Job(b, Ready)], map[]);
    steps := OneMoreStep(EMPTY, steps, two, CheckOverlap(0));
    steps := OneMoreStep(EMPTY, steps, Move(two, 0, Checked), CheckOverlap(1));
    assert Move(Move(two, 0, Checked), 1, Checked).jobs == [Job(a, Checked), Job(b, Checked)];
  }

  lemma BothCommit(a: Claim, b: Claim) returns (steps: seq<Step>, end: System)
    requires Ledger.ValidDraft(a) && Ledger.ValidDraft(b)
    ensures ExecutesWithoutLane(EMPTY, steps, end)
    ensures end.rows == map[0 := Ledger.NewRequest(a), 1 := Ledger.NewRequest(b)]
  {
    steps := BothPassTheirChecks(a, b);
    var checked := System(CreateLanes.NO_LANES, [Job(a, Checked), Job(b, Checked)], map[]);
    var row0, row1 := Ledger.NewRequest(a), Ledger.NewRequest(b);
    steps := FinishCreate(EMPTY, steps, checked, 0, 0);
    var first := Move(checked, 0, Through).(rows := map[0 := row0]);
    assert map[][0 := row0] == map[0 := row0];
    steps := FinishCreate(EMPTY, steps, first, 1, 1);
    end := Move(first, 1, Through).(rows := map[0 := row0][1 := row1]);
  }

  /** The lane is what makes the check good: without it, any two creates of one employee and place that want a
      common day can both pass their checks and commit, and that day is booked twice. */
  lemma ChecksAloneAreNotEnough(a: Claim, b: Claim, day: int) returns (steps: seq<Step>, end: System)
    requires Ledger.ValidDraft(a) && Ledger.ValidDraft(b) && SamePlace(a, b)
    requires a.startDay <= day <= a.endDay && b.startDay <= day <= b.endDay
    ensures ExecutesWithoutLane(EMPTY, steps, end)
    ensures end.rows == map[0 := Ledger.NewRequest(a), 1 := Ledger.NewRequest(b)]
    ensures Ledger.Active(end.rows[0]) && Ledger.Active(end.rows[1]) && !ClashFree(end.rows)
    ensures day in DaysIn(end.rows[0].startDay, end.rows[0].endDay) * DaysIn(end.rows[1].startDay, end.rows[1].endDay)
  {
    steps, end := BothCommit(a, b);
    assert Ledger.Clash(end.rows[0], end.rows[1]);
  }
}
