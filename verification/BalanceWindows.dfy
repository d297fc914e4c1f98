/** One balance record under the methods of src/modules/balance/balance.service.js when no database lock is
    taken: each reads the row, checks it, and saves whole amounts later. Other transactions may save in
    between. The create lane keeps creates of one record apart, but approvals, rejections and cancellations
    take no lane. */
module BalanceWindows {
  import opened Wrappers
  import Ledger

  datatype Amounts = Amounts(available: real, pending: real, used: real)

  datatype Kind = Deduct | Release | Finalize

  datatype Stage = Waiting | Holding(read: Amounts) | Saved | Threw

  datatype Job = Job(kind: Kind, days: real, stage: Stage)

  datatype Record = Record(stored: Amounts, jobs: seq<Job>)

  datatype Step = Read(i: nat) | Save(i: nat)

  function Moved(a: Amounts, kind: Kind, days: real): Amounts {
    match kind
    case Deduct => a.(available := a.available - days, pending := a.pending + days)
    case Release => a.(pending := a.pending - days, available := a.available + days)
    case Finalize => a.(pending := a.pending - days, used := a.used + days)
  }

  predicate Allows(a: Amounts, kind: Kind, days: real) {
    if kind == Deduct then a.available >= days else a.pending >= days
  }

  predicate Enabled(s: Record, a: Step) {
    && a.i < |s.jobs|
    && match a
       case Read(i) => s.jobs[i].stage == Waiting
       case Save(i) => s.jobs[i].stage.Holding?
  }

  function SetStage(s: Record, i: nat, st: Stage): Record
    requires i < |s.jobs|
  {
    s.(jobs := s.jobs[i := s.jobs[i].(stage := st)])
  }

  /** A step that is not enabled does nothing. */
  function Do(s: Record, a: Step): Record {
    if !Enabled(s, a) then s
    else
      var j := s.jobs[a.i];
      match a
      case Read(i) => SetStage(s, i, if Allows(s.stored, j.kind, j.days) then Holding(s.stored) else Threw)
      case Save(i) => SetStage(s, i, Saved).(stored := Moved(j.stage.read, j.kind, j.days))
  }

  function Run(s: Record, steps: seq<Step>): Record
    decreases |steps|
  {
    if steps == [] then s else Run(Do(s, steps[0]), steps[1..])
  }

  /** What the record should hold: the starting amounts and the movement of every job that has saved. */
  function Owed(start: Amounts, jobs: seq<Job>): Amounts
    decreases |jobs|
  {
    if jobs == [] then start
    else
      var j := jobs[|jobs| - 1];
      var before := Owed(start, jobs[..|jobs| - 1]);
      if j.stage == Saved then Moved(before, j.kind, j.days) else before
  }

  predicate NothingLost(start: Amounts, s: Record) {
    s.stored == Owed(start, s.jobs)
  }

  /** A save that still finds the amounts it read: what a version check in the UPDATE would insist on. */
  predicate Fresh(s: Record, a: Step) {
    a.Save? && Enabled(s, a) ==> s.jobs[a.i].stage.read == s.stored
  }

  lemma {:induction false} OwedUpdate(start: Amounts, jobs: seq<Job>, i: nat, st: Stage)
    requires i < |jobs| && jobs[i].stage != Saved
    ensures Owed(start, jobs[i := jobs[i].(stage := st)])
            == if st == Saved then Moved(Owed(start, jobs), jobs[i].kind, jobs[i].days) else Owed(start, jobs)
    decreases |jobs|
  {
    var n := |jobs| - 1;
    var jobs' := jobs[i := jobs[i].(stage := st)];
    if i == n {
      assert jobs'[..n] == jobs[..n];
    } else {
      OwedUpdate(start, jobs[..n], i, st);
      assert jobs'[..n] == jobs[..n][i := jobs[i].(stage := st)];
    }
  }

  lemma MovesDiffer(a: Amounts, b: Amounts, kind: Kind, days: real)
    ensures Moved(a, kind, days) == Moved(b, kind, days) <==> a == b
  {
  }

  lemma StepLosesNothingIffFresh(start: Amounts, s: Record, a: Step)
    requires NothingLost(start, s)
    ensures NothingLost(start, Do(s, a)) <==> Fresh(s, a)
  {
    if Enabled(s, a) {
      OwedUpdate(start, s.jobs, a.i, Do(s, a).jobs[a.i].stage);
      if a.Save? {
        MovesDiffer(s.jobs[a.i].stage.read, s.stored, s.jobs[a.i].kind, s.jobs[a.i].days);
      }
    }
  }

  ghost predicate NeverLoses(start: Amounts, s: Record, steps: seq<Step>) {
    forall n :: 0 <= n <= |steps| ==> NothingLost(start, Run(s, steps[..n]))
  }

  ghost predicate AlwaysFresh(s: Record, steps: seq<Step>) {
    forall n :: 0 <= n < |steps| ==> Fresh(Run(s, steps[..n]), steps[n])
  }

  lemma PrefixRun(s: Record, steps: seq<Step>, n: nat)
    requires 0 < n <= |steps|
    ensures Run(s, steps[..n]) == Run(Do(s, steps[0]), steps[1..][..n - 1])
  {
    assert steps[..n][1..] == steps[1..][..n - 1];
  }

  lemma NeverLosesStep(start: Amounts, s: Record, steps: seq<Step>)
    requires steps != []
    ensures NeverLoses(start, s, steps) <==> NothingLost(start, s) && NeverLoses(start, Do(s, steps[0]), steps[1..])
  {
    var s' := Do(s, steps[0]);
    assert steps[..0] == [];
    forall n | 0 < n <= |steps| ensures Run(s, steps[..n]) == Run(s', steps[1..][..n - 1]) { PrefixRun(s, steps, n); }
    if NeverLoses(start, s, steps) {
      assert NothingLost(start, Run(s, steps[..0]));
      forall m | 0 <= m <= |steps[1..]| ensures NothingLost(start, Run(s', steps[1..][..m])) {
        assert NothingLost(start, Run(s, steps[..m + 1]));
      }
    }
  }

  lemma AlwaysFreshStep(s: Record, steps: seq<Step>)
    requires steps != []
    ensures AlwaysFresh(s, steps) <==> Fresh(s, steps[0]) && AlwaysFresh(Do(s, steps[0]), steps[1..])
  {
    var s' := Do(s, steps[0]);
    assert steps[..0] == [];
    forall n | 0 < n <= |steps| ensures Run(s, steps[..n]) == Run(s', steps[1..][..n - 1]) { PrefixRun(s, steps, n); }
    if AlwaysFresh(s, steps) {
      assert Fresh(Run(s, steps[..0]), steps[0]);
      forall m | 0 <= m < |steps[1..]| ensures Fresh(Run(s', steps[1..][..m]), steps[1..][m]) {
        assert Fresh(Run(s, steps[..m + 1]), steps[m + 1]);
      }
    }
  }

  /** The exact condition: on every schedule of reads and saves, the record always holds what its saved movements
      add up to if and only if every save still finds the amounts it read. */
  lemma {:induction false} NothingLostIffFresh(start: Amounts, s: Record, steps: seq<Step>)
    requires NothingLost(start, s)
    ensures NeverLoses(start, s, steps) <==> AlwaysFresh(s, steps)
    decreases |steps|
  {
    if steps != [] {
      var s' := Do(s, steps[0]);
      NeverLosesStep(start, s, steps);
      AlwaysFreshStep(s, steps);
      StepLosesNothingIffFresh(start, s, steps[0]);
      if Fresh(s, steps[0]) {
        NothingLostIffFresh(start, s', steps[1..]);
      } else {
        assert steps[1..][..0] == [];
        assert !NothingLost(start, Run(s', steps[1..][..0]));
      }
    }
  }

  // ---- Windows that do not overlap -------------------------------------------------------------

  /** Between a job's read and its save nobody else saves. */
  predicate WindowsApart(steps: seq<Step>) {
    forall m, j, n :: 0 <= m < j < n < |steps| && steps[m].Read? && steps[n] == Save(steps[m].i) ==> !steps[j].Save?
  }

  predicate NobodyHolds(s: Record) {
    forall i :: 0 <= i < |s.jobs| ==> !s.jobs[i].stage.Holding?
  }

  lemma {:induction false} RunLast(s: Record, steps: seq<Step>, n: nat)
    requires n < |steps|
    ensures Run(s, steps[..n + 1]) == Do(Run(s, steps[..n]), steps[n])
    decreases n
  {
    if n == 0 {
      assert steps[..1][1..] == [];
    } else {
      PrefixRun(s, steps, n + 1);
      PrefixRun(s, steps, n);
      RunLast(Do(s, steps[0]), steps[1..], n - 1);
    }
  }

  /** Who holds amounts has read them, and they are still the stored ones unless somebody has saved since. */
  lemma {:induction false} HolderHasRead(s: Record, steps: seq<Step>, n: nat, i: nat) returns (m: nat)
    requires NobodyHolds(s) && n <= |steps|
    requires var r := Run(s, steps[..n]); i < |r.jobs| && r.jobs[i].stage.Holding?
    ensures m < n && steps[m] == Read(i)
    ensures (forall j :: m < j < n ==> !steps[j].Save?) ==>
              var r := Run(s, steps[..n]); i < |r.jobs| && r.jobs[i].stage == Holding(r.stored)
    decreases n
  {
    assert steps[..0] == [];
    if n == 0 {
      assert false;
    } else {
      RunLast(s, steps, n - 1);
      var before := Run(s, steps[..n - 1]);
      if before.jobs[i].stage.Holding? {
        m := HolderHasRead(s, steps, n - 1, i);
      } else {
        m := n - 1;
      }
    }
  }

  /** Windows kept apart, by a lock, a lane or luck, lose nothing. */
  lemma ApartLosesNothing(s: Record, steps: seq<Step>)
    requires NobodyHolds(s) && WindowsApart(steps) && NothingLost(s.stored, s)
    ensures NeverLoses(s.stored, s, steps)
  {
    forall n | 0 <= n < |steps|
      ensures Fresh(Run(s, steps[..n]), steps[n])
    {
      if steps[n].Save? && Enabled(Run(s, steps[..n]), steps[n]) {
        var m := HolderHasRead(s, steps, n, steps[n].i);
      }
    }
    NothingLostIffFresh(s.stored, s, steps);
  }

  // ---- What overlap does -----------------------------------------------------------------------

  function Sum(a: Amounts): real {
    a.available + a.pending + a.used
  }

  predicate SumsTo(s: Record, total: real) {
    Sum(s.stored) == total && forall i :: 0 <= i < |s.jobs| && s.jobs[i].stage.Holding? ==> Sum(s.jobs[i].stage.read) == total
  }

  /** The documented invariant does not notice: available + pending + used never changes, lost updates or not. */
  lemma {:induction false} TotalSurvives(s: Record, steps: seq<Step>, total: real)
    requires SumsTo(s, total)
    ensures SumsTo(Run(s, steps), total)
    decreases |steps|
  {
    if steps != [] {
      TotalSurvives(Do(s, steps[0]), steps[1..], total);
    }
  }

  lemma FourSteps(s: Record, a: Step, b: Step, c: Step, d: Step)
    ensures Run(s, [a, b, c]) == Do(Do(Do(s, a), b), c)
    ensures Run(s, [a, b, c, d]) == Do(Run(s, [a, b, c]), d)
  {
    var steps := [a, b, c, d];
    assert steps[..0] == [] && steps[..1] == [a] && steps[..2] == [a, b] && steps[..3] == [a, b, c] && steps[..4] == steps;
    RunLast(s, steps, 0);
    RunLast(s, steps, 1);
    RunLast(s, steps, 2);
    RunLast(s, steps, 3);
  }

  lemma OwedAppend(start: Amounts, jobs: seq<Job>, j: Job)
    requires j.stage == Saved
    ensures Owed(start, jobs + [j]) == Moved(Owed(start, jobs), j.kind, j.days)
  {
    assert (jobs + [j])[..|jobs|] == jobs;
  }

  lemma OwedForTwo(start: Amounts, j0: Job, j1: Job)
    requires j0.stage == Saved && j1.stage == Saved
    ensures Owed(start, [j0, j1]) == Moved(Moved(start, j0.kind, j0.days), j1.kind, j1.days)
  {
    OwedAppend(start, [], j0);
    OwedAppend(start, [j0], j1);
    assert [] + [j0] == [j0] && [j0] + [j1] == [j0, j1];
  }

  lemma ApprovalInsideCreate(a: Amounts, create: real, approve: real)
    requires a.available >= create && a.pending >= approve
    ensures Run(Record(a, [Job(Deduct, create, Waiting), Job(Finalize, approve, Waiting)]),
                [Read(0), Read(1), Save(1), Save(0)])
            == Record(Moved(a, Deduct, create), [Job(Deduct, create, Saved), Job(Finalize, approve, Saved)])
  {
    var s := Record(a, [Job(Deduct, create, Waiting), Job(Finalize, approve, Waiting)]);
    FourSteps(s, Read(0), Read(1), Save(1), Save(0));
    var held := Record(a, [Job(Deduct, create, Holding(a)), Job(Finalize, approve, Holding(a))]);
    assert Do(Do(s, Read(0)), Read(1)) == held;
    assert Do(held, Save(1)) == Record(Moved(a, Finalize, approve),
                                       [Job(Deduct, create, Holding(a)), Job(Finalize, approve, Saved)]);
  }

  /** The input: an approval reads and saves between a create's read and its save. Both commit, and the record
      ends as if there had been no approval: its days are pending again and used nowhere. */
  lemma ApprovalIsLost(a: Amounts, create: real, approve: real)
    requires a.available >= create && a.pending >= approve != 0.0
    ensures var s := Record(a, [Job(Deduct, create, Waiting), Job(Finalize, approve, Waiting)]);
            var end := Run(s, [Read(0), Read(1), Save(1), Save(0)]);
            && end.jobs == [Job(Deduct, create, Saved), Job(Finalize, approve, Saved)]
            && end.stored == Moved(a, Deduct, create)
            && Owed(a, end.jobs) == Moved(Moved(a, Deduct, create), Finalize, approve) != end.stored
  {
    ApprovalInsideCreate(a, create, approve);
    OwedForTwo(a, Job(Deduct, create, Saved), Job(Finalize, approve, Saved));
  }

  // ---- One undisturbed window ------------------------------------------------------------------

  function AmountsOf(b: Ledger.Balance): Amounts {
    Amounts(b.available, b.pending, b.used)
  }

  function LedgerOp(kind: Kind, bs: Ledger.Balances, k: Ledger.BalanceKey, days: real): Result<Ledger.Balances, Ledger.Error> {
    match kind
    case Deduct => Ledger.AtomicDeduct(bs, k, days)
    case Release => Ledger.ReleaseFromPending(bs, k, days)
    case Finalize => Ledger.FinalizeUsed(bs, k, days)
  }

  /** A window nobody disturbs is the ledger's operation: the same amounts, or the same refusal. */
  lemma OneWindowIsTheLedgerOp(kind: Kind, bs: Ledger.Balances, k: Ledger.BalanceKey, days: real)
    requires k in bs
    ensures var s := Run(Record(AmountsOf(bs[k]), [Job(kind, days, Waiting)]), [Read(0), Save(0)]);
            match LedgerOp(kind, bs, k, days)
            case Ok(bs') => k in bs' && s == Record(AmountsOf(bs'[k]), [Job(kind, days, Saved)])
            case Err(_) => s == Record(AmountsOf(bs[k]), [Job(kind, days, Threw)])
  {
    var s := Record(AmountsOf(bs[k]), [Job(kind, days, Waiting)]);
    var steps := [Read(0), Save(0)];
    assert steps[..0] == [] && steps[..1] == [Read(0)] && steps[..2] == steps;
    RunLast(s, steps, 0);
    RunLast(s, steps, 1);
  }
}
