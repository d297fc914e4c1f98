/** What the balances mean in calendar days: over all leave types, the days an employee has committed at
    a place are exactly the distinct days their active requests cover. */
module Coverage {
  import opened Wrappers
  import opened Collections
  import opened DayRanges
  import opened Ledger

  type Selection = Request -> bool

  function ActiveAt(employeeId: string, locationId: string): Selection {
    (r: Request) => Active(r) && r.employeeId == employeeId && r.locationId == locationId
  }

  /** Active requests that lie inside the window [lo, hi]. */
  function ActiveInside(employeeId: string, locationId: string, lo: int, hi: int): Selection {
    (r: Request) => Active(r) && r.employeeId == employeeId && r.locationId == locationId
                    && lo <= r.startDay && r.endDay <= hi
  }

  function DaysWhere(rs: seq<Request>, sel: Selection): nat
    decreases |rs|
  {
    if rs == [] then 0
    else DaysWhere(rs[..|rs| - 1], sel) + (if sel(rs[|rs| - 1]) then rs[|rs| - 1].daysRequested else 0)
  }

  /** The calendar days covered by the selected requests. */
  function CoveredBy(rs: seq<Request>, sel: Selection): set<int>
    decreases |rs|
  {
    if rs == [] then {}
    else
      var r := rs[|rs| - 1];
      CoveredBy(rs[..|rs| - 1], sel) + (if sel(r) then DaysIn(r.startDay, r.endDay) else {})
  }

  lemma {:induction false} CoveredBySome(rs: seq<Request>, sel: Selection)
    ensures forall d :: d in CoveredBy(rs, sel)
                        <==> exists i :: 0 <= i < |rs| && sel(rs[i]) && rs[i].startDay <= d <= rs[i].endDay
    decreases |rs|
  {
    if rs != [] {
      var n := |rs| - 1;
      CoveredBySome(rs[..n], sel);
      forall d
        ensures d in CoveredBy(rs, sel)
                <==> exists i :: 0 <= i < |rs| && sel(rs[i]) && rs[i].startDay <= d <= rs[i].endDay
      {
        if d in CoveredBy(rs[..n], sel) {
          var i :| 0 <= i < n && sel(rs[..n][i]) && rs[..n][i].startDay <= d <= rs[..n][i].endDay;
          assert sel(rs[i]) && rs[i].startDay <= d <= rs[i].endDay;
        }
        if i :| 0 <= i < n && sel(rs[i]) && rs[i].startDay <= d <= rs[i].endDay {
          assert rs[..n][i] == rs[i];
        }
      }
    }
  }

  predicate Rows(rs: seq<Request>) {
    forall i :: 0 <= i < |rs| ==> rs[i].startDay <= rs[i].endDay && rs[i].daysRequested == rs[i].endDay - rs[i].startDay + 1
  }

  lemma NewDaysAreFree(rs: seq<Request>, sel: Selection, employeeId: string, locationId: string, n: nat)
    requires n < |rs| && Disjoint(rs) && sel(rs[n])
    requires forall i :: 0 <= i <= n && sel(rs[i]) ==> ActiveAt(employeeId, locationId)(rs[i])
    ensures CoveredBy(rs[..n], sel) !! DaysIn(rs[n].startDay, rs[n].endDay)
  {
    CoveredBySome(rs[..n], sel);
    forall d | d in CoveredBy(rs[..n], sel)
      ensures d !in DaysIn(rs[n].startDay, rs[n].endDay)
    {
      var i :| 0 <= i < n && sel(rs[..n][i]) && rs[..n][i].startDay <= d <= rs[..n][i].endDay;
      assert sel(rs[i]) && !Clash(rs[i], rs[n]);
    }
  }

  lemma UnionSize(a: set<int>, b: set<int>)
    requires a !! b
    ensures |a + b| == |a| + |b|
  {
  }

  /** Requests picked from one employee and place never share a day, so their days add up. */
  lemma {:induction false} DisjointDaysAddUp(rs: seq<Request>, sel: Selection, employeeId: string, locationId: string)
    requires Disjoint(rs) && Rows(rs)
    requires forall i :: 0 <= i < |rs| && sel(rs[i]) ==> ActiveAt(employeeId, locationId)(rs[i])
    ensures DaysWhere(rs, sel) == |CoveredBy(rs, sel)|
    decreases |rs|
  {
    if rs != [] {
      var n := |rs| - 1;
      DisjointDaysAddUp(rs[..n], sel, employeeId, locationId);
      if sel(rs[n]) {
        NewDaysAreFree(rs, sel, employeeId, locationId, n);
        DaysInSize(rs[n].startDay, rs[n].endDay);
        UnionSize(CoveredBy(rs[..n], sel), DaysIn(rs[n].startDay, rs[n].endDay));
      }
    }
  }

  // ---- Summing over leave types ----------------------------------------------------------------

  function ActiveDays(rs: seq<Request>, employeeId: string, locationId: string, leaveType: LeaveType): nat {
    var k := BalanceKey(employeeId, locationId, leaveType);
    DaysFor(rs, k, Pending) + DaysFor(rs, k, Approved)
  }

  lemma LastRequestCounts(rs: seq<Request>, employeeId: string, locationId: string, leaveType: LeaveType)
    requires rs != []
    ensures var r := rs[|rs| - 1];
            ActiveDays(rs, employeeId, locationId, leaveType)
            == ActiveDays(rs[..|rs| - 1], employeeId, locationId, leaveType)
               + (if ActiveAt(employeeId, locationId)(r) && r.leaveType == leaveType then r.daysRequested else 0)
  {
  }

  lemma {:induction false} LeaveTypesPartition(rs: seq<Request>, employeeId: string, locationId: string)
    ensures DaysWhere(rs, ActiveAt(employeeId, locationId))
            == ActiveDays(rs, employeeId, locationId, Vacation) + ActiveDays(rs, employeeId, locationId, Sick)
             + ActiveDays(rs, employeeId, locationId, Personal) + ActiveDays(rs, employeeId, locationId, Maternity)
             + ActiveDays(rs, employeeId, locationId, Paternity) + ActiveDays(rs, employeeId, locationId, Bereavement)
    decreases |rs|
  {
    if rs != [] {
      LeaveTypesPartition(rs[..|rs| - 1], employeeId, locationId);
      LastRequestCounts(rs, employeeId, locationId, Vacation);
      LastRequestCounts(rs, employeeId, locationId, Sick);
      LastRequestCounts(rs, employeeId, locationId, Personal);
      LastRequestCounts(rs, employeeId, locationId, Maternity);
      LastRequestCounts(rs, employeeId, locationId, Paternity);
      LastRequestCounts(rs, employeeId, locationId, Bereavement);
    }
  }

  /** Pending plus used of one leave type; nothing where there is no record. */
  function CommittedOf(t: Tables, employeeId: string, locationId: string, leaveType: LeaveType): real {
    var k := BalanceKey(employeeId, locationId, leaveType);
    if k in t.balances then t.balances[k].pending + t.balances[k].used else 0.0
  }

  function CommittedDays(t: Tables, employeeId: string, locationId: string): real {
    CommittedOf(t, employeeId, locationId, Vacation) + CommittedOf(t, employeeId, locationId, Sick)
    + CommittedOf(t, employeeId, locationId, Personal) + CommittedOf(t, employeeId, locationId, Maternity)
    + CommittedOf(t, employeeId, locationId, Paternity) + CommittedOf(t, employeeId, locationId, Bereavement)
  }

  lemma CommittedMatches(t: Tables, employeeId: string, locationId: string, leaveType: LeaveType)
    requires Inv(t)
    ensures CommittedOf(t, employeeId, locationId, leaveType)
            == ActiveDays(t.requests, employeeId, locationId, leaveType) as real
  {
    var k := BalanceKey(employeeId, locationId, leaveType);
    if k in t.balances {
      assert BalanceAgrees(t, k);
    } else {
      NoDaysWithoutBalance(t, t.requests, k, Pending);
      NoDaysWithoutBalance(t, t.requests, k, Approved);
    }
  }

  lemma CoverageOf(t: Tables, employeeId: string, locationId: string)
    requires Inv(t)
    ensures CommittedDays(t, employeeId, locationId)
            == |CoveredBy(t.requests, ActiveAt(employeeId, locationId))| as real
  {
    CommittedMatches(t, employeeId, locationId, Vacation);
    CommittedMatches(t, employeeId, locationId, Sick);
    CommittedMatches(t, employeeId, locationId, Personal);
    CommittedMatches(t, employeeId, locationId, Maternity);
    CommittedMatches(t, employeeId, locationId, Paternity);
    CommittedMatches(t, employeeId, locationId, Bereavement);
    LeaveTypesPartition(t.requests, employeeId, locationId);
    DisjointDaysAddUp(t.requests, ActiveAt(employeeId, locationId), employeeId, locationId);
  }

  /** Coverage: after any run, pending plus used over all leave types of an employee at a place is the number
      of distinct calendar days their pending and approved requests cover. */
  lemma CoverageHolds(ops: seq<Op>, employeeId: string, locationId: string)
    requires forall i :: 0 <= i < |ops| ==> Admissible(ops[i])
    ensures var t := ApplyAll(EMPTY, ops);
            CommittedDays(t, employeeId, locationId)
            == |CoveredBy(t.requests, ActiveAt(employeeId, locationId))| as real
  {
    EmptyTablesAgree();
    LedgerAgreement(EMPTY, ops);
    CoverageOf(ApplyAll(EMPTY, ops), employeeId, locationId);
  }

  /** Active requests lying inside a window of n days total at most n days. */
  lemma WindowHoldsItsDays(ops: seq<Op>, employeeId: string, locationId: string, first: int, n: nat)
    requires forall i :: 0 <= i < |ops| ==> Admissible(ops[i])
    ensures DaysWhere(ApplyAll(EMPTY, ops).requests, ActiveInside(employeeId, locationId, first, first + n - 1)) <= n
  {
    EmptyTablesAgree();
    LedgerAgreement(EMPTY, ops);
    WindowOf(ApplyAll(EMPTY, ops).requests, employeeId, locationId, first, n);
  }

  lemma WindowOf(rs: seq<Request>, employeeId: string, locationId: string, first: int, n: nat)
    requires Disjoint(rs) && Rows(rs)
    ensures DaysWhere(rs, ActiveInside(employeeId, locationId, first, first + n - 1)) <= n
  {
    var sel := ActiveInside(employeeId, locationId, first, first + n - 1);
    var window := DaysIn(first, first + n - 1);
    DisjointDaysAddUp(rs, sel, employeeId, locationId);
    CoveredBySome(rs, sel);
    assert CoveredBy(rs, sel) <= window;
    SubsetSize(CoveredBy(rs, sel), window);
    DaysInSize(first, first + n - 1);
  }

  lemma OverlapMeansCovered(t: Tables, d: Draft)
    requires RowsSound(t) && ValidDraft(d)
    ensures Overlaps(t.requests, d) <==>
            CoveredBy(t.requests, ActiveAt(d.employeeId, d.locationId)) * DaysIn(d.startDay, d.endDay) != {}
  {
    var rs, sel := t.requests, ActiveAt(d.employeeId, d.locationId);
    var covered, wanted := CoveredBy(rs, sel), DaysIn(d.startDay, d.endDay);
    CoveredBySome(rs, sel);
    if Overlaps(rs, d) {
      var i :| 0 <= i < |rs| && Blocks(rs[i], d.employeeId, d.locationId, d.startDay, d.endDay);
      var day := if rs[i].startDay <= d.startDay then d.startDay else rs[i].startDay;
      assert sel(rs[i]) && rs[i].startDay <= day <= rs[i].endDay;
      assert day in covered * wanted;
    }
    if day :| day in covered * wanted {
      var i :| 0 <= i < |rs| && sel(rs[i]) && rs[i].startDay <= day <= rs[i].endDay;
      assert Blocks(rs[i], d.employeeId, d.locationId, d.startDay, d.endDay);
    }
  }

  /** When a create commits: its key is new, none of its days is covered yet, and the balance holds them.
      The error names the first of these that fails, in the order overlap, balance, key. */
  lemma CreateCommitsIff(t: Tables, d: Draft, expiresAt: int)
    requires Inv(t) && ValidDraft(d)
    ensures var r := CreateTx(t, d, expiresAt);
            var free := CoveredBy(t.requests, ActiveAt(d.employeeId, d.locationId)) * DaysIn(d.startDay, d.endDay) == {};
            var funded := DraftKey(d) in t.balances && t.balances[DraftKey(d)].available >= d.days as real;
            var unusedKey := d.idempotencyKey !in t.idempotency;
            && (r.Ok? <==> free && funded && unusedKey)
            && (r == Err(OverlappingRequest) <==> !free)
            && (r == Err(BalanceNotFound) <==> free && DraftKey(d) !in t.balances)
            && (r == Err(InsufficientBalance) <==>
                 free && DraftKey(d) in t.balances && t.balances[DraftKey(d)].available < d.days as real)
            && (r == Err(UniqueViolation) <==> free && funded && !unusedKey)
  {
    OverlapMeansCovered(t, d);
    if i :| 0 <= i < |t.requests| && t.requests[i].idempotencyKey == d.idempotencyKey {
      assert d.idempotencyKey in t.idempotency;
    }
    if d.idempotencyKey in t.idempotency {
      assert KeyTaken(t.requests, d.idempotencyKey);
    }
  }
}
