/** The scheduled jobs as methods: `runBatchSync` with its accounting, and `retryPendingHcmSyncs`, of
    src/modules/hcm/hcm-sync.service.js. HCM's answer and the database's failures are inputs. */
module HcmSync {
  import opened Wrappers
  import opened Collections
  import opened Ledger
  import opened Reconciliation
  import opened Services
  import RetryWorker

  datatype SyncLogStatus = Started | Completed | Partial | LogFailed

  datatype SyncError = RecordFailed(key: BalanceKey) | MissingFromSnapshot(key: BalanceKey) | RunFailed

  datatype SyncLog = SyncLog(status: SyncLogStatus, processed: nat, updated: nat, failed: nat, errors: seq<SyncError>)

  /** The snapshot is looked up by this joined string. */
  function JoinedKey(k: BalanceKey): string {
    k.employeeId + "|" + (k.locationId + "|" + LeaveName(k.leaveType))
  }

  predicate NoBar(k: BalanceKey) {
    '|' !in k.employeeId && '|' !in k.locationId
  }

  /** Ids without `|` make the joined key as good as the key. */
  lemma JoinedKeyIdentifies(a: BalanceKey, b: BalanceKey)
    requires NoBar(a) && NoBar(b) && JoinedKey(a) == JoinedKey(b)
    ensures a == b
  {
    FirstSeparator('|', a.employeeId, a.locationId + "|" + LeaveName(a.leaveType),
             b.employeeId, b.locationId + "|" + LeaveName(b.leaveType));
    FirstSeparator('|', a.locationId, LeaveName(a.leaveType), b.locationId, LeaveName(b.leaveType));
    LeaveNamesDiffer(a.leaveType, b.leaveType);
  }

  function JoinedKeys(snapshot: seq<HcmRecord>): set<string> {
    set i | 0 <= i < |snapshot| :: JoinedKey(snapshot[i].key)
  }

  /** Local records the snapshot does not mention. */
  function Omitted(bs: Balances, mentioned: set<string>): set<BalanceKey> {
    set k | k in bs && JoinedKey(k) !in mentioned
  }

  function FlagSet(bs: Balances, keys: set<BalanceKey>): Balances {
    map k | k in bs :: if k in keys then Flagged(bs[k]) else bs[k]
  }

  /** The records whose reconciliation does not fail. */
  function Surviving(snapshot: seq<HcmRecord>, failing: set<nat>): seq<HcmRecord>
    decreases |snapshot|
  {
    if snapshot == [] then []
    else
      var n := |snapshot| - 1;
      Surviving(snapshot[..n], failing) + (if n in failing then [] else [snapshot[n]])
  }

  /** The errors collected for the records whose reconciliation fails. */
  function RecordErrors(snapshot: seq<HcmRecord>, failing: set<nat>): seq<SyncError>
    decreases |snapshot|
  {
    if snapshot == [] then []
    else
      var n := |snapshot| - 1;
      RecordErrors(snapshot[..n], failing) + (if n in failing then [RecordFailed(snapshot[n].key)] else [])
  }

  /** Whether reconciling a record counts as an update: it is new, or off by more than the tolerance. */
  predicate Drifted(bs: Balances, r: HcmRecord) {
    r.key !in bs || Abs(r.total - LocalTotal(bs[r.key])) > DRIFT_TOLERANCE
  }

  /** The updates a run over the snapshot reports: each record is judged as the ones before it left things. */
  function Updates(bs: Balances, snapshot: seq<HcmRecord>, failing: set<nat>): nat
    decreases |snapshot|
  {
    if snapshot == [] then 0
    else
      var n := |snapshot| - 1;
      Updates(bs, snapshot[..n], failing)
      + (if n !in failing && Drifted(ReconcileAll(bs, Surviving(snapshot[..n], failing)), snapshot[n]) then 1 else 0)
  }

  /** How a run that reaches its end leaves the balances. */
  function AfterBatch(bs: Balances, snapshot: seq<HcmRecord>, failing: set<nat>): Balances {
    var reconciled := ReconcileAll(bs, Surviving(snapshot, failing));
    FlagSet(reconciled, Omitted(reconciled, JoinedKeys(snapshot)))
  }

  function FinalStatus(processed: nat, failed: nat): SyncLogStatus {
    if failed == 0 then Completed else if failed < processed then Partial else LogFailed
  }

  /** The local table as the database lists it: every record once, in some order. */
  predicate Lists(rows: seq<BalanceKey>, bs: Balances) {
    Distinct(rows) && Elements(rows) == bs.Keys
  }

  /** The listed records the snapshot does not mention. */
  function OmittedRows(rows: seq<BalanceKey>, mentioned: set<string>): seq<BalanceKey>
    decreases |rows|
  {
    if rows == [] then []
    else
      var n := |rows| - 1;
      OmittedRows(rows[..n], mentioned) + (if JoinedKey(rows[n]) in mentioned then [] else [rows[n]])
  }

  function Reports(keys: seq<BalanceKey>): seq<SyncError> {
    seq(|keys|, i requires 0 <= i < |keys| => MissingFromSnapshot(keys[i]))
  }

  /** The books of a run that reaches its end. */
  predicate Accounted(log: SyncLog, bs: Balances, snapshot: seq<HcmRecord>, failing: set<nat>, rows: seq<BalanceKey>) {
    var reconciled := ReconcileAll(bs, Surviving(snapshot, failing));
    var omitted := Omitted(reconciled, JoinedKeys(snapshot));
    && log.errors == RecordErrors(snapshot, failing) + Reports(OmittedRows(rows, JoinedKeys(snapshot)))
    && log.failed == |log.errors| == |RecordErrors(snapshot, failing)| + |omitted|
    && log.processed == |snapshot| + |omitted|
    && log.updated == Updates(bs, snapshot, failing) && log.updated + log.failed <= log.processed
    && (log.status == Completed <==> log.failed == 0)
    && (log.status == LogFailed <==> log.failed == log.processed > 0)
    && (log.status == Partial <==> 0 < log.failed < log.processed)
  }

  lemma {:induction false} OmittedRowsAre(rows: seq<BalanceKey>, mentioned: set<string>, k: BalanceKey)
    ensures k in OmittedRows(rows, mentioned) <==> k in rows && JoinedKey(k) !in mentioned
    decreases |rows|
  {
    if rows != [] {
      var n := |rows| - 1;
      OmittedRowsAre(rows[..n], mentioned, k);
      assert rows == rows[..n] + [rows[n]];
    }
  }

  lemma {:induction false} OmittedRowsDiffer(rows: seq<BalanceKey>, mentioned: set<string>)
    requires Distinct(rows)
    ensures Distinct(OmittedRows(rows, mentioned))
    decreases |rows|
  {
    if rows != [] {
      var n := |rows| - 1;
      OmittedRowsDiffer(rows[..n], mentioned);
      OmittedRowsAre(rows[..n], mentioned, rows[n]);
    }
  }

  lemma {:induction false} DistinctSize<T>(s: seq<T>)
    requires Distinct(s)
    ensures |Elements(s)| == |s|
    decreases |s|
  {
    if s != [] {
      var n := |s| - 1;
      DistinctSize(s[..n]);
      assert Elements(s) == Elements(s[..n]) + {s[n]};
    }
  }

  /** However the table is listed, the omitted rows are the omitted records, once each. */
  lemma OmittedRowsAreOmitted(rows: seq<BalanceKey>, bs: Balances, mentioned: set<string>)
    requires Lists(rows, bs)
    ensures Elements(OmittedRows(rows, mentioned)) == Omitted(bs, mentioned)
    ensures |OmittedRows(rows, mentioned)| == |Omitted(bs, mentioned)|
  {
    OmittedRowsDiffer(rows, mentioned);
    DistinctSize(OmittedRows(rows, mentioned));
    forall k
      ensures k in Elements(OmittedRows(rows, mentioned)) <==> k in Omitted(bs, mentioned)
    {
      OmittedRowsAre(rows, mentioned, k);
      assert k in rows <==> k in Elements(rows);
    }
    assert Elements(OmittedRows(rows, mentioned)) == Omitted(bs, mentioned);
  }

  lemma {:induction false} OmittedPrefix(rows: seq<BalanceKey>, mentioned: set<string>, n: nat)
    requires n <= |rows|
    ensures OmittedRows(rows[..n], mentioned) <= OmittedRows(rows, mentioned)
    decreases |rows|
  {
    if n < |rows| {
      OmittedPrefix(rows[..|rows| - 1], mentioned, n);
      assert rows[..|rows| - 1][..n] == rows[..n];
    } else {
      assert rows[..n] == rows;
    }
  }

  lemma {:induction false} ReconciledKeys(bs: Balances, snapshot: seq<HcmRecord>)
    ensures forall k :: k in ReconcileAll(bs, snapshot)
                        <==> k in bs || exists i :: 0 <= i < |snapshot| && snapshot[i].key == k
    decreases |snapshot|
  {
    if snapshot != [] {
      var n := |snapshot| - 1;
      ReconciledKeys(bs, snapshot[..n]);
      assert forall i :: 0 <= i < n ==> snapshot[..n][i] == snapshot[i];
    }
  }

  lemma {:induction false} AllSurvive(snapshot: seq<HcmRecord>, failing: set<nat>)
    requires failing == {}
    ensures Surviving(snapshot, failing) == snapshot && RecordErrors(snapshot, failing) == []
    decreases |snapshot|
  {
    if snapshot != [] {
      AllSurvive(snapshot[..|snapshot| - 1], failing);
    }
  }

  function SnapshotKeys(snapshot: seq<HcmRecord>): set<BalanceKey> {
    set i | 0 <= i < |snapshot| :: snapshot[i].key
  }

  lemma {:induction false} DistinctKeysCount(snapshot: seq<HcmRecord>)
    requires DistinctKeys(snapshot)
    ensures |SnapshotKeys(snapshot)| == |snapshot|
    decreases |snapshot|
  {
    if snapshot != [] {
      var n := |snapshot| - 1;
      DistinctKeysCount(snapshot[..n]);
      assert forall i :: 0 <= i < n ==> snapshot[..n][i] == snapshot[i];
      assert SnapshotKeys(snapshot) == SnapshotKeys(snapshot[..n]) + {snapshot[n].key};
    }
  }

  /** What "omitted" means once ids are free of `|`: absent from the snapshot. */
  lemma OmittedMeansAbsent(bs: Balances, snapshot: seq<HcmRecord>)
    requires forall k :: k in bs ==> NoBar(k)
    requires forall i :: 0 <= i < |snapshot| ==> NoBar(snapshot[i].key)
    ensures Omitted(bs, JoinedKeys(snapshot)) == bs.Keys - SnapshotKeys(snapshot)
  {
    forall k | k in bs
      ensures JoinedKey(k) in JoinedKeys(snapshot) <==> k in SnapshotKeys(snapshot)
    {
      if JoinedKey(k) in JoinedKeys(snapshot) {
        var i :| 0 <= i < |snapshot| && JoinedKey(snapshot[i].key) == JoinedKey(k);
        JoinedKeyIdentifies(snapshot[i].key, k);
      }
      if k in SnapshotKeys(snapshot) {
        var i :| 0 <= i < |snapshot| && snapshot[i].key == k;
        assert JoinedKey(snapshot[i].key) in JoinedKeys(snapshot);
      }
    }
  }

  lemma DifferenceSize<T>(a: set<T>, b: set<T>)
    requires b <= a
    ensures |a - b| == |a| - |b|
  {
    assert a == b + (a - b);
  }

  lemma FlagSetKeys(bs: Balances, keys: set<BalanceKey>)
    ensures FlagSet(bs, keys).Keys == bs.Keys && |FlagSet(bs, keys)| == |bs.Keys|
  {
    assert FlagSet(bs, keys).Keys == bs.Keys;
    assert |FlagSet(bs, keys)| == |FlagSet(bs, keys).Keys|;
  }

  lemma OmittedCount(bs: Balances, snapshot: seq<HcmRecord>)
    requires DistinctKeys(snapshot) && SnapshotKeys(snapshot) <= bs.Keys
    requires forall k :: k in bs ==> NoBar(k)
    ensures |Omitted(bs, JoinedKeys(snapshot))| + |snapshot| == |bs.Keys|
  {
    forall i | 0 <= i < |snapshot|
      ensures NoBar(snapshot[i].key)
    {
      assert snapshot[i].key in SnapshotKeys(snapshot);
    }
    OmittedMeansAbsent(bs, snapshot);
    DistinctKeysCount(snapshot);
    DifferenceSize(bs.Keys, SnapshotKeys(snapshot));
  }

  /** With distinct snapshot keys and no failing record, a run processes each local record exactly once:
      the count is the size of the local table afterwards. */
  lemma ProcessedIsTableSize(log: SyncLog, bs: Balances, snapshot: seq<HcmRecord>, rows: seq<BalanceKey>)
    requires Accounted(log, bs, snapshot, {}, rows) && DistinctKeys(snapshot)
    requires forall k :: k in bs ==> NoBar(k)
    requires forall i :: 0 <= i < |snapshot| ==> NoBar(snapshot[i].key)
    ensures log.processed == |AfterBatch(bs, snapshot, {})|
  {
    AllSurvive(snapshot, {});
    var reconciled := ReconcileAll(bs, snapshot);
    ReconciledKeys(bs, snapshot);
    OmittedCount(reconciled, snapshot);
    FlagSetKeys(reconciled, Omitted(reconciled, JoinedKeys(snapshot)));
  }

  /** The records, by place, that drift from the balances as the run found them. */
  function DriftedAt(bs: Balances, snapshot: seq<HcmRecord>, failing: set<nat>): set<nat> {
    set i: nat | i < |snapshot| && i !in failing && NewOrOff(bs, snapshot[i])
  }

  /** New, or more than 0.01 away from what the record holds. */
  predicate NewOrOff(bs: Balances, r: HcmRecord) {
    r.key !in bs
    || var sum := bs[r.key].used + bs[r.key].pending + bs[r.key].available;
       r.total - sum > 0.01 || sum - r.total > 0.01
  }

  /** With distinct keys no record hides another's drift: recordsUpdated counts the surviving records that
      drift from the balances as they were before the run. */
  lemma {:induction false} UpdatesCountDrift(bs: Balances, snapshot: seq<HcmRecord>, failing: set<nat>)
    requires DistinctKeys(snapshot)
    ensures Updates(bs, snapshot, failing) == |DriftedAt(bs, snapshot, failing)|
    decreases |snapshot|
  {
    if snapshot == [] {
      assert DriftedAt(bs, snapshot, failing) == {};
    } else {
      var n := |snapshot| - 1;
      UpdatesCountDrift(bs, snapshot[..n], failing);
      EarlierRecordsDiffer(bs, snapshot, failing);
      DriftedStep(bs, snapshot, failing);
    }
  }

  lemma DriftedStep(bs: Balances, snapshot: seq<HcmRecord>, failing: set<nat>)
    requires snapshot != []
    ensures var n := |snapshot| - 1;
            |DriftedAt(bs, snapshot, failing)|
            == |DriftedAt(bs, snapshot[..n], failing)| + (if n !in failing && NewOrOff(bs, snapshot[n]) then 1 else 0)
  {
    var n := |snapshot| - 1;
    var before := DriftedAt(bs, snapshot[..n], failing);
    assert DriftedAt(bs, snapshot, failing)
        == if n !in failing && NewOrOff(bs, snapshot[n]) then before + {n} else before;
  }

  lemma EarlierRecordsDiffer(bs: Balances, snapshot: seq<HcmRecord>, failing: set<nat>)
    requires DistinctKeys(snapshot) && snapshot != []
    ensures var n := |snapshot| - 1;
            Lookup(ReconcileAll(bs, Surviving(snapshot[..n], failing)), snapshot[n].key) == Lookup(bs, snapshot[n].key)
  {
    var n := |snapshot| - 1;
    var earlier := Surviving(snapshot[..n], failing);
    SurvivorsAreRecords(snapshot[..n], failing);
    forall i | 0 <= i < |earlier|
      ensures earlier[i].key != snapshot[n].key
    {
      var j :| 0 <= j < n && snapshot[..n][j] == earlier[i];
    }
    NoRecords(earlier, snapshot[n].key);
    KeysAreIndependent(bs, earlier, snapshot[n].key);
  }

  lemma {:induction false} SurvivorsAreRecords(snapshot: seq<HcmRecord>, failing: set<nat>)
    ensures forall i :: 0 <= i < |Surviving(snapshot, failing)| ==> Surviving(snapshot, failing)[i] in snapshot
    decreases |snapshot|
  {
    if snapshot != [] {
      SurvivorsAreRecords(snapshot[..|snapshot| - 1], failing);
    }
  }

  /** Reconciliation passes an omitted record by. */
  lemma OmittedIsUntouched(bs: Balances, snapshot: seq<HcmRecord>, failing: set<nat>, k: BalanceKey)
    requires JoinedKey(k) !in JoinedKeys(snapshot)
    ensures Lookup(ReconcileAll(bs, Surviving(snapshot, failing)), k) == Lookup(bs, k)
  {
    var survivors := Surviving(snapshot, failing);
    SurvivorsAreRecords(snapshot, failing);
    forall i | 0 <= i < |survivors|
      ensures survivors[i].key != k
    {
      var j :| 0 <= j < |snapshot| && snapshot[j] == survivors[i];
      assert JoinedKey(snapshot[j].key) in JoinedKeys(snapshot);
    }
    NoRecords(survivors, k);
    KeysAreIndependent(bs, survivors, k);
  }

  /** A local record absent from the snapshot keeps its amounts and ends flagged, with the amount it had or
      zero; a record the snapshot mentions ends as reconciliation leaves it. */
  lemma AbsentRecordsAreFlagged(bs: Balances, snapshot: seq<HcmRecord>, failing: set<nat>, k: BalanceKey)
    requires k in bs && NoBar(k) && forall i :: 0 <= i < |snapshot| ==> NoBar(snapshot[i].key)
    ensures k in AfterBatch(bs, snapshot, failing)
    ensures var b := AfterBatch(bs, snapshot, failing)[k];
            if k in SnapshotKeys(snapshot)
            then Some(b) == FoldKey(Some(bs[k]), RecordsOf(Surviving(snapshot, failing), k))
            else SameAmounts(b, bs[k]) && b.hasDiscrepancy
                 && b.discrepancyAmount == (if bs[k].discrepancyAmount.None? then Some(0.0) else bs[k].discrepancyAmount)
  {
    var survivors := Surviving(snapshot, failing);
    KeysAreIndependent(bs, survivors, k);
    FoldNeverTakesAway(bs[k], RecordsOf(survivors, k));
    assert Lookup(ReconcileAll(bs, survivors), k).Some?;
    if k in SnapshotKeys(snapshot) {
      var i :| 0 <= i < |snapshot| && snapshot[i].key == k;
      assert JoinedKey(snapshot[i].key) in JoinedKeys(snapshot);
    } else {
      if JoinedKey(k) in JoinedKeys(snapshot) {
        var i :| 0 <= i < |snapshot| && JoinedKey(snapshot[i].key) == JoinedKey(k);
        JoinedKeyIdentifies(snapshot[i].key, k);
      }
      OmittedIsUntouched(bs, snapshot, failing, k);
    }
  }

  lemma SecondPassFindsTheSame(bs: Balances, snapshot: seq<HcmRecord>, failing: set<nat>, k: BalanceKey)
    ensures Lookup(ReconcileAll(AfterBatch(bs, snapshot, failing), Surviving(snapshot, failing)), k)
            == Lookup(AfterBatch(bs, snapshot, failing), k)
  {
    var survivors := Surviving(snapshot, failing);
    var once := ReconcileAll(bs, survivors);
    var after := AfterBatch(bs, snapshot, failing);
    if k in Omitted(once, JoinedKeys(snapshot)) {
      OmittedIsUntouched(after, snapshot, failing, k);
    } else {
      assert Lookup(after, k) == Lookup(once, k);
      KeysAreIndependent(bs, survivors, k);
      KeysAreIndependent(after, survivors, k);
      FoldTwice(Lookup(bs, k), RecordsOf(survivors, k));
    }
  }

  /** The whole job is idempotent: a second run over the same snapshot, failing on the same records, changes
      no balance and no flag. */
  lemma BatchTwiceIsOnce(bs: Balances, snapshot: seq<HcmRecord>, failing: set<nat>)
    ensures AfterBatch(AfterBatch(bs, snapshot, failing), snapshot, failing) == AfterBatch(bs, snapshot, failing)
  {
    var once := ReconcileAll(bs, Surviving(snapshot, failing));
    var after := AfterBatch(bs, snapshot, failing);
    forall k
      ensures Lookup(ReconcileAll(after, Surviving(snapshot, failing)), k) == Lookup(after, k)
    {
      SecondPassFindsTheSame(bs, snapshot, failing, k);
    }
    SameLookups(ReconcileAll(after, Surviving(snapshot, failing)), after);
    FlagSetKeys(once, Omitted(once, JoinedKeys(snapshot)));
    assert Omitted(after, JoinedKeys(snapshot)) == Omitted(once, JoinedKeys(snapshot));
  }

  /** A batch run is a series of the ledger's `Reconcile` and `Flag` operations and keeps its invariant. */
  lemma {:induction false} ReconcilingKeepsLedger(t: Tables, snapshot: seq<HcmRecord>)
    requires Inv(t) && forall i :: 0 <= i < |snapshot| ==> snapshot[i].total >= 0.0
    ensures Inv(t.(balances := ReconcileAll(t.balances, snapshot)))
    decreases |snapshot|
  {
    if snapshot == [] {
      assert t.(balances := t.balances) == t;
    } else {
      var n := |snapshot| - 1;
      var r := snapshot[n];
      ReconcilingKeepsLedger(t, snapshot[..n]);
      BalanceOpKeepsInv(t.(balances := ReconcileAll(t.balances, snapshot[..n])), Reconcile(r.key, r.total, r.version));
    }
  }

  lemma FlaggingKeepsLedger(t: Tables, keys: set<BalanceKey>)
    requires Inv(t)
    ensures Inv(t.(balances := FlagSet(t.balances, keys)))
  {
    var t' := t.(balances := FlagSet(t.balances, keys));
    forall k | k in t'.balances
      ensures BalanceAgrees(t', k)
    {
      assert BalanceAgrees(t, k);
    }
  }

  lemma BatchKeepsLedger(t: Tables, snapshot: seq<HcmRecord>, failing: set<nat>)
    requires Inv(t) && forall r :: r in snapshot ==> r.total >= 0.0
    ensures Inv(t.(balances := AfterBatch(t.balances, snapshot, failing)))
  {
    SurvivorsAreRecords(snapshot, failing);
    ReconcilingKeepsLedger(t, Surviving(snapshot, failing));
    var mid := t.(balances := ReconcileAll(t.balances, Surviving(snapshot, failing)));
    FlaggingKeepsLedger(mid, Omitted(mid.balances, JoinedKeys(snapshot)));
  }

  /** What one more record adds to the fold, the errors and the updates. */
  lemma SnapshotStep(bs: Balances, snapshot: seq<HcmRecord>, failing: set<nat>, i: nat)
    requires i < |snapshot|
    ensures var s, s' := snapshot[..i], snapshot[..i + 1];
            var before := ReconcileAll(bs, Surviving(s, failing));
            if i in failing
            then ReconcileAll(bs, Surviving(s', failing)) == before && Updates(bs, s', failing) == Updates(bs, s, failing)
                 && RecordErrors(s', failing) == RecordErrors(s, failing) + [RecordFailed(snapshot[i].key)]
            else ReconcileAll(bs, Surviving(s', failing)) == ReconcileOne(before, snapshot[i])
                 && RecordErrors(s', failing) == RecordErrors(s, failing)
                 && Updates(bs, s', failing) == Updates(bs, s, failing) + (if Drifted(before, snapshot[i]) then 1 else 0)
  {
    assert snapshot[..i + 1][..i] == snapshot[..i];
    SurvivingStep(snapshot, failing, i);
    if i !in failing {
      FoldStep(bs, Surviving(snapshot[..i], failing), snapshot[i]);
    }
  }

  lemma SurvivingStep(snapshot: seq<HcmRecord>, failing: set<nat>, i: nat)
    requires i < |snapshot|
    ensures Surviving(snapshot[..i + 1], failing)
            == if i in failing then Surviving(snapshot[..i], failing) else Surviving(snapshot[..i], failing) + [snapshot[i]]
  {
    assert snapshot[..i + 1][..i] == snapshot[..i];
  }

  lemma FoldStep(bs: Balances, records: seq<HcmRecord>, r: HcmRecord)
    ensures ReconcileAll(bs, records + [r]) == ReconcileOne(ReconcileAll(bs, records), r)
  {
    assert (records + [r])[..|records|] == records;
  }

  /** What one more row does to the omitted ones, their reports and the flagged set. */
  lemma OmittedStep(rows: seq<BalanceKey>, mentioned: set<string>, i: nat)
    requires i < |rows|
    ensures var done, more := OmittedRows(rows[..i], mentioned), OmittedRows(rows[..i + 1], mentioned);
            && more <= OmittedRows(rows, mentioned)
            && (if JoinedKey(rows[i]) in mentioned then more == done
                else more == done + [rows[i]] && Reports(more) == Reports(done) + [MissingFromSnapshot(rows[i])]
                     && Elements(more) == Elements(done) + {rows[i]})
  {
    assert rows[..i + 1][..i] == rows[..i];
    OmittedPrefix(rows, mentioned, i + 1);
  }

  lemma PrefixTaken(done: seq<BalanceKey>, all: seq<BalanceKey>)
    requires done <= all
    ensures all[..|done|] == done
  {
  }

  /** Flagging one more record; flagging it again would change nothing. */
  lemma FlagStep(bs: Balances, done: set<BalanceKey>, k: BalanceKey)
    requires k in bs
    ensures k in FlagSet(bs, done)
    ensures FlagSet(bs, done)[k := Flagged(FlagSet(bs, done)[k])] == FlagSet(bs, done + {k})
  {
  }

  /** Whether the job gets past its second loop. */
  predicate ReachesEnd(bs: Balances, snapshot: seq<HcmRecord>, failing: set<nat>, broken: Option<nat>) {
    var reconciled := ReconcileAll(bs, Surviving(snapshot, failing));
    broken.Some? ==> broken.value >= |Omitted(reconciled, JoinedKeys(snapshot))|
  }

  /** The books of a run that an update throws out of its second loop: the failing record is already counted,
      the collected errors are dropped for the one that ended the run. */
  predicate CutShort(log: SyncLog, bs: Balances, snapshot: seq<HcmRecord>, failing: set<nat>, broken: Option<nat>) {
    && broken.Some? && log.status == LogFailed && log.errors == [RunFailed]
    && log.processed == |snapshot| + broken.value + 1
    && log.failed == |RecordErrors(snapshot, failing)| + broken.value + 1
    && log.updated == Updates(bs, snapshot, failing)
  }

  /** The records flagged before the throw: the first omitted ones, as the table lists them. */
  function FlaggedBefore(rows: seq<BalanceKey>, mentioned: set<string>, broken: Option<nat>): set<BalanceKey> {
    var omitted := OmittedRows(rows, mentioned);
    Elements(if broken.Some? && broken.value < |omitted| then omitted[..broken.value] else omitted)
  }

  /** How far the second loop is after `i` rows. */
  predicate FlaggedSoFar(before: Balances, rows: seq<BalanceKey>, mentioned: set<string>, i: nat,
                         bs: Balances, count: nat, errors: seq<SyncError>)
    requires i <= |rows|
  {
    var done := OmittedRows(rows[..i], mentioned);
    count == |done| && errors == Reports(done) && bs == FlagSet(before, Elements(done))
  }

  lemma FlaggingStarts(before: Balances, rows: seq<BalanceKey>, mentioned: set<string>)
    ensures FlaggedSoFar(before, rows, mentioned, 0, before, 0, [])
  {
    assert Elements<BalanceKey>([]) == {};
  }

  lemma FlaggingSkips(before: Balances, rows: seq<BalanceKey>, mentioned: set<string>, i: nat,
                      bs: Balances, count: nat, errors: seq<SyncError>)
    requires i < |rows| && FlaggedSoFar(before, rows, mentioned, i, bs, count, errors) && JoinedKey(rows[i]) in mentioned
    ensures FlaggedSoFar(before, rows, mentioned, i + 1, bs, count, errors)
  {
    OmittedStep(rows, mentioned, i);
  }

  lemma FlaggingAdds(before: Balances, rows: seq<BalanceKey>, mentioned: set<string>, i: nat,
                     bs: Balances, count: nat, errors: seq<SyncError>)
    requires i < |rows| && FlaggedSoFar(before, rows, mentioned, i, bs, count, errors) && JoinedKey(rows[i]) !in mentioned
    requires rows[i] in before
    ensures rows[i] in bs
    ensures FlaggedSoFar(before, rows, mentioned, i + 1, bs[rows[i] := Flagged(bs[rows[i]])], count + 1,
                         errors + [MissingFromSnapshot(rows[i])])
  {
    OmittedStep(rows, mentioned, i);
    FlagStep(before, Elements(OmittedRows(rows[..i], mentioned)), rows[i]);
  }

  lemma FlaggingEnds(before: Balances, rows: seq<BalanceKey>, mentioned: set<string>,
                     bs: Balances, count: nat, errors: seq<SyncError>)
    requires FlaggedSoFar(before, rows, mentioned, |rows|, bs, count, errors)
    ensures var omitted := OmittedRows(rows, mentioned);
            count == |omitted| && errors == Reports(omitted[..count]) && bs == FlagSet(before, Elements(omitted))
  {
    assert rows[..|rows|] == rows;
    PrefixTaken(OmittedRows(rows, mentioned), OmittedRows(rows, mentioned));
  }

  /** The update of row `i` throws, after the omitted rows in `done`. */
  lemma ThrowsHere(rows: seq<BalanceKey>, mentioned: set<string>, i: nat, done: seq<BalanceKey>)
    requires i < |rows| && done == OmittedRows(rows[..i], mentioned) && JoinedKey(rows[i]) !in mentioned
    ensures var omitted := OmittedRows(rows, mentioned);
            && |done| < |omitted|
            && Reports(omitted[..|done| + 1]) == Reports(done) + [MissingFromSnapshot(rows[i])]
            && FlaggedBefore(rows, mentioned, Some(|done|)) == Elements(done)
  {
    OmittedStep(rows, mentioned, i);
    PrefixTaken(done, OmittedRows(rows, mentioned));
    PrefixTaken(done + [rows[i]], OmittedRows(rows, mentioned));
  }

  class HcmSyncService {
    const db: Database
    var batchRunning: bool
    var logs: seq<SyncLog>

    constructor (db: Database)
      ensures this.db == db && !batchRunning && logs == []
    {
      this.db := db;
      batchRunning, logs := false, [];
    }

    /** `_reconcileRecord`; the result says whether it counts as an update. */
    method ReconcileLocal(r: HcmRecord) returns (updated: bool)
      modifies db`balances
      ensures db.balances == ReconcileOne(old(db.balances), r)
      ensures updated <==> Drifted(old(db.balances), r)
      ensures updated <==> NewOrOff(old(db.balances), r)
    {
      if r.key !in db.balances {
        db.balances := db.balances[r.key := NewBalance(r.total, VersionOrNull(r.version))];
        return true;
      }
      var local := db.balances[r.key];
      var localTotal := local.used + local.pending + local.available;
      var drift := r.total - localTotal;
      var synced := local.(hcmTotal := r.total, hcmVersion := VersionOrNull(r.version));
      if Abs(drift) <= DRIFT_TOLERANCE {
        db.balances := db.balances[r.key := synced.(hasDiscrepancy := false, discrepancyAmount := None)];
        return false;
      }
      if drift > DRIFT_TOLERANCE {
        var newAvailable := local.available + drift;
        db.balances := db.balances[r.key := synced.(total := r.total, available := newAvailable,
                                                    hasDiscrepancy := false, discrepancyAmount := None)];
        return true;
      }
      db.balances := db.balances[r.key := synced.(hasDiscrepancy := true, discrepancyAmount := Some(Abs(drift)))];
      return true;
    }

    /** The loop over the snapshot. */
    method ReconcileSnapshot(snapshot: seq<HcmRecord>, failing: set<nat>)
      returns (processed: nat, updated: nat, failed: nat, errors: seq<SyncError>)
      modifies db`balances
      ensures db.balances == ReconcileAll(old(db.balances), Surviving(snapshot, failing))
      ensures processed == |snapshot| && failed == |errors| && errors == RecordErrors(snapshot, failing)
      ensures updated == Updates(old(db.balances), snapshot, failing) && updated + failed <= processed
    {
      processed, updated, failed, errors := 0, 0, 0, [];
      for i := 0 to |snapshot|
        invariant db.balances == ReconcileAll(old(db.balances), Surviving(snapshot[..i], failing))
        invariant processed == i && failed == |errors| && errors == RecordErrors(snapshot[..i], failing)
        invariant updated + failed <= i
        invariant updated == Updates(old(db.balances), snapshot[..i], failing)
      {
        processed := processed + 1;
        SnapshotStep(old(db.balances), snapshot, failing, i);
        if i in failing {
          failed := failed + 1;
          errors := errors + [RecordFailed(snapshot[i].key)];
        } else {
          var changed := ReconcileLocal(snapshot[i]);
          if changed { updated := updated + 1; }
        }
      }
      assert snapshot[..|snapshot|] == snapshot;
    }

    /** The loop over the local table, listed as `rows`; `broken` makes the update after that many throw. */
    method FlagOmitted(rows: seq<BalanceKey>, mentioned: set<string>, broken: Option<nat>)
      returns (count: nat, errors: seq<SyncError>, threw: bool)
      requires Lists(rows, db.balances)
      modifies db`balances
      ensures threw <==> broken.Some? && broken.value < |OmittedRows(rows, mentioned)|
      ensures count == |errors| == if threw then broken.value + 1 else |OmittedRows(rows, mentioned)|
      ensures errors == Reports(OmittedRows(rows, mentioned)[..count])
      ensures db.balances == FlagSet(old(db.balances), FlaggedBefore(rows, mentioned, broken))
    {
      ghost var before := db.balances;
      FlaggingStarts(before, rows, mentioned);
      var throwsAt := if broken.Some? then broken.value as int else -1;
      count, errors := 0, [];
      for i := 0 to |rows|
        invariant FlaggedSoFar(before, rows, mentioned, i, db.balances, count, errors)
        invariant throwsAt < 0 || count <= throwsAt
      {
        var local := rows[i];
        if JoinedKey(local) in mentioned {
          FlaggingSkips(before, rows, mentioned, i, db.balances, count, errors);
        } else {
          assert local in Elements(rows);
          FlaggingAdds(before, rows, mentioned, i, db.balances, count, errors);
          count := count + 1;
          errors := errors + [MissingFromSnapshot(local)];
          if count - 1 == throwsAt {
            ThrowsHere(rows, mentioned, i, OmittedRows(rows[..i], mentioned));
            return count, errors, true;
          }
          db.balances := db.balances[local := Flagged(db.balances[local])];
        }
      }
      FlaggingEnds(before, rows, mentioned, db.balances, count, errors);
      threw := false;
    }

    /** The whole job. `answer` is None for null or a non-array; `rows` lists the local table after the first
        loop. A skipped run returns None. */
    method RunBatchSync(answer: Option<seq<HcmRecord>>, failing: set<nat>, broken: Option<nat>, rows: seq<BalanceKey>)
      returns (log: Option<SyncLog>)
      requires answer.Some? ==> Lists(rows, ReconcileAll(db.balances, Surviving(answer.value, failing)))
      modifies this, db`balances
      ensures old(batchRunning) ==> log == None && batchRunning && logs == old(logs) && db.balances == old(db.balances)
      ensures !old(batchRunning) ==> log.Some? && !batchRunning && logs == old(logs) + [log.value]
      ensures !old(batchRunning) && answer.None? ==>
                log.value == SyncLog(LogFailed, 0, 0, 0, [RunFailed]) && db.balances == old(db.balances)
      ensures !old(batchRunning) && answer.Some? && ReachesEnd(old(db.balances), answer.value, failing, broken) ==>
                && db.balances == AfterBatch(old(db.balances), answer.value, failing)
                && Accounted(log.value, old(db.balances), answer.value, failing, rows)
      ensures !old(batchRunning) && answer.Some? && !ReachesEnd(old(db.balances), answer.value, failing, broken) ==>
                && db.balances == FlagSet(ReconcileAll(old(db.balances), Surviving(answer.value, failing)),
                                          FlaggedBefore(rows, JoinedKeys(answer.value), broken))
                && CutShort(log.value, old(db.balances), answer.value, failing, broken)
    {
      if batchRunning {
        return None;
      }
      batchRunning := true;
      if answer.None? {
        log := Some(SyncLog(LogFailed, 0, 0, 0, [RunFailed]));
      } else {
        var snapshot := answer.value;
        var processed, updated, failed, errors := ReconcileSnapshot(snapshot, failing);
        OmittedRowsAreOmitted(rows, db.balances, JoinedKeys(snapshot));
        var missing, missingErrors, threw := FlagOmitted(rows, JoinedKeys(snapshot), broken);
        processed, failed := processed + missing, failed + missing;
        errors := errors + missingErrors;
        if threw {
          log := Some(SyncLog(LogFailed, processed, updated, failed, [RunFailed]));
        } else {
          assert OmittedRows(rows, JoinedKeys(snapshot))[..missing] == OmittedRows(rows, JoinedKeys(snapshot));
          log := Some(SyncLog(FinalStatus(processed, failed), processed, updated, failed, errors));
        }
      }
      logs := logs + [log.value];
      batchRunning := false;
    }

    /** The retry job. */
    method RetryPendingHcmSyncs(replies: RetryWorker.Replies)
      modifies db`requests
      ensures db.requests == RetryWorker.RunOnce(old(db.requests), replies)
    {
      var pendingRequests := RetryWorker.Selected(db.requests);
      ghost var rs := db.requests;
      for n := 0 to |pendingRequests|
        invariant |db.requests| == |rs|
        invariant RetryWorker.Process(rs, pendingRequests, replies)
               == RetryWorker.Process(db.requests, pendingRequests[n..], replies)
      {
        var i := pendingRequests[n];
        var request := db.requests[i];
        var reply := replies(i);
        assert pendingRequests[n..][1..] == pendingRequests[n + 1..];
        if request.syncAttempts >= RetryWorker.MAX_PENDING_SYNC_RETRIES {
          db.requests := db.requests[i := request.(syncStatus := SyncFailed)];
        } else if request.status == Rejected || request.status == Cancelled {
          db.requests := db.requests[i := RetryWorker.Attempted(request, SyncSkipped, request.hcmValidated)];
        } else if request.status == Pending {
          db.requests := db.requests[i := RetryWorker.RetryValidationOnly(request, reply.validation)];
        } else {
          db.requests := db.requests[i := RetryWorker.RetryApprovalFlow(request, reply.validation, reply.approval)];
        }
      }
    }
  }
}
