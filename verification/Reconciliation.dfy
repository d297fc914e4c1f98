/** The nightly reconciliation as a fold over the HCM snapshot: `_reconcileRecord` in the loop of
    src/modules/hcm/hcm-sync.service.js, and the real-time variant of the balance service. */
module Reconciliation {
  import opened Wrappers
  import opened Ledger

  datatype HcmRecord = HcmRecord(key: BalanceKey, total: real, version: Option<string>)

  function ReconcileOne(bs: Balances, r: HcmRecord): Balances {
    ReconcileRecord(bs, r.key, r.total, r.version)
  }

  function ReconcileAll(bs: Balances, snapshot: seq<HcmRecord>): Balances
    decreases |snapshot|
  {
    if snapshot == [] then bs
    else ReconcileOne(ReconcileAll(bs, snapshot[..|snapshot| - 1]), snapshot[|snapshot| - 1])
  }

  /** The records of one key, in snapshot order. */
  function RecordsOf(snapshot: seq<HcmRecord>, k: BalanceKey): (rs: seq<HcmRecord>)
    ensures forall i :: 0 <= i < |rs| ==> rs[i].key == k
    decreases |snapshot|
  {
    if snapshot == [] then []
    else
      var last := snapshot[|snapshot| - 1];
      RecordsOf(snapshot[..|snapshot| - 1], k) + (if last.key == k then [last] else [])
  }

  /** What a key's own records do to its balance. */
  function FoldKey(local: Option<Balance>, rs: seq<HcmRecord>): Option<Balance>
    decreases |rs|
  {
    if rs == [] then local
    else
      var last := rs[|rs| - 1];
      Some(Reconciled(FoldKey(local, rs[..|rs| - 1]), last.total, last.version))
  }

  /** The fold splits by key: no record affects any balance but its own. */
  lemma {:induction false} KeysAreIndependent(bs: Balances, snapshot: seq<HcmRecord>, k: BalanceKey)
    ensures Lookup(ReconcileAll(bs, snapshot), k) == FoldKey(Lookup(bs, k), RecordsOf(snapshot, k))
    decreases |snapshot|
  {
    if snapshot != [] {
      var n := |snapshot| - 1;
      KeysAreIndependent(bs, snapshot[..n], k);
      if snapshot[n].key == k {
        var rs := RecordsOf(snapshot, k);
        assert rs[..|rs| - 1] == RecordsOf(snapshot[..n], k);
      } else {
        assert RecordsOf(snapshot, k) == RecordsOf(snapshot[..n], k);
      }
    }
  }

  /** No record asks for more than the balance already holds, up to the tolerance. */
  predicate Saturated(b: Balance, rs: seq<HcmRecord>) {
    forall i :: 0 <= i < |rs| ==> rs[i].total - LocalTotal(b) <= DRIFT_TOLERANCE
  }

  predicate SameAmounts(a: Balance, b: Balance) {
    a.total == b.total && a.available == b.available && a.pending == b.pending && a.used == b.used
  }

  lemma {:induction false} FoldSaturates(local: Option<Balance>, rs: seq<HcmRecord>)
    requires rs != []
    ensures FoldKey(local, rs).Some? && Saturated(FoldKey(local, rs).value, rs)
    decreases |rs|
  {
    var n := |rs| - 1;
    if n > 0 {
      FoldSaturates(local, rs[..n]);
      forall i | 0 <= i < n
        ensures rs[i].total - LocalTotal(FoldKey(local, rs[..n]).value) <= DRIFT_TOLERANCE
      {
        assert rs[..n][i] == rs[i];
      }
    }
  }

  /** Records a balance already satisfies change no amount. */
  lemma {:induction false} SaturatedIsStable(b: Balance, rs: seq<HcmRecord>)
    requires Saturated(b, rs)
    ensures FoldKey(Some(b), rs).Some? && SameAmounts(FoldKey(Some(b), rs).value, b)
    decreases |rs|
  {
    if rs != [] {
      var n := |rs| - 1;
      assert Saturated(b, rs[..n]) by {
        forall i | 0 <= i < n ensures rs[..n][i].total - LocalTotal(b) <= DRIFT_TOLERANCE { assert rs[..n][i] == rs[i]; }
      }
      SaturatedIsStable(b, rs[..n]);
    }
  }

  lemma FoldTwice(local: Option<Balance>, rs: seq<HcmRecord>)
    ensures FoldKey(FoldKey(local, rs), rs) == FoldKey(local, rs)
  {
    if rs != [] {
      var n := |rs| - 1;
      FoldSaturates(local, rs);
      var b := FoldKey(local, rs).value;
      assert Saturated(b, rs[..n]) by {
        forall i | 0 <= i < n ensures rs[..n][i].total - LocalTotal(b) <= DRIFT_TOLERANCE { assert rs[..n][i] == rs[i]; }
      }
      SaturatedIsStable(b, rs[..n]);
      LastRecordDecides(FoldKey(local, rs[..n]), FoldKey(Some(b), rs[..n]).value, rs[n]);
    }
  }

  /** Reconciling a balance that has the amounts a record just produced reproduces that very balance. */
  lemma LastRecordDecides(before: Option<Balance>, b: Balance, r: HcmRecord)
    requires SameAmounts(b, Reconciled(before, r.total, r.version))
    ensures Reconciled(Some(b), r.total, r.version) == Reconciled(before, r.total, r.version)
  {
  }

  /** Reconciling the same snapshot twice is reconciling it once - amounts, totals, versions and discrepancy
      fields alike, and even when the snapshot names a key more than once. */
  lemma ReconcilingTwiceIsOnce(bs: Balances, snapshot: seq<HcmRecord>)
    ensures ReconcileAll(ReconcileAll(bs, snapshot), snapshot) == ReconcileAll(bs, snapshot)
  {
    var once := ReconcileAll(bs, snapshot);
    var twice := ReconcileAll(once, snapshot);
    forall k
      ensures Lookup(twice, k) == Lookup(once, k)
    {
      KeysAreIndependent(bs, snapshot, k);
      KeysAreIndependent(once, snapshot, k);
      FoldTwice(Lookup(bs, k), RecordsOf(snapshot, k));
    }
    SameLookups(twice, once);
  }

  lemma SameLookups(a: Balances, b: Balances)
    requires forall k :: Lookup(a, k) == Lookup(b, k)
    ensures a == b
  {
    forall k
      ensures k in a <==> k in b
      ensures k in a ==> a[k] == b[k]
    {
      assert Lookup(a, k) == Lookup(b, k);
    }
  }

  predicate DistinctKeys(snapshot: seq<HcmRecord>) {
    forall i, j :: 0 <= i < j < |snapshot| ==> snapshot[i].key != snapshot[j].key
  }

  lemma {:induction false} NoRecords(snapshot: seq<HcmRecord>, k: BalanceKey)
    requires forall i :: 0 <= i < |snapshot| ==> snapshot[i].key != k
    ensures RecordsOf(snapshot, k) == []
    decreases |snapshot|
  {
    if snapshot != [] {
      NoRecords(snapshot[..|snapshot| - 1], k);
    }
  }

  lemma {:induction false} TheOneRecord(snapshot: seq<HcmRecord>, i: nat)
    requires DistinctKeys(snapshot) && i < |snapshot|
    ensures RecordsOf(snapshot, snapshot[i].key) == [snapshot[i]]
    decreases |snapshot|
  {
    var n := |snapshot| - 1;
    if i == n {
      NoRecords(snapshot[..n], snapshot[i].key);
    } else {
      TheOneRecord(snapshot[..n], i);
    }
  }

  /** With distinct keys the order of the snapshot does not matter. */
  lemma OrderDoesNotMatter(bs: Balances, s1: seq<HcmRecord>, s2: seq<HcmRecord>)
    requires DistinctKeys(s1) && DistinctKeys(s2) && multiset(s1) == multiset(s2)
    ensures ReconcileAll(bs, s1) == ReconcileAll(bs, s2)
  {
    forall k
      ensures Lookup(ReconcileAll(bs, s1), k) == Lookup(ReconcileAll(bs, s2), k)
    {
      KeysAreIndependent(bs, s1, k);
      KeysAreIndependent(bs, s2, k);
      SameRecords(s1, s2, k);
    }
    SameLookups(ReconcileAll(bs, s1), ReconcileAll(bs, s2));
  }

  lemma SameRecords(s1: seq<HcmRecord>, s2: seq<HcmRecord>, k: BalanceKey)
    requires DistinctKeys(s1) && DistinctKeys(s2) && multiset(s1) == multiset(s2)
    ensures RecordsOf(s1, k) == RecordsOf(s2, k)
  {
    if i: nat :| i < |s1| && s1[i].key == k {
      assert s1[i] in multiset(s2);
      var j: nat :| j < |s2| && s2[j] == s1[i];
      TheOneRecord(s1, i);
      TheOneRecord(s2, j);
    } else {
      forall j | 0 <= j < |s2|
        ensures s2[j].key != k
      {
        assert s2[j] in multiset(s1);
      }
      NoRecords(s1, k);
      NoRecords(s2, k);
    }
  }

  lemma {:induction false} FoldNeverTakesAway(b: Balance, rs: seq<HcmRecord>)
    ensures FoldKey(Some(b), rs).Some?
    ensures var b' := FoldKey(Some(b), rs).value;
            b'.pending == b.pending && b'.used == b.used && b'.available >= b.available
    decreases |rs|
  {
    if rs != [] {
      FoldNeverTakesAway(b, rs[..|rs| - 1]);
    }
  }

  /** Whatever the snapshot, pending and used days never change, available never falls, and no record
      disappears. */
  lemma SnapshotNeverTakesAway(bs: Balances, snapshot: seq<HcmRecord>, k: BalanceKey)
    requires k in bs
    ensures k in ReconcileAll(bs, snapshot)
    ensures var b' := ReconcileAll(bs, snapshot)[k];
            b'.pending == bs[k].pending && b'.used == bs[k].used && b'.available >= bs[k].available
  {
    KeysAreIndependent(bs, snapshot, k);
    FoldNeverTakesAway(bs[k], RecordsOf(snapshot, k));
    assert Lookup(ReconcileAll(bs, snapshot), k).Some?;
  }

  /** Where one record leaves a balance: the local sum, the flag and the amount. */
  predicate Settles(local: Option<Balance>, r: HcmRecord, after: Balance) {
    && after.hcmTotal == r.total
    && after.hcmVersion == (if r.version == Some("") then None else r.version)
    && match local
       case None =>
         && after.total == after.available == r.total && after.pending == 0.0 && after.used == 0.0
         && !after.hasDiscrepancy && after.discrepancyAmount == None
       case Some(b) =>
         var sum := b.used + b.pending + b.available;
         var more, less := r.total - sum > 0.01, sum - r.total > 0.01;
         && after.used == b.used && after.pending == b.pending
         && after.used + after.pending + after.available == (if more then r.total else sum)
         && after.total == (if more then r.total else b.total)
         && (after.hasDiscrepancy <==> less)
         && after.discrepancyAmount == (if less then Some(sum - r.total) else None)
  }

  lemma ReconciledSettles(local: Option<Balance>, r: HcmRecord)
    ensures Settles(local, r, Reconciled(local, r.total, r.version))
  {
  }

  /** With distinct keys, each reconciled local sum ends as HCM's total if that exceeds it by more than the
      tolerance, and otherwise as it was; the record is flagged exactly when HCM's total falls
      short by more than the tolerance, with the shortfall as its amount. */
  lemma EachRecordSettles(bs: Balances, snapshot: seq<HcmRecord>, i: nat)
    requires DistinctKeys(snapshot) && i < |snapshot|
    ensures snapshot[i].key in ReconcileAll(bs, snapshot)
    ensures Settles(Lookup(bs, snapshot[i].key), snapshot[i], ReconcileAll(bs, snapshot)[snapshot[i].key])
  {
    var k := snapshot[i].key;
    KeysAreIndependent(bs, snapshot, k);
    TheOneRecord(snapshot, i);
    assert [snapshot[i]][..0] == [];
    ReconciledSettles(Lookup(bs, k), snapshot[i]);
    assert Lookup(ReconcileAll(bs, snapshot), k) == Some(Reconciled(Lookup(bs, k), snapshot[i].total, snapshot[i].version));
  }

  /** The real-time update follows the same policy with the finer tolerance of 0.001, never creates a record, and
      touches no other. */
  lemma RealTimeSettles(bs: Balances, k: BalanceKey, hcmTotal: real, version: Option<string>)
    requires k in bs
    ensures var after := ApplyHcmRealTimeUpdate(bs, k, hcmTotal, version);
            && after.Keys == bs.Keys && after - {k} == bs - {k}
            && ApplyHcmRealTimeUpdate(after, k, hcmTotal, version) == after
    ensures var b, b' := bs[k], ApplyHcmRealTimeUpdate(bs, k, hcmTotal, version)[k];
            var sum := b.used + b.pending + b.available;
            var more, less := hcmTotal - sum > 0.001, sum - hcmTotal > 0.001;
            && b'.pending == b.pending && b'.used == b.used && b'.available >= b.available
            && b'.used + b'.pending + b'.available == (if more then hcmTotal else sum)
            && b'.total == (if more then hcmTotal else b.total)
            && (b'.hasDiscrepancy <==> less)
            && b'.discrepancyAmount == (if less then Some(sum - hcmTotal) else None)
            && b'.hcmTotal == hcmTotal && b'.hcmVersion == (if version == Some("") then None else version)
  {
    var once := ApplyHcmRealTimeUpdate(bs, k, hcmTotal, version);
    var twice := ApplyHcmRealTimeUpdate(once, k, hcmTotal, version);
    assert twice[k] == once[k];
    assert twice == once;
  }

  lemma RealTimeNeedsARecord(bs: Balances, k: BalanceKey, hcmTotal: real, version: Option<string>)
    requires k !in bs
    ensures ApplyHcmRealTimeUpdate(bs, k, hcmTotal, version) == bs
  {
  }
}
