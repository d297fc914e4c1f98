/** Ranges of day numbers, as plain sets of days. */
module DayRanges {

  predicate Within(n: int, lo: int, hi: int) {
    lo <= n <= hi
  }

  /** The days from `lo` to `hi`, both included. (The bounds come twice: once to show that the set
      is finite, once as a term for the solver.) */
  function DaysIn(lo: int, hi: int): set<int> {
    set n | lo <= n <= hi && Within(n, lo, hi)
  }

  lemma {:induction false} DaysInSize(lo: int, hi: int)
    ensures |DaysIn(lo, hi)| == if lo <= hi then hi - lo + 1 else 0
    decreases hi - lo + 1
  {
    if lo <= hi {
      DaysInSize(lo, hi - 1);
      assert DaysIn(lo, hi) == DaysIn(lo, hi - 1) + {hi};
    } else {
      assert DaysIn(lo, hi) == {};
    }
  }

  lemma RangesMeet(s1: int, e1: int, s2: int, e2: int)
    requires s1 <= e1 && s2 <= e2
    ensures (s1 <= e2 && s2 <= e1) <==> DaysIn(s1, e1) * DaysIn(s2, e2) != {}
  {
    if s1 <= e2 && s2 <= e1 {
      var d := if s1 <= s2 then s2 else s1;
      assert d in DaysIn(s1, e1) * DaysIn(s2, e2);
    }
  }

  const WEEKEND: set<int> := {0, 6}

  /** `getUTCDay`: day 0 was a Thursday. */
  function Weekday(n: int): int {
    (n + 4) % 7
  }

  predicate IsWorkingDay(n: int, weekend: set<int>, off: set<int>) {
    Weekday(n) !in weekend && n !in off
  }

  function WorkingDaysIn(lo: int, hi: int, weekend: set<int>, off: set<int>): set<int> {
    set n | n in DaysIn(lo, hi) && IsWorkingDay(n, weekend, off)
  }

  function WorkUnit(n: int, weekend: set<int>, off: set<int>): int {
    if IsWorkingDay(n, weekend, off) then 1 else 0
  }

  lemma NoWorkingDays(lo: int, hi: int, weekend: set<int>, off: set<int>)
    requires hi < lo
    ensures WorkingDaysIn(lo, hi, weekend, off) == {}
  {
  }

  /** Extending a range by its next day adds that day's own worth. */
  lemma WorkingDaysExtend(lo: int, hi: int, weekend: set<int>, off: set<int>)
    requires lo <= hi
    ensures |WorkingDaysIn(lo, hi, weekend, off)|
            == |WorkingDaysIn(lo, hi - 1, weekend, off)| + WorkUnit(hi, weekend, off)
  {
    var before := WorkingDaysIn(lo, hi - 1, weekend, off);
    if IsWorkingDay(hi, weekend, off) {
      assert WorkingDaysIn(lo, hi, weekend, off) == before + {hi};
    } else {
      assert WorkingDaysIn(lo, hi, weekend, off) == before;
    }
  }

  /** Working days add up over adjacent ranges. */
  lemma WorkingDaysAdditive(lo: int, mid: int, hi: int, weekend: set<int>, off: set<int>)
    requires lo <= mid + 1 && mid <= hi
    ensures |WorkingDaysIn(lo, hi, weekend, off)|
            == |WorkingDaysIn(lo, mid, weekend, off)| + |WorkingDaysIn(mid + 1, hi, weekend, off)|
  {
    var left := WorkingDaysIn(lo, mid, weekend, off);
    var right := WorkingDaysIn(mid + 1, hi, weekend, off);
    assert WorkingDaysIn(lo, hi, weekend, off) == left + right;
    assert left * right == {};
  }

  lemma WorkUnitByWeekday(n: int)
    ensures 0 <= Weekday(n) <= 6
    ensures Weekday(n + 1) == if Weekday(n) == 6 then 0 else Weekday(n) + 1
    ensures WorkUnit(n, WEEKEND, {}) == if Weekday(n) == 0 || Weekday(n) == 6 then 0 else 1
  {
  }

  /** Any seven consecutive days hold five working days, wherever they start. */
  lemma WeekHasFive(lo: int)
    ensures |WorkingDaysIn(lo, lo + 6, WEEKEND, {})| == 5
  {
    NoWorkingDays(lo, lo - 1, WEEKEND, {});
    forall n | lo <= n <= lo + 6
      ensures |WorkingDaysIn(lo, n, WEEKEND, {})| == |WorkingDaysIn(lo, n - 1, WEEKEND, {})| + WorkUnit(n, WEEKEND, {})
    {
      WorkingDaysExtend(lo, n, WEEKEND, {});
    }
    WorkUnitByWeekday(lo); WorkUnitByWeekday(lo + 1); WorkUnitByWeekday(lo + 2); WorkUnitByWeekday(lo + 3);
    WorkUnitByWeekday(lo + 4); WorkUnitByWeekday(lo + 5); WorkUnitByWeekday(lo + 6);
  }

  lemma {:induction false} WholeWeeks(lo: int, k: nat)
    ensures |WorkingDaysIn(lo, lo + 7 * k - 1, WEEKEND, {})| == 5 * k
  {
    if k == 0 {
      NoWorkingDays(lo, lo - 1, WEEKEND, {});
    } else {
      var mid := lo + 7 * (k - 1) - 1;
      WholeWeeks(lo, k - 1);
      WeekHasFive(mid + 1);
      WorkingDaysAdditive(lo, mid, mid + 7, WEEKEND, {});
    }
  }
}
