/** Civil dates as day numbers, and the range arithmetic built on them:
    src/common/utils/date.util.js and src/common/utils/date-range-validator.util.js.
    Day numbers follow section 21.4.1 of ECMA-262; day 0 is 1970-01-01. */
module Dates {
  import opened Collections
  import opened DayRanges

  const MS_PER_DAY: int := 1000 * 60 * 60 * 24

  datatype Civil = Civil(year: int, month: int, day: int)

  predicate IsLeap(y: int) {
    y % 4 == 0 && (y % 100 != 0 || y % 400 == 0)
  }

  function DayFromYear(y: int): int {
    365 * (y - 1970) + (y - 1969) / 4 - (y - 1901) / 100 + (y - 1601) / 400
  }

  /** Days of the year that precede the first of month `m`. */
  function DaysBefore(m: int, leap: bool): int {
    var l := if leap then 1 else 0;
    if m <= 1 then 0
    else if m == 2 then 31
    else if m == 3 then 59 + l
    else if m == 4 then 90 + l
    else if m == 5 then 120 + l
    else if m == 6 then 151 + l
    else if m == 7 then 181 + l
    else if m == 8 then 212 + l
    else if m == 9 then 243 + l
    else if m == 10 then 273 + l
    else if m == 11 then 304 + l
    else if m == 12 then 334 + l
    else 365 + l
  }

  predicate ValidDate(c: Civil) {
    && c.year >= 100
    && 1 <= c.month <= 12
    && 1 <= c.day <= DaysBefore(c.month + 1, IsLeap(c.year)) - DaysBefore(c.month, IsLeap(c.year))
  }

  /** `Date.UTC(y, m - 1, d)` in days. As in the source language, `day` may run past the month. */
  function DayNumber(c: Civil): int {
    DayFromYear(c.year) + DaysBefore(c.month, IsLeap(c.year)) + c.day - 1
  }

  function Utc(c: Civil): int {
    DayNumber(c) * MS_PER_DAY
  }

  lemma FourYears(y: int)
    ensures (y - 1968) / 4 - (y - 1969) / 4 == if y % 4 == 0 then 1 else 0
  {
  }

  lemma HundredYears(y: int)
    ensures (y - 1900) / 100 - (y - 1901) / 100 == if y % 100 == 0 then 1 else 0
  {
  }

  lemma FourHundredYears(y: int)
    ensures (y - 1600) / 400 - (y - 1601) / 400 == if y % 400 == 0 then 1 else 0
  {
  }

  lemma CenturiesDivide(y: int)
    ensures y % 400 == 0 ==> y % 100 == 0
    ensures y % 100 == 0 ==> y % 4 == 0
  {
  }

  lemma YearLength(y: int)
    ensures IsLeap(y) <==> (y % 4 == 0 && y % 100 != 0) || y % 400 == 0
    ensures DayFromYear(y + 1) - DayFromYear(y) == if IsLeap(y) then 366 else 365
  {
    FourYears(y);
    HundredYears(y);
    FourHundredYears(y);
    CenturiesDivide(y);
  }

  /** The calendar itself: how long the months are, and where the count of days begins. With the lengths of the
      years this fixes the number of every date; 1970-01-01 is day 0, a Thursday. */
  lemma MonthLengths(m: int, leap: bool)
    requires 1 <= m <= 12
    ensures DaysBefore(1, leap) == 0
    ensures DaysBefore(m + 1, leap) - DaysBefore(m, leap)
            == if m == 2 then (if leap then 29 else 28) else if m in {4, 6, 9, 11} then 30 else 31
  {
  }

  lemma EpochYear()
    ensures DayFromYear(1970) == 0
  {
  }

  lemma Epoch()
    ensures DayNumber(Civil(1970, 1, 1)) == 0
  {
    EpochYear();
    YearBegins(1970);
  }

  lemma EpochIsThursday(n: int)
    ensures Weekday(0) == 4
    ensures Weekday(n + 1) == if Weekday(n) == 6 then 0 else Weekday(n) + 1
  {
  }

  lemma YearBegins(y: int)
    ensures DayNumber(Civil(y, 1, 1)) == DayFromYear(y)
  {
  }

  lemma KnownDays()
    ensures DayNumber(Civil(2000, 2, 29)) == 11016 && Weekday(11016) == 2
    ensures DayNumber(Civil(2100, 3, 1)) == 47541
  {
    assert DayFromYear(2000) == 10957;
    assert DayFromYear(2100) == 47482;
  }

  lemma {:induction false} YearsMonotone(y: int, z: int)
    requires y <= z
    ensures DayFromYear(z) - DayFromYear(y) >= 365 * (z - y)
    decreases z - y
  {
    if y < z {
      YearLength(z - 1);
      YearsMonotone(y, z - 1);
    }
  }

  lemma YearsGrow(y: int)
    ensures DayFromYear(y) < DayFromYear(y + 1)
  {
    YearLength(y);
  }

  /** The calendar year that contains day `n`, found by walking from a guess. */
  function YearOf(n: int, guess: int): (y: int)
    ensures DayFromYear(y) <= n < DayFromYear(y + 1)
    decreases if n < DayFromYear(guess) then DayFromYear(guess) - n else n - DayFromYear(guess)
  {
    YearsGrow(guess - 1);
    YearsGrow(guess);
    if n < DayFromYear(guess) then
      if DayFromYear(guess - 1) <= n then guess - 1 else YearOf(n, guess - 1)
    else if n < DayFromYear(guess + 1) then guess
    else YearOf(n, guess + 1)
  }

  function MonthOf(offset: int, leap: bool): (m: int)
    requires 0 <= offset < DaysBefore(13, leap)
    ensures 1 <= m <= 12 && DaysBefore(m, leap) <= offset < DaysBefore(m + 1, leap)
  {
    if offset < DaysBefore(2, leap) then 1
    else if offset < DaysBefore(3, leap) then 2
    else if offset < DaysBefore(4, leap) then 3
    else if offset < DaysBefore(5, leap) then 4
    else if offset < DaysBefore(6, leap) then 5
    else if offset < DaysBefore(7, leap) then 6
    else if offset < DaysBefore(8, leap) then 7
    else if offset < DaysBefore(9, leap) then 8
    else if offset < DaysBefore(10, leap) then 9
    else if offset < DaysBefore(11, leap) then 10
    else if offset < DaysBefore(12, leap) then 11
    else 12
  }

  /** The UTC calendar fields of day `n`: what `toISOString().slice(0, 10)` spells out. */
  function FromDay(n: int): Civil {
    var y := YearOf(n, 1970);
    YearLength(y);
    var off := n - DayFromYear(y);
    var m := MonthOf(off, IsLeap(y));
    Civil(y, m, off - DaysBefore(m, IsLeap(y)) + 1)
  }

  lemma DayRoundTrip(n: int)
    ensures DayNumber(FromDay(n)) == n
    ensures FromDay(n).year >= 100 ==> ValidDate(FromDay(n))
  {
    YearLength(YearOf(n, 1970));
  }

  lemma MonthStep(m: int, m': int, leap: bool)
    requires 1 <= m < m' <= 13
    ensures DaysBefore(m + 1, leap) <= DaysBefore(m', leap)
  {
  }

  lemma YearUnique(n: int, y: int, z: int)
    requires DayFromYear(y) <= n < DayFromYear(y + 1)
    requires DayFromYear(z) <= n < DayFromYear(z + 1)
    ensures y == z
  {
    if y < z {
      YearsMonotone(y + 1, z);
    } else if z < y {
      YearsMonotone(z + 1, y);
    }
  }

  lemma MonthUnique(offset: int, m: int, m': int, leap: bool)
    requires 1 <= m <= 12 && DaysBefore(m, leap) <= offset < DaysBefore(m + 1, leap)
    requires 1 <= m' <= 12 && DaysBefore(m', leap) <= offset < DaysBefore(m' + 1, leap)
    ensures m == m'
  {
    if m < m' {
      MonthStep(m, m', leap);
    } else if m' < m {
      MonthStep(m', m, leap);
    }
  }

  lemma WithinYear(c: Civil)
    requires ValidDate(c)
    ensures DayFromYear(c.year) <= DayNumber(c) < DayFromYear(c.year + 1)
  {
    YearLength(c.year);
    MonthStep(c.month, 13, IsLeap(c.year));
  }

  lemma MonthIs(offset: int, m: int, leap: bool)
    requires 1 <= m <= 12 && DaysBefore(m, leap) <= offset < DaysBefore(m + 1, leap)
    ensures 0 <= offset < DaysBefore(13, leap) && MonthOf(offset, leap) == m
  {
    FirstOfMonth(m, leap);
    MonthUnique(offset, m, MonthOf(offset, leap), leap);
  }

  lemma FirstOfMonth(m: int, leap: bool)
    requires 1 <= m <= 12
    ensures 0 <= DaysBefore(m, leap) && DaysBefore(m + 1, leap) <= DaysBefore(13, leap)
  {
  }

  /** Whatever year and month a day falls in are the ones `FromDay` finds. */
  lemma FromDayFinds(n: int, y: int, m: int)
    requires DayFromYear(y) <= n < DayFromYear(y + 1)
    requires 1 <= m <= 12 && DaysBefore(m, IsLeap(y)) <= n - DayFromYear(y) < DaysBefore(m + 1, IsLeap(y))
    ensures FromDay(n) == Civil(y, m, n - DayFromYear(y) - DaysBefore(m, IsLeap(y)) + 1)
  {
    YearUnique(n, y, YearOf(n, 1970));
    MonthIs(n - DayFromYear(y), m, IsLeap(y));
  }

  /** Calendar date to day number and back loses nothing, so distinct dates have distinct numbers. */
  lemma CivilRoundTrip(c: Civil)
    requires ValidDate(c)
    ensures FromDay(DayNumber(c)) == c
  {
    WithinYear(c);
    FromDayFinds(DayNumber(c), c.year, c.month);
  }

  /** `Number` on a string of digits. */
  function Digits(s: string): int
    decreases |s|
  {
    if s == [] then 0 else 10 * Digits(s[..|s| - 1]) + (s[|s| - 1] as int - '0' as int)
  }

  /** `split('-').map(Number)` on YYYY-MM-DD; other texts are not part of this model. */
  function ParseDate(s: string): Civil {
    if |s| == 10 then Civil(Digits(s[..4]), Digits(s[5..7]), Digits(s[8..])) else Civil(0, 0, 0)
  }

  function Digit(n: int): char
    requires 0 <= n <= 9
  {
    '0' + n as char
  }

  function TwoDigits(n: int): string
    requires 0 <= n <= 99
  {
    [Digit(n / 10), Digit(n % 10)]
  }

  /** `toISOString().slice(0, 10)` for years of four digits. */
  function IsoText(c: Civil): string
    requires 0 <= c.year <= 9999 && 0 <= c.month <= 99 && 0 <= c.day <= 99
  {
    TwoDigits(c.year / 100) + TwoDigits(c.year % 100) + "-" + TwoDigits(c.month) + "-" + TwoDigits(c.day)
  }

  lemma OneMoreDigit(a: string, n: int)
    requires 0 <= n <= 9
    ensures Digits(a + [Digit(n)]) == 10 * Digits(a) + n
  {
    assert (a + [Digit(n)])[..|a|] == a;
  }

  lemma TwoMoreDigits(a: string, n: int)
    requires 0 <= n <= 99
    ensures Digits(a + TwoDigits(n)) == 100 * Digits(a) + n
  {
    OneMoreDigit(a, n / 10);
    OneMoreDigit(a + [Digit(n / 10)], n % 10);
    assert a + TwoDigits(n) == a + [Digit(n / 10)] + [Digit(n % 10)];
  }

  lemma TwoDigitsRead(n: int)
    requires 0 <= n <= 99
    ensures Digits(TwoDigits(n)) == n
  {
    TwoMoreDigits([], n);
    assert [] + TwoDigits(n) == TwoDigits(n);
  }

  /** A date written as YYYY-MM-DD is read back as that date. */
  lemma DateTextRoundTrip(c: Civil)
    requires 0 <= c.year <= 9999 && 0 <= c.month <= 99 && 0 <= c.day <= 99
    ensures ParseDate(IsoText(c)) == c
  {
    var s := IsoText(c);
    assert s[..4] == TwoDigits(c.year / 100) + TwoDigits(c.year % 100);
    assert s[5..7] == TwoDigits(c.month) && s[8..] == TwoDigits(c.day);
    TwoMoreDigits(TwoDigits(c.year / 100), c.year % 100);
    TwoDigitsRead(c.year / 100);
    TwoDigitsRead(c.month);
    TwoDigitsRead(c.day);
  }

  /** `setUTCDate(getUTCDate() + 1)` recomputes the time value from the calendar fields with the
      day bumped, possibly past the end of its month. */
  function NextDay(n: int): int {
    var c := FromDay(n);
    DayNumber(c.(day := c.day + 1))
  }

  lemma NextDayIsSuccessor(n: int)
    ensures NextDay(n) == n + 1
  {
    DayRoundTrip(n);
  }

  // ---- Ranges --------------------------------------------------------------------------------

  function CalculateDaysRequested(startDate: Civil, endDate: Civil): nat {
    var diffMs := Utc(endDate) - Utc(startDate);
    var days := diffMs / MS_PER_DAY + 1;
    if days > 1 then days else 1
  }

  lemma MsQuotient(d: int)
    ensures d * MS_PER_DAY / MS_PER_DAY == d
  {
  }

  /** The stored day count is the number of calendar days in the range; a reversed range counts 1. */
  lemma DaysRequestedCountsDays(startDate: Civil, endDate: Civil)
    ensures DayNumber(startDate) <= DayNumber(endDate) ==>
              CalculateDaysRequested(startDate, endDate)
              == |DaysIn(DayNumber(startDate), DayNumber(endDate))|
              == DayNumber(endDate) - DayNumber(startDate) + 1
    ensures DayNumber(startDate) > DayNumber(endDate) ==> CalculateDaysRequested(startDate, endDate) == 1
  {
    var s, e := DayNumber(startDate), DayNumber(endDate);
    assert Utc(endDate) - Utc(startDate) == (e - s) * MS_PER_DAY;
    MsQuotient(e - s);
    DaysInSize(s, e);
  }

  lemma UtcOrder(a: Civil, b: Civil)
    ensures Utc(a) <= Utc(b) <==> DayNumber(a) <= DayNumber(b)
  {
    MsOrder(DayNumber(a), DayNumber(b));
  }

  lemma MsOrder(m: int, n: int)
    ensures m * MS_PER_DAY <= n * MS_PER_DAY <==> m <= n
  {
  }

  predicate IsNotInPast(date: Civil, nowMs: int) {
    Utc(date) >= Utc(FromDay(nowMs / MS_PER_DAY))
  }

  lemma NotInPastMeansTodayOrLater(date: Civil, nowMs: int)
    ensures IsNotInPast(date, nowMs) <==> DayNumber(date) >= nowMs / 86400000
  {
    DayRoundTrip(nowMs / MS_PER_DAY);
    UtcOrder(FromDay(nowMs / MS_PER_DAY), date);
  }

  predicate DatesOverlap(start1: Civil, end1: Civil, start2: Civil, end2: Civil) {
    Utc(start1) <= Utc(end2) && Utc(start2) <= Utc(end1)
  }

  /** The two-comparison test is exact on ranges that contain a day: it holds just when some day
      lies in both. */
  lemma OverlapIffSharedDay(start1: Civil, end1: Civil, start2: Civil, end2: Civil)
    requires DayNumber(start1) <= DayNumber(end1) && DayNumber(start2) <= DayNumber(end2)
    ensures DatesOverlap(start1, end1, start2, end2) <==>
            DaysIn(DayNumber(start1), DayNumber(end1)) * DaysIn(DayNumber(start2), DayNumber(end2)) != {}
  {
    UtcOrder(start1, end2);
    UtcOrder(start2, end1);
    RangesMeet(DayNumber(start1), DayNumber(end1), DayNumber(start2), DayNumber(end2));
  }

  // ---- Working days --------------------------------------------------------------------------

  /** The days a list of ISO holiday strings stands for; a string that is no date never matches. */
  function HolidayDays(holidays: set<Civil>): set<int> {
    set h | h in holidays && ValidDate(h) :: DayNumber(h)
  }

  lemma HolidayMatch(n: int, holidays: set<Civil>)
    requires DayFromYear(100) <= n
    ensures FromDay(n) in holidays <==> n in HolidayDays(holidays)
  {
    DayRoundTrip(n);
    if FromDay(n).year < 100 {
      YearsMonotone(FromDay(n).year + 1, 100);
    }
    forall h | h in holidays && ValidDate(h) && DayNumber(h) == n
      ensures h == FromDay(n)
    {
      CivilRoundTrip(h);
    }
  }

  lemma ValidDatesStart(c: Civil)
    requires ValidDate(c)
    ensures DayFromYear(100) <= DayNumber(c)
  {
    WithinYear(c);
    YearsMonotone(100, c.year);
  }

  /** `holidaySet.has(current.toISOString().slice(0, 10))`. */
  method IsHoliday(n: int, holidaySet: set<Civil>) returns (holiday: bool)
    requires DayFromYear(100) <= n
    ensures holiday <==> n in HolidayDays(holidaySet)
  {
    HolidayMatch(n, holidaySet);
    holiday := FromDay(n) in holidaySet;
  }

  /** `current.setUTCDate(current.getUTCDate() + 1)`. */
  method StepDay(n: int) returns (next: int)
    ensures next == n + 1
  {
    NextDayIsSuccessor(n);
    next := NextDay(n);
  }

  method CalculateWorkingDays(startDate: Civil, endDate: Civil, weekendDays: seq<int>, holidays: seq<Civil>)
    returns (workingDays: nat)
    requires ValidDate(startDate)
    ensures workingDays == |WorkingDaysIn(DayNumber(startDate), DayNumber(endDate), Elements(weekendDays),
                                          HolidayDays(Elements(holidays)))|
  {
    var holidaySet := Elements(holidays);
    ValidDatesStart(startDate);
    workingDays := WorkingDaysLoop(DayNumber(startDate), DayNumber(endDate), weekendDays, holidaySet);
  }

  method WorkingDaysLoop(start: int, end: int, weekendDays: seq<int>, holidaySet: set<Civil>) returns (workingDays: nat)
    requires DayFromYear(100) <= start
    ensures workingDays == |WorkingDaysIn(start, end, Elements(weekendDays), HolidayDays(holidaySet))|
  {
    ghost var weekend, off := Elements(weekendDays), HolidayDays(holidaySet);
    var current := start;
    workingDays := 0;
    NoWorkingDays(start, start - 1, weekend, off);
    while current <= end
      invariant start <= current && (current <= end + 1 || current == start)
      invariant workingDays == |WorkingDaysIn(start, current - 1, weekend, off)|
      decreases end - current
    {
      var dayOfWeek := Weekday(current);
      var holiday := IsHoliday(current, holidaySet);
      WorkingDaysExtend(start, current, weekend, off);
      if dayOfWeek !in weekendDays && !holiday {
        workingDays := workingDays + 1;
      }
      current := StepDay(current);
    }
    if end < start { NoWorkingDays(start, end, weekend, off); }
  }

  /** `DateRangeValidator.countBusinessDays`, on date-only strings (midnight UTC): the same count,
      for the default weekend. */
  method CountBusinessDays(startDate: Civil, endDate: Civil, holidays: seq<Civil>) returns (count: nat)
    requires ValidDate(startDate) && forall h :: h in holidays ==> ValidDate(h)
    ensures count == |WorkingDaysIn(DayNumber(startDate), DayNumber(endDate), WEEKEND,
                                    HolidayDays(Elements(holidays)))|
  {
    ValidDatesStart(startDate);
    count := BusinessDaysLoop(DayNumber(startDate), DayNumber(endDate), Elements(holidays));
  }

  method BusinessDaysLoop(start: int, end: int, holidaySet: set<Civil>) returns (count: nat)
    requires DayFromYear(100) <= start
    ensures count == |WorkingDaysIn(start, end, WEEKEND, HolidayDays(holidaySet))|
  {
    ghost var off := HolidayDays(holidaySet);
    var current := start;
    if current > end {
      NoWorkingDays(start, end, WEEKEND, off);
      return 0;
    }
    count := 0;
    NoWorkingDays(start, start - 1, WEEKEND, off);
    while current <= end
      invariant start <= current <= end + 1
      invariant count == |WorkingDaysIn(start, current - 1, WEEKEND, off)|
      decreases end - current
    {
      var day := Weekday(current);
      var holiday := IsHoliday(current, holidaySet);
      WorkingDaysExtend(start, current, WEEKEND, off);
      if day != 0 && day != 6 && !holiday {
        count := count + 1;
      }
      current := StepDay(current);
    }
  }

  /** A range never has more working days than the days a request for it is charged. */
  lemma WorkingDaysWithinDaysRequested(startDate: Civil, endDate: Civil, weekend: set<int>, off: set<int>)
    ensures |WorkingDaysIn(DayNumber(startDate), DayNumber(endDate), weekend, off)|
            <= CalculateDaysRequested(startDate, endDate)
  {
    var s, e := DayNumber(startDate), DayNumber(endDate);
    DaysRequestedCountsDays(startDate, endDate);
    SubsetSize(WorkingDaysIn(s, e, weekend, off), DaysIn(s, e));
  }
}
