/** The proleptic Gregorian calendar, as day numbers and back. */
module Calendar {

  predicate IsLeap(year: int) {
    year % 4 == 0 && (year % 100 != 0 || year % 400 == 0)
  }

  function DaysInMonth(year: int, month: int): int {
    if month == 2 then (if IsLeap(year) then 29 else 28)
    else if month == 4 || month == 6 || month == 9 || month == 11 then 30
    else 31
  }

  datatype Date = Date(year: int, month: int, day: int)

  predicate ValidDate(d: Date) {
    1 <= d.month <= 12 && 1 <= d.day <= DaysInMonth(d.year, d.month)
  }

  function DaysInYear(year: int): int {
    if IsLeap(year) then 366 else 365
  }

  /** Days in the years 1 to `year - 1` (negative before year 1). */
  function YearStart(year: int): int
    decreases if year > 1 then year - 1 else 1 - year
  {
    if year == 1 then 0
    else if year > 1 then YearStart(year - 1) + DaysInYear(year - 1)
    else YearStart(year + 1) - DaysInYear(year)
  }

  /** Days in the months before `month`. */
  function MonthStart(year: int, month: int): int
    requires 1 <= month <= 13
  {
    if month == 1 then 0 else MonthStart(year, month - 1) + DaysInMonth(year, month - 1)
  }

  /** Day number with 0001-01-01 as day 1. */
  function DayNumber(d: Date): int
    requires ValidDate(d)
  {
    YearStart(d.year) + MonthStart(d.year, d.month) + d.day
  }

  // ----- reading a day number -----

  /** The year of a 400-year cycle that day `r` of the cycle is in, searching from year `k` of it. */
  function CycleYear(r: int, k: int): (y: int)
    requires 0 <= k <= 399 && YearStart(k + 1) <= r < YearStart(401)
    ensures k <= y <= 399 && YearStart(y + 1) <= r < YearStart(y + 2)
    decreases 400 - k
  {
    if r < YearStart(k + 2) then k else CycleYear(r, k + 1)
  }

  /** The month that day `r` of a year is in, searching from `month`. */
  function MonthOf(year: int, r: int, month: int): (m: int)
    requires 1 <= month <= 12 && MonthStart(year, month) <= r < MonthStart(year, 13)
    ensures month <= m <= 12 && MonthStart(year, m) <= r < MonthStart(year, m + 1)
    decreases 13 - month
  {
    if r < MonthStart(year, month + 1) then month else MonthOf(year, r, month + 1)
  }

  lemma YearLength(year: int)
    ensures MonthStart(year, 13) == DaysInYear(year)
    ensures YearStart(year + 1) == YearStart(year) + DaysInYear(year)
  {
    assert MonthStart(year, 2) == 31;
    assert MonthStart(year, 3) == 31 + DaysInMonth(year, 2);
    assert MonthStart(year, 5) == MonthStart(year, 3) + 61;
    assert MonthStart(year, 7) == MonthStart(year, 5) + 61;
    assert MonthStart(year, 9) == MonthStart(year, 7) + 62;
    assert MonthStart(year, 11) == MonthStart(year, 9) + 61;
    assert MonthStart(year, 13) == MonthStart(year, 11) + 61;
  }

  /** The leap-year count in closed form. */
  function LeapsBefore(year: int): int {
    (year - 1) / 4 - (year - 1) / 100 + (year - 1) / 400
  }

  lemma LeapsStep(year: int)
    ensures LeapsBefore(year + 1) == LeapsBefore(year) + (if IsLeap(year) then 1 else 0)
  {
    StepBy4(year);
    StepBy100(year);
    StepBy400(year);
    LeapByDivisors(year);
  }

  lemma StepBy4(y: int)
    ensures y / 4 == (y - 1) / 4 + (if y % 4 == 0 then 1 else 0)
  {
  }

  lemma StepBy100(y: int)
    ensures y / 100 == (y - 1) / 100 + (if y % 100 == 0 then 1 else 0)
  {
  }

  lemma StepBy400(y: int)
    ensures y / 400 == (y - 1) / 400 + (if y % 400 == 0 then 1 else 0)
  {
  }

  lemma LeapByDivisors(y: int)
    ensures (if IsLeap(y) then 1 else 0)
         == (if y % 4 == 0 then 1 else 0) - (if y % 100 == 0 then 1 else 0) + (if y % 400 == 0 then 1 else 0)
  {
    Multiple(y, 400, 100);
    Multiple(y, 100, 4);
  }

  lemma Multiple(y: int, a: int, b: int)
    requires (a == 400 && b == 100) || (a == 100 && b == 4)
    ensures y % a == 0 ==> y % b == 0
  {
    if y % a == 0 {
      var q := y / a;
      if a == 400 { assert y == 100 * (4 * q); } else { assert y == 4 * (25 * q); }
    }
  }

  lemma {:induction false} YearStartClosed(year: int)
    ensures YearStart(year) == 365 * (year - 1) + LeapsBefore(year)
    decreases if year > 1 then year - 1 else 1 - year
  {
    if year > 1 {
      YearStartClosed(year - 1);
      LeapsStep(year - 1);
    } else if year < 1 {
      YearStartClosed(year + 1);
      LeapsStep(year);
    }
  }

  /** The calendar repeats every 400 years of 146097 days. */
  lemma CycleShift(year: int, cycles: int)
    ensures YearStart(year + 400 * cycles) == YearStart(year) + 146097 * cycles
    ensures IsLeap(year + 400 * cycles) == IsLeap(year)
  {
    YearStartClosed(year);
    YearStartClosed(year + 400 * cycles);
    LeapsShift(year, cycles);
  }

  lemma LeapsShift(year: int, cycles: int)
    ensures LeapsBefore(year + 400 * cycles) == LeapsBefore(year) + 97 * cycles
    ensures IsLeap(year + 400 * cycles) == IsLeap(year)
  {
    ShiftBy4(year - 1, 100 * cycles);
    ShiftBy100(year - 1, 4 * cycles);
    ShiftBy400(year - 1, cycles);
    ShiftBy4(year, 100 * cycles);
    ShiftBy100(year, 4 * cycles);
    ShiftBy400(year, cycles);
  }

  lemma ShiftBy4(y: int, k: int)
    ensures (y + 4 * k) / 4 == y / 4 + k && (y + 4 * k) % 4 == y % 4
  {
  }

  lemma ShiftBy100(y: int, k: int)
    ensures (y + 100 * k) / 100 == y / 100 + k && (y + 100 * k) % 100 == y % 100
  {
  }

  lemma ShiftBy400(y: int, k: int)
    ensures (y + 400 * k) / 400 == y / 400 + k && (y + 400 * k) % 400 == y % 400
  {
  }

  lemma {:induction false} MonthsAlike(a: int, b: int, month: int)
    requires 1 <= month <= 13 && IsLeap(a) == IsLeap(b)
    ensures MonthStart(a, month) == MonthStart(b, month)
  {
    if month > 1 {
      MonthsAlike(a, b, month - 1);
    }
  }

  /** The date of day `r` (from 0) of a year. */
  function DateInYear(year: int, r: int): (d: Date)
    requires 0 <= r < MonthStart(year, 13)
    ensures ValidDate(d) && d.year == year && DayNumber(d) == YearStart(year) + r + 1
  {
    var month := MonthOf(year, r, 1);
    assert MonthStart(year, month + 1) == MonthStart(year, month) + DaysInMonth(year, month);
    Date(year, month, r - MonthStart(year, month) + 1)
  }

  /** A day of a year is one of the years a number of cycles later. */
  lemma InCycles(inCycle: int, cycles: int, year: int, r: int)
    requires year == inCycle + 400 * cycles && YearStart(inCycle) <= r < YearStart(inCycle + 1)
    ensures 0 <= r - YearStart(inCycle) < MonthStart(year, 13)
    ensures YearStart(year) == YearStart(inCycle) + 146097 * cycles
  {
    CycleShift(inCycle, cycles);
    YearLength(inCycle);
    MonthsAlike(inCycle, year, 13);
  }

  /** chrono's `from_num_days_from_ce`: the date with a day number. */
  function DateOf(n: int): (d: Date)
    ensures ValidDate(d) && DayNumber(d) == n
  {
    var cycles, r := (n - 1) / 146097, (n - 1) % 146097;
    CycleShift(1, 1);
    var inCycle := CycleYear(r, 0) + 1;
    var year := inCycle + 400 * cycles;
    InCycles(inCycle, cycles, year, r);
    DateInYear(year, r - YearStart(inCycle))
  }

  // ----- a bijection -----

  lemma {:induction false} YearsApart(a: int, b: int)
    requires a <= b
    ensures YearStart(a) + 365 * (b - a) <= YearStart(b)
    decreases b - a
  {
    if a < b {
      YearLength(a);
      YearsApart(a + 1, b);
    }
  }

  lemma {:induction false} MonthsApart(year: int, a: int, b: int)
    requires 1 <= a <= b <= 13
    ensures MonthStart(year, a) <= MonthStart(year, b)
    ensures a < b ==> MonthStart(year, a) + DaysInMonth(year, a) <= MonthStart(year, b)
    decreases b - a
  {
    if a < b {
      MonthsApart(year, a + 1, b);
    }
  }

  lemma WithinYear(d: Date)
    requires ValidDate(d)
    ensures YearStart(d.year) < DayNumber(d) <= YearStart(d.year + 1)
  {
    YearLength(d.year);
    MonthsApart(d.year, 1, d.month);
    MonthsApart(d.year, d.month, 13);
  }

  /** A date before another in year, month, day order has the smaller day number. */
  lemma DayNumberIncreases(a: Date, b: Date)
    requires ValidDate(a) && ValidDate(b)
    requires a.year < b.year || (a.year == b.year && (a.month < b.month || (a.month == b.month && a.day < b.day)))
    ensures DayNumber(a) < DayNumber(b)
  {
    WithinYear(a);
    WithinYear(b);
    if a.year < b.year {
      YearsApart(a.year + 1, b.year);
    } else if a.month < b.month {
      MonthsApart(a.year, a.month, b.month);
    }
  }

  /** Day numbers identify dates. */
  lemma {:induction false} DayNumberInjective(a: Date, b: Date)
    requires ValidDate(a) && ValidDate(b) && DayNumber(a) == DayNumber(b)
    ensures a == b
  {
    if a != b {
      if a.year < b.year || (a.year == b.year && (a.month < b.month || (a.month == b.month && a.day < b.day))) {
        DayNumberIncreases(a, b);
      } else {
        DayNumberIncreases(b, a);
      }
    }
  }

  /** The date of a valid date's day number is that date. */
  lemma {:induction false} DateOfDayNumber(d: Date)
    requires ValidDate(d)
    ensures DateOf(DayNumber(d)) == d
  {
    DayNumberInjective(DateOf(DayNumber(d)), d);
  }

  /** Day 719163 is the Unix epoch. */
  lemma {:induction false} EpochDay()
    ensures DayNumber(Date(1970, 1, 1)) == 719163
  {
    YearStartClosed(1970);
  }

  /** A date whose day number lies in a range of years has one of those years. */
  lemma YearOfDay(d: Date, first: int, last: int)
    requires ValidDate(d) && YearStart(first) < DayNumber(d) <= YearStart(last + 1)
    ensures first <= d.year <= last
  {
    WithinYear(d);
    if d.year < first {
      YearsOrdered(d.year + 1, first);
    } else if d.year > last {
      YearsOrdered(last + 1, d.year);
    }
  }

  lemma YearsOrdered(a: int, b: int)
    requires a <= b
    ensures YearStart(a) <= YearStart(b)
  {
    YearsApart(a, b);
  }
}
