/** Proleptic Gregorian calendar arithmetic, as Python's `datetime` does it:
    day ordinals counted from 0001-01-01 and shifted so that 1970-01-01 is
    day 0 of the POSIX epoch. */
module Calendar {

  predicate IsLeap(y: int) {
    y % 4 == 0 && (y % 100 != 0 || y % 400 == 0)
  }

  function DaysInYear(y: int): int {
    if IsLeap(y) then 366 else 365
  }

  function DaysInMonth(y: int, m: int): int
    requires 1 <= m <= 12
  {
    if m == 2 then (if IsLeap(y) then 29 else 28)
    else if m == 4 || m == 6 || m == 9 || m == 11 then 30
    else 31
  }

  predicate ValidDate(y: int, m: int, d: int) {
    1 <= y && 1 <= m <= 12 && 1 <= d <= DaysInMonth(y, m)
  }

  /** Days before the first of each month in a common year. */
  const CumulativeDays: seq<int> := [0, 31, 59, 90, 120, 151, 181, 212, 243, 273, 304, 334]

  function DaysBeforeMonth(y: int, m: int): int
    requires 1 <= m <= 12
  {
    CumulativeDays[m - 1] + (if m > 2 && IsLeap(y) then 1 else 0)
  }

  /** Days in the years 1 .. y-1, in closed form. */
  function DaysBeforeYear(y: int): int
    requires y >= 1
  {
    var z := y - 1;
    z * 365 + z / 4 - z / 100 + z / 400
  }

  /** The ordinal of 1970-01-01 when 0001-01-01 is day 1. */
  const UnixEpochOrdinal: int := 719163

  /** Days from 1970-01-01 to the given date: never negative from 1970 on,
      always negative before it. */
  function DaysFromCivil(y: int, m: int, d: int): (r: int)
    requires ValidDate(y, m, d)
    ensures 1970 <= y ==> 0 <= r
    ensures y < 1970 ==> r < 0
  {
    MonthWithinYear(y, m, d);
    if 1970 <= y then
      DaysBeforeYearMonotone(1970, y);
      DaysBeforeYear(y) + DaysBeforeMonth(y, m) + d - UnixEpochOrdinal
    else
      DaysBeforeNextYear(y);
      DaysBeforeYearMonotone(y + 1, 1970);
      DaysBeforeYear(y) + DaysBeforeMonth(y, m) + d - UnixEpochOrdinal
  }

  /** A date's days before its month, plus its day, fit in its year. */
  lemma MonthWithinYear(y: int, m: int, d: int)
    requires ValidDate(y, m, d)
    ensures 0 <= DaysBeforeMonth(y, m)
    ensures DaysBeforeMonth(y, m) + d <= DaysInYear(y)
  {
    if m <= 6 {
      if m <= 3 { } else { }
    } else {
      if m <= 9 { } else { }
    }
  }

  /** Later years start later. */
  lemma {:induction false} DaysBeforeYearMonotone(a: int, b: int)
    requires 1 <= a <= b
    ensures DaysBeforeYear(a) <= DaysBeforeYear(b)
    decreases b - a
  {
    if a < b {
      DaysBeforeNextYear(a);
      DaysBeforeYearMonotone(a + 1, b);
    }
  }

  /** Reference count of the days before year y: one year at a time. */
  function CountedDaysBeforeYear(y: int): int
    requires y >= 1
  {
    if y == 1 then 0 else CountedDaysBeforeYear(y - 1) + DaysInYear(y - 1)
  }

  /** Reference count of the days before month m of year y: one month at a time. */
  function CountedDaysBeforeMonth(y: int, m: int): int
    requires 1 <= m <= 12
  {
    if m == 1 then 0 else CountedDaysBeforeMonth(y, m - 1) + DaysInMonth(y, m - 1)
  }

  lemma DivisionStep(z: int)
    requires z >= 0
    ensures (z + 1) / 4 - z / 4 == (if (z + 1) % 4 == 0 then 1 else 0)
    ensures (z + 1) / 100 - z / 100 == (if (z + 1) % 100 == 0 then 1 else 0)
    ensures (z + 1) / 400 - z / 400 == (if (z + 1) % 400 == 0 then 1 else 0)
  {
  }

  /** Going from year y to y+1 adds the length of year y. */
  lemma DaysBeforeNextYear(y: int)
    requires y >= 1
    ensures DaysBeforeYear(y + 1) == DaysBeforeYear(y) + DaysInYear(y)
  {
    var z := y - 1;
    DivisionStep(z);
    assert DaysBeforeYear(y) == z * 365 + z / 4 - z / 100 + z / 400;
    assert DaysBeforeYear(y + 1) == y * 365 + y / 4 - y / 100 + y / 400;
    var a, b, c := (if y % 4 == 0 then 1 else 0), (if y % 100 == 0 then 1 else 0), (if y % 400 == 0 then 1 else 0);
    assert DaysBeforeYear(y + 1) - DaysBeforeYear(y) == 365 + a - b + c;
    CenturiesAreLeapCandidates(y);
  }

  lemma CenturiesAreLeapCandidates(y: int)
    ensures y % 400 == 0 ==> y % 100 == 0
    ensures y % 100 == 0 ==> y % 4 == 0
  {
    if y % 400 == 0 {
      var q := y / 400;
      var j := 4 * q;
      assert y == 100 * j;
    }
    if y % 100 == 0 {
      var q := y / 100;
      var j := 25 * q;
      assert y == 4 * j;
    }
  }

  /** The closed form agrees with counting the years one by one. */
  lemma {:induction false} DaysBeforeYearCounts(y: int)
    requires y >= 1
    ensures DaysBeforeYear(y) == CountedDaysBeforeYear(y)
    decreases y
  {
    if y > 1 {
      DaysBeforeYearCounts(y - 1);
      DaysBeforeNextYear(y - 1);
    }
  }

  /** The month table agrees with counting the months one by one. */
  lemma {:induction false} DaysBeforeMonthCounts(y: int, m: int)
    requires 1 <= m <= 12
    ensures DaysBeforeMonth(y, m) == CountedDaysBeforeMonth(y, m)
    decreases m
  {
    if m > 1 {
      DaysBeforeMonthCounts(y, m - 1);
    }
  }

  /** The day number is the count of days, year by year and month by month,
      from 1970-01-01 to the date. */
  lemma DaysFromCivilCounts(y: int, m: int, d: int)
    requires ValidDate(y, m, d)
    ensures DaysFromCivil(y, m, d) == CountedDaysBeforeYear(y) + CountedDaysBeforeMonth(y, m) + (d - 1) - CountedDaysBeforeYear(1970)
  {
    DaysBeforeYearCounts(y);
    DaysBeforeYearCounts(1970);
    DaysBeforeMonthCounts(y, m);
  }

  /** The calendar date after (y, m, d). */
  function NextDay(y: int, m: int, d: int): (r: (int, int, int))
    requires ValidDate(y, m, d)
    ensures ValidDate(r.0, r.1, r.2)
  {
    if d < DaysInMonth(y, m) then (y, m, d + 1)
    else if m < 12 then (y, m + 1, 1)
    else (y + 1, 1, 1)
  }

  /** 1970-01-01 is day zero. */
  lemma EpochIsDayZero()
    ensures DaysFromCivil(1970, 1, 1) == 0
  {
  }

  /** Consecutive calendar dates are consecutive day numbers; with
      `EpochIsDayZero` this pins `DaysFromCivil` down completely. */
  lemma DaysFromCivilNextDay(y: int, m: int, d: int)
    requires ValidDate(y, m, d)
    ensures var n := NextDay(y, m, d); DaysFromCivil(n.0, n.1, n.2) == DaysFromCivil(y, m, d) + 1
  {
    if d == DaysInMonth(y, m) && m == 12 {
      DaysBeforeNextYear(y);
    }
  }
}
