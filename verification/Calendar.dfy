/** The proleptic Gregorian calendar of Go's `time`, in whole hours of UTC.

    An hour is an integer: the hours since 00:00 on 1 January of year 0. Go's
    package is not part of the repository; what is modelled here is what the
    key grammar needs of it: `time.Date` normalises a date that does not exist,
    `Format` writes an hour back, and hours are ordered. */
module Calendar {

  datatype Civil = Civil(year: int, month: int, day: int, hour: int)

  predicate Leap(y: int)
  {
    y % 4 == 0 && (y % 100 != 0 || y % 400 == 0)
  }

  function YearDays(y: int): int
  {
    if Leap(y) then 366 else 365
  }

  function DaysBeforeYear(y: int): int
  {
    365 * y + (y - 1) / 4 - (y - 1) / 100 + (y - 1) / 400 + 1
  }

  function MonthDays(y: int, m: int): int
    requires 1 <= m <= 12
  {
    if m == 2 then (if Leap(y) then 29 else 28)
    else if m == 4 || m == 6 || m == 9 || m == 11 then 30
    else 31
  }

  function DaysBeforeMonth(y: int, m: int): int
    requires 1 <= m <= 12
    decreases m
  {
    if m == 1 then 0 else DaysBeforeMonth(y, m - 1) + MonthDays(y, m - 1)
  }

  /** A date and an hour of day that exist. */
  predicate Exists(c: Civil)
  {
    && 1 <= c.month <= 12
    && 1 <= c.day <= MonthDays(c.year, c.month)
    && 0 <= c.hour < 24
  }

  /** `time.Date(y, mo, d, h, 0, 0, 0, time.UTC)`, which carries every field
      that is out of range into the one above it. */
  function Date(y: int, mo: int, d: int, h: int): int
  {
    var year, month := y + (mo - 1) / 12, (mo - 1) % 12 + 1;
    24 * (DaysBeforeYear(year) + DaysBeforeMonth(year, month) + d - 1) + h
  }

  function YearFrom(day: int, y: int): (r: int)
    requires DaysBeforeYear(y) <= day
    ensures DaysBeforeYear(r) <= day < DaysBeforeYear(r + 1)
    decreases day - DaysBeforeYear(y)
  {
    YearStep(y);
    if day < DaysBeforeYear(y + 1) then y else YearFrom(day, y + 1)
  }

  function YearOf(day: int): (r: int)
    ensures DaysBeforeYear(r) <= day < DaysBeforeYear(r + 1)
  {
    YearFrom(day, if day >= 0 then day / 366 else day / 365)
  }

  function MonthFrom(y: int, dayOfYear: int, m: int): (r: int)
    requires 1 <= m <= 12
    requires DaysBeforeMonth(y, m) <= dayOfYear < YearDays(y)
    ensures 1 <= r <= 12
    ensures DaysBeforeMonth(y, r) <= dayOfYear < DaysBeforeMonth(y, r) + MonthDays(y, r)
    decreases 12 - m
  {
    MonthTotal(y);
    if dayOfYear < DaysBeforeMonth(y, m) + MonthDays(y, m) then m else MonthFrom(y, dayOfYear, m + 1)
  }

  /** The date and hour of day of an hour. */
  function FromHour(hour: int): (c: Civil)
    ensures Exists(c)
    ensures Date(c.year, c.month, c.day, c.hour) == hour
  {
    var day := hour / 24;
    var y := YearOf(day);
    YearStep(y);
    var rest := day - DaysBeforeYear(y);
    var m := MonthFrom(y, rest, 1);
    Civil(y, m, rest - DaysBeforeMonth(y, m) + 1, hour % 24)
  }

  lemma Fourths(y: int)
    ensures y / 4 == (y - 1) / 4 + (if y % 4 == 0 then 1 else 0)
  {
  }

  lemma Hundredths(y: int)
    ensures y / 100 == (y - 1) / 100 + (if y % 100 == 0 then 1 else 0)
    ensures y % 100 == 0 ==> y % 4 == 0
  {
  }

  lemma FourHundredths(y: int)
    ensures y / 400 == (y - 1) / 400 + (if y % 400 == 0 then 1 else 0)
    ensures y % 400 == 0 ==> y % 100 == 0
  {
  }

  lemma YearStep(y: int)
    ensures DaysBeforeYear(y + 1) == DaysBeforeYear(y) + YearDays(y)
  {
    Fourths(y);
    Hundredths(y);
    FourHundredths(y);
    assert DaysBeforeYear(y + 1) == 365 * (y + 1) + y / 4 - y / 100 + y / 400 + 1;
  }

  lemma MonthTotal(y: int)
    ensures DaysBeforeMonth(y, 12) + MonthDays(y, 12) == YearDays(y)
  {
    assert DaysBeforeMonth(y, 10) == DaysBeforeMonth(y, 8) + 61;
    assert DaysBeforeMonth(y, 8) == DaysBeforeMonth(y, 6) + 61;
    assert DaysBeforeMonth(y, 6) == DaysBeforeMonth(y, 4) + 61;
    assert DaysBeforeMonth(y, 4) == 31 + MonthDays(y, 2) + 31;
  }

  lemma {:induction false} YearsApart(a: int, b: int)
    requires a < b
    ensures DaysBeforeYear(a) + YearDays(a) <= DaysBeforeYear(b)
    decreases b - a
  {
    YearStep(a);
    if a + 1 < b { YearsApart(a + 1, b); }
  }

  lemma {:induction false} MonthsApart(y: int, a: int, b: int)
    requires 1 <= a < b <= 12
    ensures DaysBeforeMonth(y, a) + MonthDays(y, a) <= DaysBeforeMonth(y, b)
    decreases b - a
  {
    if a + 1 < b { MonthsApart(y, a + 1, b); }
  }

  lemma MonthEnds(y: int, m: int)
    requires 1 <= m <= 12
    ensures 0 <= DaysBeforeMonth(y, m) <= YearDays(y) - MonthDays(y, m)
  {
    MonthTotal(y);
    if m < 12 { MonthsApart(y, m, 12); }
    if 1 < m { MonthsApart(y, 1, m); }
  }

  predicate Earlier(a: Civil, b: Civil)
  {
    if a.year != b.year then a.year < b.year
    else if a.month != b.month then a.month < b.month
    else if a.day != b.day then a.day < b.day
    else a.hour < b.hour
  }

  /** `Date` follows the calendar: field by field order of dates that exist is
      the order of their hours. */
  lemma DateIsMonotonic(a: Civil, b: Civil)
    requires Exists(a) && Exists(b) && Earlier(a, b)
    ensures Date(a.year, a.month, a.day, a.hour) < Date(b.year, b.month, b.day, b.hour)
  {
    DateOfExisting(a);
    DateOfExisting(b);
    DayNumberIsMonotonic(a, b);
  }

  /** The days before a date that exists. */
  function DayNumber(c: Civil): int
    requires Exists(c)
  {
    DaysBeforeYear(c.year) + DaysBeforeMonth(c.year, c.month) + c.day - 1
  }

  lemma DateOfExisting(c: Civil)
    requires Exists(c)
    ensures Date(c.year, c.month, c.day, c.hour) == 24 * DayNumber(c) + c.hour
  {
    assert (c.month - 1) / 12 == 0 && (c.month - 1) % 12 == c.month - 1;
  }

  lemma DayNumberIsMonotonic(a: Civil, b: Civil)
    requires Exists(a) && Exists(b) && Earlier(a, b)
    ensures DayNumber(a) <= DayNumber(b)
    ensures a.(hour := 0) != b.(hour := 0) ==> DayNumber(a) < DayNumber(b)
  {
    MonthEnds(a.year, a.month);
    MonthEnds(b.year, b.month);
    if a.year != b.year {
      YearsApart(a.year, b.year);
      YearsInOrder(DaysBeforeYear(a.year), DaysBeforeYear(b.year), a, b);
    } else if a.month != b.month {
      MonthsApart(a.year, a.month, b.month);
    }
  }

  lemma YearsInOrder(beforeA: int, beforeB: int, a: Civil, b: Civil)
    requires Exists(a) && Exists(b)
    requires beforeA + YearDays(a.year) <= beforeB
    requires DaysBeforeMonth(a.year, a.month) <= YearDays(a.year) - MonthDays(a.year, a.month)
    requires 0 <= DaysBeforeMonth(b.year, b.month)
    ensures beforeA + DaysBeforeMonth(a.year, a.month) + a.day - 1
          < beforeB + DaysBeforeMonth(b.year, b.month) + b.day - 1
  {
  }

  lemma DatesDiffer(a: Civil, b: Civil)
    requires a != b
    ensures Earlier(a, b) || Earlier(b, a)
  {
  }

  /** Writing an hour back recovers exactly the dates that exist: `time.Date`
      followed by the written form is the identity there and nowhere else. */
  lemma WriteBack(c: Civil)
    ensures FromHour(Date(c.year, c.month, c.day, c.hour)) == c <==> Exists(c)
  {
    var back := FromHour(Date(c.year, c.month, c.day, c.hour));
    if Exists(c) && back != c {
      DatesDiffer(c, back);
      if Earlier(c, back) { DateIsMonotonic(c, back); } else { DateIsMonotonic(back, c); }
    }
  }

  lemma OrderOfHours(a: int, b: int)
    ensures a < b <==> Earlier(FromHour(a), FromHour(b))
  {
    var x, y := FromHour(a), FromHour(b);
    if x != y { DatesDiffer(x, y); }
    if Earlier(x, y) { DateIsMonotonic(x, y); }
    if Earlier(y, x) { DateIsMonotonic(y, x); }
  }
}
