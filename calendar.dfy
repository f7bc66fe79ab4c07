/** Proleptic Gregorian calendar dates with the range and arithmetic of
    Python's `datetime.date`. */
module Calendar {

  /** A calendar date; only `Valid` dates denote days. */
  datatype Date = Date(year: int, month: int, day: int)

  /** A `datetime.datetime` value: a date and a time of day. */
  datatype Timestamp = Timestamp(date: Date, hour: int, minute: int, second: int, microsecond: int)

  /** `datetime.MAXYEAR`; `datetime.MINYEAR` is 1. */
  const MaxYear := 9999

  predicate IsLeapYear(y: int) {
    y % 4 == 0 && (y % 100 != 0 || y % 400 == 0)
  }

  function DaysInMonth(y: int, m: int): (n: int)
    requires 1 <= m <= 12
    ensures 28 <= n <= 31
    ensures n == 28 <==> m == 2 && !IsLeapYear(y)
    ensures n == 29 <==> m == 2 && IsLeapYear(y)
  {
    if m == 2 then (if IsLeapYear(y) then 29 else 28)
    else if m == 4 || m == 6 || m == 9 || m == 11 then 30
    else 31
  }

  function DaysInYear(y: int): int {
    if IsLeapYear(y) then 366 else 365
  }

  /** A date of the unbounded proleptic Gregorian calendar from year 1 on. */
  predicate Valid(d: Date) {
    1 <= d.year && 1 <= d.month <= 12 && 1 <= d.day <= DaysInMonth(d.year, d.month)
  }

  /** A date that Python's `datetime.date` can represent. */
  predicate InRange(d: Date) {
    Valid(d) && d.year <= MaxYear
  }

  /** The plain date of a timestamp (`datetime.date()` / pandas `.dt.date`). */
  function DatePart(t: Timestamp): Date {
    t.date
  }

  function DaysBeforeYear(y: int): nat
    requires 1 <= y
    decreases y
  {
    if y == 1 then 0 else DaysBeforeYear(y - 1) + DaysInYear(y - 1)
  }

  function DaysBeforeMonth(y: int, m: int): nat
    requires 1 <= m <= 12
    decreases m
  {
    if m == 1 then 0 else DaysBeforeMonth(y, m - 1) + DaysInMonth(y, m - 1)
  }

  /** The number of the day counted from 0001-01-01, which is day 1
      (Python's `date.toordinal`). */
  function Ordinal(d: Date): (n: int)
    requires Valid(d)
    ensures n >= 1
  {
    DaysBeforeYear(d.year) + DaysBeforeMonth(d.year, d.month) + d.day
  }

  /** `a - b` for two dates, in days (the `days` of the resulting timedelta). */
  function DiffDays(a: Date, b: Date): (n: int)
    requires Valid(a) && Valid(b)
    ensures n == 0 <==> a == b
    ensures n > 0 <==> Before(b, a)
  {
    OrdinalOrder(a, b);
    OrdinalOrder(b, a);
    Ordinal(a) - Ordinal(b)
  }

  /** Calendar order: earlier year, else earlier month, else earlier day. */
  predicate Before(a: Date, b: Date) {
    a.year < b.year
    || (a.year == b.year && a.month < b.month)
    || (a.year == b.year && a.month == b.month && a.day < b.day)
  }

  /** The twelve months together make up the year. */
  lemma DaysBeforeDecember(y: int)
    ensures DaysBeforeMonth(y, 12) + DaysInMonth(y, 12) == DaysInYear(y)
  {
  }

  /** The day after `d`. */
  function NextDay(d: Date): (r: Date)
    requires Valid(d)
    ensures Valid(r) && Ordinal(r) == Ordinal(d) + 1
    ensures Before(d, r)
  {
    if d.day < DaysInMonth(d.year, d.month) then d.(day := d.day + 1)
    else if d.month < 12 then Date(d.year, d.month + 1, 1)
    else DaysBeforeDecember(d.year); Date(d.year + 1, 1, 1)
  }

  /** `d` advanced by `n` days in the unbounded calendar. */
  function AddDays(d: Date, n: nat): (r: Date)
    requires Valid(d)
    ensures Valid(r) && Ordinal(r) == Ordinal(d) + n
    decreases n
  {
    if n == 0 then d else AddDays(NextDay(d), n - 1)
  }

  lemma {:induction false} MonthEndBound(y: int, m1: int, m2: int)
    requires 1 <= m1 < m2 <= 12
    ensures DaysBeforeMonth(y, m1) + DaysInMonth(y, m1) <= DaysBeforeMonth(y, m2)
    decreases m2
  {
    if m1 < m2 - 1 {
      MonthEndBound(y, m1, m2 - 1);
    }
  }

  lemma {:induction false} YearEndBound(y1: int, y2: int)
    requires 1 <= y1 < y2
    ensures DaysBeforeYear(y1) + DaysInYear(y1) <= DaysBeforeYear(y2)
    decreases y2
  {
    if y1 < y2 - 1 {
      YearEndBound(y1, y2 - 1);
    }
  }

  /** Every day of year `d.year` lies between the year's start and end ordinals. */
  lemma OrdinalWithinYear(d: Date)
    requires Valid(d)
    ensures DaysBeforeYear(d.year) < Ordinal(d) <= DaysBeforeYear(d.year) + DaysInYear(d.year)
  {
    if d.month < 12 {
      MonthEndBound(d.year, d.month, 12);
    }
    DaysBeforeDecember(d.year);
  }

  lemma OrdinalMonotone(a: Date, b: Date)
    requires Valid(a) && Valid(b) && Before(a, b)
    ensures Ordinal(a) < Ordinal(b)
  {
    if a.year < b.year {
      OrdinalWithinYear(a);
      OrdinalWithinYear(b);
      YearEndBound(a.year, b.year);
    } else if a.month < b.month {
      MonthEndBound(a.year, a.month, b.month);
    }
  }

  /** The ordinal is an order isomorphism between valid dates and their day
      numbers: calendar order is ordinal order, and equal ordinals mean equal
      dates. */
  lemma OrdinalOrder(a: Date, b: Date)
    requires Valid(a) && Valid(b)
    ensures Before(a, b) <==> Ordinal(a) < Ordinal(b)
    ensures a == b <==> Ordinal(a) == Ordinal(b)
  {
    if Before(a, b) {
      OrdinalMonotone(a, b);
    } else if Before(b, a) {
      OrdinalMonotone(b, a);
    }
  }

  /** `AddDays` is Python's `date.fromordinal(d.toordinal() + n)`: the only
      valid date whose ordinal is `n` more than `d`'s. */
  lemma AddDaysByOrdinal(d: Date, n: nat, r: Date)
    requires Valid(d) && Valid(r) && Ordinal(r) == Ordinal(d) + n
    ensures AddDays(d, n) == r
  {
    OrdinalOrder(AddDays(d, n), r);
  }
}
