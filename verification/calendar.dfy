/**
 * Calendar dates and the time value that `new Date("YYYY-MM-DD")` gives them.
 *
 * A date-only ISO string denotes midnight UTC of that day, so its time value is
 * a whole number of days times the milliseconds in a day, counted from the
 * Unix epoch. The comparator of the task list subtracts such time values; this
 * module proves that the subtraction orders dates exactly as the
 * (year, month, day) triple does.
 */
module Calendar {

  /** A date of the proleptic Gregorian calendar. */
  datatype Date = Date(year: int, month: int, day: int)

  const MillisPerDay: int := 86_400_000

  /** The day `new Date(0)` denotes. */
  const Epoch: Date := Date(1970, 1, 1)

  /** The far-future date the comparator substitutes for a missing date. */
  const Sentinel: Date := Date(9999, 12, 31)

  predicate IsLeapYear(y: int) {
    y % 4 == 0 && (y % 100 != 0 || y % 400 == 0)
  }

  function DaysInYear(y: int): int {
    if IsLeapYear(y) then 366 else 365
  }

  function DaysInMonth(y: int, m: int): (n: int)
    requires 1 <= m <= 12
    ensures 28 <= n <= 31
    ensures n == 29 <==> m == 2 && IsLeapYear(y)
  {
    if m == 2 then (if IsLeapYear(y) then 29 else 28)
    else if m == 4 || m == 6 || m == 9 || m == 11 then 30
    else 31
  }

  /** A date a four-digit ISO year can name, with a day that exists in its month. */
  predicate Valid(d: Date) {
    && 0 <= d.year <= 9999
    && 1 <= d.month <= 12
    && 1 <= d.day <= DaysInMonth(d.year, d.month)
  }

  /** Strict chronological order: the lexicographic order of (year, month, day). */
  predicate Before(a: Date, b: Date) {
    || a.year < b.year
    || (a.year == b.year && a.month < b.month)
    || (a.year == b.year && a.month == b.month && a.day < b.day)
  }

  lemma BeforeTrichotomy(a: Date, b: Date)
    ensures a == b || Before(a, b) || Before(b, a)
    ensures !(Before(a, b) && Before(b, a))
    ensures !Before(a, a)
  {
  }

  lemma BeforeTransitive(a: Date, b: Date, c: Date)
    requires Before(a, b) && Before(b, c)
    ensures Before(a, c)
  {
  }

  /** The sentinel is itself a valid date, and no valid date lies after it. */
  lemma SentinelIsLast(d: Date)
    requires Valid(d)
    ensures Valid(Sentinel)
    ensures !Before(Sentinel, d)
    ensures d != Sentinel ==> Before(d, Sentinel)
  {
  }

  /** Days from 0000-01-01 to the first day of year `y`. */
  function DaysBeforeYear(y: nat): nat {
    if y == 0 then 0 else DaysBeforeYear(y - 1) + DaysInYear(y - 1)
  }

  /** Days from the first of January to the first day of month `m` of year `y`. */
  function DaysBeforeMonth(y: int, m: int): (n: nat)
    requires 1 <= m <= 12
    ensures n + DaysInMonth(y, m) <= DaysInYear(y)
    ensures m == 12 ==> n + DaysInMonth(y, m) == DaysInYear(y)
  {
    var leapDay := if IsLeapYear(y) && m > 2 then 1 else 0;
    leapDay + (
      if m == 1 then 0 else if m == 2 then 31 else if m == 3 then 59
      else if m == 4 then 90 else if m == 5 then 120 else if m == 6 then 151
      else if m == 7 then 181 else if m == 8 then 212 else if m == 9 then 243
      else if m == 10 then 273 else if m == 11 then 304 else 334)
  }

  /** Each month starts where the previous one ends. */
  lemma DaysBeforeNextMonth(y: int, m: int)
    requires 1 <= m < 12
    ensures DaysBeforeMonth(y, m + 1) == DaysBeforeMonth(y, m) + DaysInMonth(y, m)
  {
  }

  /** Days from 0000-01-01 to `d`. */
  function DayNumber(d: Date): int
    requires Valid(d)
  {
    DaysBeforeYear(d.year) + DaysBeforeMonth(d.year, d.month) + d.day - 1
  }

  /**
   * What `getTime()` returns for the date-only string of `d`: milliseconds from
   * the epoch to midnight UTC of `d`.
   */
  function TimeValue(d: Date): (t: int)
    requires Valid(d)
    ensures t % MillisPerDay == 0
    ensures d == Epoch ==> t == 0
  {
    (DayNumber(d) - DayNumber(Epoch)) * MillisPerDay
  }

  lemma {:induction false} DaysBeforeLaterYear(y1: nat, y2: nat)
    requires y1 < y2
    ensures DaysBeforeYear(y1) + DaysInYear(y1) <= DaysBeforeYear(y2)
    decreases y2
  {
    if y2 > y1 + 1 {
      DaysBeforeLaterYear(y1, y2 - 1);
    }
  }

  lemma {:induction false} DaysBeforeLaterMonth(y: int, m1: int, m2: int)
    requires 1 <= m1 < m2 <= 12
    ensures DaysBeforeMonth(y, m1) + DaysInMonth(y, m1) <= DaysBeforeMonth(y, m2)
    decreases m2
  {
    DaysBeforeNextMonth(y, m2 - 1);
    if m2 > m1 + 1 {
      DaysBeforeLaterMonth(y, m1, m2 - 1);
    }
  }

  /** A day lies within its year. */
  lemma DayWithinYear(d: Date)
    requires Valid(d)
    ensures DaysBeforeYear(d.year) <= DayNumber(d) < DaysBeforeYear(d.year) + DaysInYear(d.year)
  {
  }

  lemma DayNumberIncreasing(a: Date, b: Date)
    requires Valid(a) && Valid(b) && Before(a, b)
    ensures DayNumber(a) < DayNumber(b)
  {
    if a.year < b.year {
      DayWithinYear(a);
      DayWithinYear(b);
      DaysBeforeLaterYear(a.year, b.year);
    } else if a.month < b.month {
      DaysBeforeLaterMonth(a.year, a.month, b.month);
    }
  }

  /** Day numbers order valid dates exactly as the calendar does, and tell them apart. */
  lemma DayNumberOrder(a: Date, b: Date)
    requires Valid(a) && Valid(b)
    ensures Before(a, b) <==> DayNumber(a) < DayNumber(b)
    ensures a == b <==> DayNumber(a) == DayNumber(b)
  {
    BeforeTrichotomy(a, b);
    if Before(a, b) {
      DayNumberIncreasing(a, b);
    } else if Before(b, a) {
      DayNumberIncreasing(b, a);
    }
  }

  /**
   * Subtracting time values, as the comparator does, is negative exactly when
   * the first date is earlier and zero exactly when the dates are equal.
   */
  lemma TimeValueOrder(a: Date, b: Date)
    requires Valid(a) && Valid(b)
    ensures TimeValue(a) - TimeValue(b) < 0 <==> Before(a, b)
    ensures TimeValue(a) == TimeValue(b) <==> a == b
  {
    DayNumberOrder(a, b);
  }
}
