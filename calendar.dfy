/** The proleptic Gregorian calendar as Python's `datetime` module counts it.

    A date's ordinal is its day number, 0001-01-01 being day 1
    (`date.toordinal`). Subtracting a `timedelta` of 365 days is subtracting
    365 from the ordinal; `FromOrdinal` turns a day number back into a date.
 */
module Calendar {

  datatype Date = Date(year: int, month: int, day: int)

  const MinYear := 1
  const MaxYear := 9999

  /** The Gregorian leap-year rule. */
  predicate IsLeap(year: int)
  {
    year % 4 == 0 && (year % 100 != 0 || year % 400 == 0)
  }

  function DaysInYear(year: int): int
  {
    if IsLeap(year) then 366 else 365
  }

  function DaysInMonth(year: int, month: int): (n: int)
    requires 1 <= month <= 12
    ensures 28 <= n <= 31
  {
    if month == 2 then (if IsLeap(year) then 29 else 28)
    else if month == 4 || month == 6 || month == 9 || month == 11 then 30
    else 31
  }

  /** Days in the months of `year` before `month`. */
  function DaysBeforeMonth(year: int, month: int): int
    requires 1 <= month <= 12
  {
    [0, 31, 59, 90, 120, 151, 181, 212, 243, 273, 304, 334][month - 1]
      + (if month > 2 && IsLeap(year) then 1 else 0)
  }

  /** Days in the years before `year`, from 0001-01-01 on. */
  function DaysBeforeYear(year: int): int
    requires year >= MinYear
  {
    var y := year - 1;
    365 * y + y / 4 - y / 100 + y / 400
  }

  predicate Valid(d: Date)
  {
    MinYear <= d.year <= MaxYear && 1 <= d.month <= 12 && 1 <= d.day <= DaysInMonth(d.year, d.month)
  }

  /** Python's `date.toordinal`: 0001-01-01 is day 1. */
  function ToOrdinal(d: Date): (n: int)
    requires Valid(d)
    ensures DaysBeforeYear(d.year) < n <= DaysBeforeYear(d.year) + DaysInYear(d.year)
    ensures 1 <= n <= MaxOrdinal
  {
    DayOfYearBound(d);
    YearWithinRange(d.year);
    DaysBeforeYear(d.year) + DaysBeforeMonth(d.year, d.month) + d.day
  }

  /** Every year of the range ends by the last day number. */
  lemma YearWithinRange(year: int)
    requires MinYear <= year <= MaxYear
    ensures DaysBeforeYear(year) + DaysInYear(year) <= MaxOrdinal
  {
    if year < MaxYear {
      YearStep(year);
      YearsGrow(year + 1, MaxYear);
    }
  }

  const MaxOrdinal := DaysBeforeYear(MaxYear) + DaysInYear(MaxYear)

  /** Calendar order: by year, then month, then day. */
  predicate Before(a: Date, b: Date)
  {
    a.year < b.year || (a.year == b.year && (a.month < b.month || (a.month == b.month && a.day < b.day)))
  }

  lemma MonthStep(year: int, month: int)
    requires 1 <= month < 12
    ensures DaysBeforeMonth(year, month + 1) == DaysBeforeMonth(year, month) + DaysInMonth(year, month)
  {
  }

  lemma MonthsFillYear(year: int)
    ensures DaysBeforeMonth(year, 12) + DaysInMonth(year, 12) == DaysInYear(year)
  {
  }

  lemma YearStep(year: int)
    requires year >= MinYear
    ensures DaysBeforeYear(year + 1) == DaysBeforeYear(year) + DaysInYear(year)
  {
    var y := year - 1;
    assert (y + 1) / 4 == y / 4 + (if year % 4 == 0 then 1 else 0);
    assert (y + 1) / 100 == y / 100 + (if year % 100 == 0 then 1 else 0);
    assert (y + 1) / 400 == y / 400 + (if year % 400 == 0 then 1 else 0);
  }

  lemma {:induction false} YearsGrow(a: int, b: int)
    requires MinYear <= a <= b
    ensures DaysBeforeYear(a) + 365 * (b - a) <= DaysBeforeYear(b)
    decreases b - a
  {
    if a < b {
      YearsGrow(a, b - 1);
      YearStep(b - 1);
    }
  }

  /** A valid date's day of the year lies within the year. */
  lemma DayOfYearBound(d: Date)
    requires Valid(d)
    ensures 1 <= DaysBeforeMonth(d.year, d.month) + d.day <= DaysInYear(d.year)
  {
  }

  lemma MonthsGrow(year: int, m1: int, m2: int)
    requires 1 <= m1 < m2 <= 12
    ensures DaysBeforeMonth(year, m1) + DaysInMonth(year, m1) <= DaysBeforeMonth(year, m2)
  {
  }

  /** Day numbers increase strictly along the calendar. */
  lemma OrdinalMonotone(a: Date, b: Date)
    requires Valid(a) && Valid(b) && Before(a, b)
    ensures ToOrdinal(a) < ToOrdinal(b)
  {
    DayOfYearBound(a);
    DayOfYearBound(b);
    if a.year < b.year {
      YearStep(a.year);
      YearsGrow(a.year + 1, b.year);
    } else if a.month < b.month {
      MonthsGrow(a.year, a.month, b.month);
    }
  }

  /** Calendar order and day-number order agree. */
  lemma OrdinalOrder(a: Date, b: Date)
    requires Valid(a) && Valid(b)
    ensures Before(a, b) <==> ToOrdinal(a) < ToOrdinal(b)
    ensures a == b <==> ToOrdinal(a) == ToOrdinal(b)
  {
    if Before(a, b) {
      OrdinalMonotone(a, b);
    } else if Before(b, a) {
      OrdinalMonotone(b, a);
    }
  }

  /** The year in which day `rest` of the years from `year` on falls, and the
      day of that year. */
  function YearOf(year: int, rest: int): (r: (int, int))
    requires MinYear <= year <= MaxYear && 1 <= rest
    requires DaysBeforeYear(year) + rest <= MaxOrdinal
    ensures year <= r.0 <= MaxYear && 1 <= r.1 <= DaysInYear(r.0)
    ensures DaysBeforeYear(r.0) + r.1 == DaysBeforeYear(year) + rest
    decreases rest
  {
    if rest <= DaysInYear(year) then (year, rest)
    else
      YearStep(year);
      assert year < MaxYear;
      YearOf(year + 1, rest - DaysInYear(year))
  }

  /** The month in which day `rest` of the months from `month` on falls, and
      the day of that month. */
  function MonthOf(year: int, month: int, rest: int): (r: (int, int))
    requires 1 <= month <= 12 && 1 <= rest
    requires DaysBeforeMonth(year, month) + rest <= DaysInYear(year)
    ensures month <= r.0 <= 12 && 1 <= r.1 <= DaysInMonth(year, r.0)
    ensures DaysBeforeMonth(year, r.0) + r.1 == DaysBeforeMonth(year, month) + rest
    decreases 12 - month
  {
    if rest <= DaysInMonth(year, month) then (month, rest)
    else
      MonthsFillYear(year);
      MonthStep(year, month);
      MonthOf(year, month + 1, rest - DaysInMonth(year, month))
  }

  /** The date with day number `n` (`date.fromordinal`). */
  function FromOrdinal(n: int): (d: Date)
    requires 1 <= n <= MaxOrdinal
    ensures Valid(d) && ToOrdinal(d) == n
  {
    var (year, dayOfYear) := YearOf(MinYear, n);
    var (month, day) := MonthOf(year, 1, dayOfYear);
    Date(year, month, day)
  }

  /** `FromOrdinal` inverts `ToOrdinal`: every valid date is the date of its
      own day number. */
  lemma FromToOrdinal(d: Date)
    requires Valid(d)
    ensures FromOrdinal(ToOrdinal(d)) == d
  {
    OrdinalOrder(FromOrdinal(ToOrdinal(d)), d);
  }
}
