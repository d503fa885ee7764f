/** Proleptic Gregorian calendar arithmetic, numbered the way Python's datetime
    module numbers dates: the ordinal of 0001-01-01 is 1 and every following
    calendar day adds one. Subtracting two naive datetimes in Python subtracts
    these ordinals, which is what the shift rotation counts. */
module Calendar {

  const MinYear := 1
  const MaxYear := 9999

  datatype Date = Date(year: int, month: int, day: int)

  /** The last date Python's datetime can represent; it has no successor. */
  const LastDate := Date(MaxYear, 12, 31)

  predicate IsLeap(year: int) {
    year % 4 == 0 && (year % 100 != 0 || year % 400 == 0)
  }

  function DaysInMonth(year: int, month: int): (n: int)
    requires 1 <= month <= 12
    ensures 28 <= n <= 31
    ensures n == 29 <==> month == 2 && IsLeap(year)
  {
    if month == 2 then (if IsLeap(year) then 29 else 28)
    else if month == 4 || month == 6 || month == 9 || month == 11 then 30
    else 31
  }

  predicate Valid(d: Date) {
    && MinYear <= d.year <= MaxYear
    && 1 <= d.month <= 12
    && 1 <= d.day <= DaysInMonth(d.year, d.month)
  }

  /** Days in all years before `year`, in closed form (leap years counted by
      the 4/100/400 rule). */
  function DaysBeforeYear(year: int): int {
    var y := year - 1;
    y * 365 + y / 4 - y / 100 + y / 400
  }

  /** Days in the months of `year` before `month`, from the cumulative table
      of a common year plus the leap day once February is over. */
  function DaysBeforeMonth(year: int, month: int): int
    requires 1 <= month <= 12
  {
    [0, 31, 59, 90, 120, 151, 181, 212, 243, 273, 304, 334][month - 1]
    + (if month > 2 && IsLeap(year) then 1 else 0)
  }

  function ToOrdinal(d: Date): int
    requires Valid(d)
  {
    DaysBeforeYear(d.year) + DaysBeforeMonth(d.year, d.month) + d.day
  }

  /** The following calendar day (what `+ timedelta(days=1)` does to the date
      part of a datetime). */
  function NextDate(d: Date): (n: Date)
    requires Valid(d)
    ensures d != LastDate ==> Valid(n)
    ensures n.year == d.year || (n.year == d.year + 1 && n.month == 1 && n.day == 1)
  {
    if d.day < DaysInMonth(d.year, d.month) then Date(d.year, d.month, d.day + 1)
    else if d.month < 12 then Date(d.year, d.month + 1, 1)
    else Date(d.year + 1, 1, 1)
  }

  /** Going from `y - 1` to `y`, the quotient by one of the leap-rule
      divisors grows by one exactly when that divisor divides `y`. */
  lemma {:induction false} QuotientStep(y: int, k: int)
    requires k == 4 || k == 100 || k == 400
    ensures y / k - (y - 1) / k == (if y % k == 0 then 1 else 0)
  {
    var q, r := y / k, y % k;
    if k == 4 {
      assert y == 4 * q + r;
      if r == 0 { assert (y - 1) / 4 == q - 1; } else { assert (y - 1) / 4 == q; }
    } else if k == 100 {
      assert y == 100 * q + r;
      if r == 0 { assert (y - 1) / 100 == q - 1; } else { assert (y - 1) / 100 == q; }
    } else {
      assert y == 400 * q + r;
      if r == 0 { assert (y - 1) / 400 == q - 1; } else { assert (y - 1) / 400 == q; }
    }
  }

  /** The closed form agrees with the year-by-year recurrence: each year adds
      365 days, 366 when it is a leap year. */
  lemma {:induction false} YearLength(year: int)
    ensures DaysBeforeYear(year + 1) == DaysBeforeYear(year) + (if IsLeap(year) then 366 else 365)
  {
    QuotientStep(year, 4);
    QuotientStep(year, 100);
    QuotientStep(year, 400);
  }

  /** The month table agrees with the month lengths. */
  lemma MonthLength(year: int, month: int)
    requires 1 <= month < 12
    ensures DaysBeforeMonth(year, month + 1) == DaysBeforeMonth(year, month) + DaysInMonth(year, month)
  {
  }

  /** Day ordinals start at 1 with 0001-01-01, as Python numbers them. */
  lemma FirstOrdinal()
    ensures ToOrdinal(Date(MinYear, 1, 1)) == 1
  {
  }

  /** Consecutive calendar days have consecutive ordinals, across month and
      year ends and leap days alike. */
  lemma {:induction false} NextDateOrdinal(d: Date)
    requires Valid(d) && d != LastDate
    ensures Valid(NextDate(d))
    ensures ToOrdinal(NextDate(d)) == ToOrdinal(d) + 1
  {
    if d.day < DaysInMonth(d.year, d.month) {
    } else if d.month < 12 {
      MonthLength(d.year, d.month);
    } else {
      YearLength(d.year);
      assert DaysBeforeMonth(d.year, 12) + 31 == (if IsLeap(d.year) then 366 else 365);
    }
  }
}
