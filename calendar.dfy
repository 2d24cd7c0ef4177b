/** The part of `System.DateTime` the discovery query relies on: dates at
    midnight (`DateTime.Today`, a date of birth), their order, and
    `AddYears`. */
module Calendar {
  import opened Wrappers

  const MinYear := 1
  const MaxYear := 9999

  /** A `DateTime` whose time of day is midnight. */
  datatype Date = Date(year: int, month: int, day: int)

  predicate IsLeapYear(y: int) {
    y % 4 == 0 && (y % 100 != 0 || y % 400 == 0)
  }

  function DaysInMonth(y: int, m: int): (n: int)
    requires 1 <= m <= 12
    ensures 28 <= n <= 31
    ensures n == 29 <==> m == 2 && IsLeapYear(y)
  {
    if m == 2 then (if IsLeapYear(y) then 29 else 28)
    else if m == 4 || m == 6 || m == 9 || m == 11 then 30
    else 31
  }

  /** The dates a `DateTime` can hold (years 1 to 9999). */
  predicate ValidDate(d: Date) {
    && MinYear <= d.year <= MaxYear
    && 1 <= d.month <= 12
    && 1 <= d.day <= DaysInMonth(d.year, d.month)
  }

  /** `a <= b` on `DateTime`: chronological, i.e. lexicographic on
      (year, month, day). */
  predicate AtOrBefore(a: Date, b: Date) {
    || a.year < b.year
    || (a.year == b.year && (a.month < b.month || (a.month == b.month && a.day <= b.day)))
  }

  /** The calendar arithmetic of `AddYears` without its range check: move
      `n` years, keeping month and day, except that 29 February becomes
      28 February in a year that is not a leap year. */
  function ShiftYears(d: Date, n: int): Date {
    var y := d.year + n;
    Date(y, d.month, if d.month == 2 && d.day == 29 && !IsLeapYear(y) then 28 else d.day)
  }

  /** `d.AddYears(n)`: throws ArgumentOutOfRangeException when `n` is
      outside -10000..10000 or the resulting year is outside 1..9999. */
  function AddYears(d: Date, n: int): (r: Result<Date, Exception>)
    requires ValidDate(d)
    ensures r.Success? <==> MinYear <= d.year + n <= MaxYear
    ensures r.Failure? ==> r.error == ArgumentOutOfRangeException
    ensures r.Success? ==> ValidDate(r.value)
    ensures r.Success? ==> r.value.year == d.year + n && r.value.month == d.month
    ensures r.Success? ==>
              || r.value.day == d.day
              || (d.month == 2 && d.day == 29 && r.value.day == 28 && !IsLeapYear(d.year + n))
  {
    if n < -10000 || n > 10000 then Failure(ArgumentOutOfRangeException)
    else if d.year + n < MinYear || MaxYear < d.year + n then Failure(ArgumentOutOfRangeException)
    else Success(ShiftYears(d, n))
  }

  /** Moving two dates by the same number of years keeps their order. */
  lemma AddYearsMonotone(a: Date, b: Date, n: int)
    requires ValidDate(a) && ValidDate(b) && AtOrBefore(a, b)
    requires AddYears(a, n).Success? && AddYears(b, n).Success?
    ensures AtOrBefore(AddYears(a, n).value, AddYears(b, n).value)
  {
  }

  /** Going back further gives a strictly earlier date. */
  lemma AddYearsStrictlyIncreasing(d: Date, i: int, j: int)
    requires ValidDate(d) && i < j
    requires AddYears(d, i).Success? && AddYears(d, j).Success?
    ensures AtOrBefore(AddYears(d, i).value, AddYears(d, j).value)
    ensures AddYears(d, i).value != AddYears(d, j).value
  {
  }

  /** Adding `n` years and then `-n` years gives the date back, except for
      29 February clamped in a year that is not a leap year. */
  lemma AddYearsRoundTrip(d: Date, n: int)
    requires ValidDate(d) && AddYears(d, n).Success?
    requires !(d.month == 2 && d.day == 29 && !IsLeapYear(d.year + n))
    ensures AddYears(AddYears(d, n).value, -n) == Success(d)
  {
  }

  /** The age in completed years, on `today`, of someone born on `dob`:
      the year difference, less one if this year's birthday
      (`today.AddYears(-k)` compared with `dob`) is still to come. */
  function CompletedYears(today: Date, dob: Date): int {
    var k := today.year - dob.year;
    if AtOrBefore(dob, ShiftYears(today, -k)) then k else k - 1
  }

  /** The age convention behind the query's window: someone born on `dob`
      is at least `k` years old on `today` exactly when `dob` is on or
      before `today` moved back `k` years. */
  lemma AtLeastYearsOld(today: Date, dob: Date, k: int)
    ensures AtOrBefore(dob, ShiftYears(today, -k)) <==> k <= CompletedYears(today, dob)
  {
  }
}
