/** The proleptic Gregorian calendar of Python's `datetime.date`: month lengths,
    ordinals, month ends, and the arithmetic the generators and the tax-id
    decoder rely on. Months are also numbered consecutively (`MonthNo`), so that
    "the next calendar month" is `+ 1`. */
module Calendar {

  datatype Date = Date(year: int, month: int, day: int)

  predicate IsLeap(y: int) {
    y % 4 == 0 && (y % 100 != 0 || y % 400 == 0)
  }

  function DaysInMonth(y: int, m: int): (n: int)
    requires 1 <= m <= 12
    ensures 28 <= n <= 31
  {
    if m == 2 then (if IsLeap(y) then 29 else 28)
    else if m in {4, 6, 9, 11} then 30
    else 31
  }

  predicate ValidDate(d: Date) {
    1 <= d.month <= 12 && 1 <= d.day <= DaysInMonth(d.year, d.month)
  }

  /** A date that exists. */
  type Day = d: Date | ValidDate(d) witness Date(1970, 1, 1)

  /** Leap years up to a year. */
  function LeapDays(y: int): int { y / 4 - y / 100 + y / 400 }

  function DaysBeforeYear(y: int): int {
    (y - 1) * 365 + LeapDays(y - 1)
  }

  function DaysBeforeMonth(y: int, m: int): int
    requires 1 <= m <= 13
  {
    if m == 1 then 0 else DaysBeforeMonth(y, m - 1) + DaysInMonth(y, m - 1)
  }

  /** `date.toordinal()`: 1 January of year 1 is day 1. */
  function Ordinal(d: Day): int {
    DaysBeforeYear(d.year) + DaysBeforeMonth(d.year, d.month) + d.day
  }

  /** Chronological order, as Python compares dates: by year, month, day. */
  predicate Before(a: Date, b: Date) {
    a.year < b.year
    || (a.year == b.year && (a.month < b.month || (a.month == b.month && a.day < b.day)))
  }

  // --- consecutive month numbers ---------------------------------------------

  function MonthNo(y: int, m: int): int {
    12 * y + m - 1
  }

  function YearOf(n: int): int { n / 12 }

  function MonthOf(n: int): (m: int)
    ensures 1 <= m <= 12
  {
    n % 12 + 1
  }

  function MonthNoOf(d: Day): int { MonthNo(d.year, d.month) }

  function MonthDays(n: int): (k: int)
    ensures 28 <= k <= 31
  {
    DaysInMonth(YearOf(n), MonthOf(n))
  }

  function LastDay(n: int): Day {
    Date(YearOf(n), MonthOf(n), MonthDays(n))
  }

  /** Ordinal of the last day of month `n`. */
  function MonthEnd(n: int): int {
    Ordinal(LastDay(n))
  }

  lemma MonthNoInverse(y: int, m: int)
    requires 1 <= m <= 12
    ensures YearOf(MonthNo(y, m)) == y && MonthOf(MonthNo(y, m)) == m
  {
  }

  lemma MonthOrder(y: int, m: int, y': int, m': int)
    requires 1 <= m <= 12 && 1 <= m' <= 12
    ensures MonthNo(y, m) < MonthNo(y', m') <==> y < y' || (y == y' && m < m')
  {
  }

  lemma NextMonth(y: int, m: int)
    ensures MonthNo(y, m + 1) == MonthNo(y, m) + 1
    ensures m == 12 ==> MonthNo(y + 1, 1) == MonthNo(y, m) + 1
  {
  }

  lemma DivStep4(y: int)
    ensures y / 4 - (y - 1) / 4 == if y % 4 == 0 then 1 else 0
  {
  }

  lemma DivStep100(y: int)
    ensures y / 100 - (y - 1) / 100 == if y % 100 == 0 then 1 else 0
  {
  }

  lemma DivStep400(y: int)
    ensures y / 400 - (y - 1) / 400 == if y % 400 == 0 then 1 else 0
  {
  }

  lemma FourTimes(k: int)
    ensures 4 * k % 4 == 0
  {
  }

  lemma HundredTimes(k: int)
    ensures 100 * k % 100 == 0
  {
  }

  lemma Multiples(y: int)
    ensures y % 400 == 0 ==> y % 100 == 0
    ensures y % 100 == 0 ==> y % 4 == 0
  {
    FourTimes(25 * (y / 100));
    HundredTimes(4 * (y / 400));
  }

  lemma LeapDaysStep(y: int)
    ensures LeapDays(y) - LeapDays(y - 1) == if IsLeap(y) then 1 else 0
  {
    DivStep4(y);
    DivStep100(y);
    DivStep400(y);
    Multiples(y);
  }

  lemma YearLength(y: int)
    ensures DaysBeforeYear(y + 1) == DaysBeforeYear(y) + (if IsLeap(y) then 366 else 365)
  {
    LeapDaysStep(y);
    hide LeapDays, IsLeap;
  }

  lemma MonthsFillTheYear(y: int)
    ensures DaysBeforeMonth(y, 13) == if IsLeap(y) then 366 else 365
  {
    assert DaysBeforeMonth(y, 2) == DaysInMonth(y, 1);
    assert DaysBeforeMonth(y, 3) == DaysInMonth(y, 1) + DaysInMonth(y, 2);
    assert DaysBeforeMonth(y, 5) == DaysBeforeMonth(y, 3) + 61;
    assert DaysBeforeMonth(y, 7) == DaysBeforeMonth(y, 5) + 61;
    assert DaysBeforeMonth(y, 9) == DaysBeforeMonth(y, 7) + 62;
    assert DaysBeforeMonth(y, 11) == DaysBeforeMonth(y, 9) + 61;
    assert DaysBeforeMonth(y, 13) == DaysBeforeMonth(y, 11) + 61;
  }

  /** Consecutive month ends are exactly the length of the later month apart. */
  lemma MonthEndStep(n: int)
    ensures MonthEnd(n + 1) == MonthEnd(n) + MonthDays(n + 1)
  {
    var y, m := YearOf(n), MonthOf(n);
    if m == 12 {
      assert YearOf(n + 1) == y + 1 && MonthOf(n + 1) == 1;
      YearLength(y);
      MonthsFillTheYear(y);
    } else {
      assert YearOf(n + 1) == y && MonthOf(n + 1) == m + 1;
    }
  }

  lemma {:induction false} MonthEndsGrow(a: int, b: int)
    requires a <= b
    ensures MonthEnd(b) >= MonthEnd(a) + 28 * (b - a)
    decreases b - a
  {
    hide MonthEnd;
    if a < b {
      MonthEndsGrow(a, b - 1);
      MonthEndStep(b - 1);
    }
  }

  /** A date's ordinal, counted from the end of the previous month. */
  lemma OrdinalFromMonthEnd(d: Day)
    ensures Ordinal(d) == MonthEnd(MonthNoOf(d) - 1) + d.day
    ensures MonthEnd(MonthNoOf(d) - 1) < Ordinal(d) <= MonthEnd(MonthNoOf(d))
  {
    var n := MonthNoOf(d);
    MonthNoInverse(d.year, d.month);
    MonthEndStep(n - 1);
  }

  lemma OrdinalIsStrictlyMonotone(a: Day, b: Day)
    requires Before(a, b)
    ensures Ordinal(a) < Ordinal(b)
  {
    hide MonthEnd, Ordinal;
    OrdinalFromMonthEnd(a);
    OrdinalFromMonthEnd(b);
    MonthOrder(a.year, a.month, b.year, b.month);
    if MonthNoOf(a) < MonthNoOf(b) {
      MonthEndsGrow(MonthNoOf(a), MonthNoOf(b) - 1);
    }
  }

  /** Subtracting dates orders them, and equal ordinals are equal dates. */
  lemma OrdinalOrder(a: Day, b: Day)
    ensures Ordinal(a) < Ordinal(b) <==> Before(a, b)
    ensures Ordinal(a) == Ordinal(b) <==> a == b
  {
    if Before(a, b) {
      OrdinalIsStrictlyMonotone(a, b);
    } else if Before(b, a) {
      OrdinalIsStrictlyMonotone(b, a);
    } else {
      assert a == b;
    }
  }

  /** Which side of a month boundary a date lies on is decided by its ordinal. */
  lemma MonthOfDay(d: Day, n: int)
    ensures n < MonthNoOf(d) <==> MonthEnd(n) < Ordinal(d)
  {
    OrdinalFromMonthEnd(d);
    if n < MonthNoOf(d) {
      MonthEndsGrow(n, MonthNoOf(d) - 1);
    } else {
      MonthEndsGrow(MonthNoOf(d), n);
    }
  }

  // --- from a day number back to a date ----------------------------------------

  /** The month, from `k` on, that day `n` falls in, searching month by month;
      `before` is the ordinal of the last day before month `k`. */
  function MonthHolding(n: int, k: int, before: int): int
    decreases n - before
  {
    var end := before + MonthDays(k);
    if n <= end then k else MonthHolding(n, k + 1, end)
  }

  lemma {:induction false} MonthHoldingIsRight(n: int, k: int)
    requires MonthEnd(k - 1) < n
    ensures var r := MonthHolding(n, k, MonthEnd(k - 1)); MonthEnd(r - 1) < n <= MonthEnd(r)
    decreases n - MonthEnd(k - 1)
  {
    hide MonthEnd, MonthDays;
    MonthEndStep(k - 1);
    if n > MonthEnd(k) {
      MonthHoldingIsRight(n, k + 1);
    }
  }

  const FIRST_MONTH := 12  // January of year 1

  lemma CalendarStart()
    ensures MonthEnd(FIRST_MONTH - 1) == 0
  {
    assert YearOf(11) == 0 && MonthOf(11) == 12;
    MonthsFillTheYear(0);
  }

  /** `date.fromordinal(n)`. */
  function FromOrdinal(n: int): (d: Day)
    requires 1 <= n
    ensures Ordinal(d) == n
  {
    DayIsInItsMonth(n);
    DayIn(n, MonthHolding(n, FIRST_MONTH, 0))
  }

  /** Day `n`, counted from the start of month `k`. */
  function DayIn(n: int, k: int): Date {
    Date(YearOf(k), MonthOf(k), n - MonthEnd(k - 1))
  }

  lemma DayOfMonth(n: int, k: int)
    requires MonthEnd(k - 1) < n <= MonthEnd(k)
    ensures ValidDate(DayIn(n, k)) && Ordinal(DayIn(n, k)) == n
  {
    MonthEndStep(k - 1);
    var d: Day := DayIn(n, k);
    assert MonthNoOf(d) == k;
    hide MonthEnd, Ordinal;
    OrdinalFromMonthEnd(d);
  }

  lemma DayIsInItsMonth(n: int)
    requires 1 <= n
    ensures var d := DayIn(n, MonthHolding(n, FIRST_MONTH, 0)); ValidDate(d) && Ordinal(d) == n
  {
    hide *;
    CalendarStart();
    MonthHoldingIsRight(n, FIRST_MONTH);
    DayOfMonth(n, MonthHolding(n, FIRST_MONTH, 0));
  }

  /** With the contract of `FromOrdinal`: ordinals and dates are in bijection. */
  lemma DateRoundTrip(d: Day)
    requires 1 <= Ordinal(d)
    ensures FromOrdinal(Ordinal(d)) == d
  {
    OrdinalOrder(FromOrdinal(Ordinal(d)), d);
  }

  // --- adding years -------------------------------------------------------------

  /** `day.replace(year=day.year + years)`, with 29 February moved to the 28th
      when the target year has none. */
  function PlusYears(d: Day, years: int): Day {
    if ValidDate(d.(year := d.year + years)) then d.(year := d.year + years)
    else d.(year := d.year + years, day := 28)
  }

  /** The same month and day in the year wanted, except that a 29 February without one there
      becomes the 28th. */
  lemma PlusYearsIsThatDay(d: Day, years: int)
    ensures PlusYears(d, years).year == d.year + years && PlusYears(d, years).month == d.month
    ensures PlusYears(d, years).day == if d.month == 2 && d.day == 29 && !IsLeap(d.year + years) then 28 else d.day
  {
  }

  /** Moving two dates by the same number of years never swaps them, and merges
      them only when it folds 29 February onto the 28th of the same month. */
  lemma PlusYearsIsMonotone(a: Day, b: Day, years: int)
    requires Before(a, b)
    ensures !Before(PlusYears(b, years), PlusYears(a, years))
    ensures PlusYears(a, years) == PlusYears(b, years) <==>
            a == Date(b.year, 2, 28) && b == Date(b.year, 2, 29) && !IsLeap(b.year + years)
  {
  }
}
