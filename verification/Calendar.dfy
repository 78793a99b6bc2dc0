/**
 The proleptic Gregorian calendar that Python's `datetime` counts with: ordinal 1
 is Monday, 1 January of year 1.  `Ordinal` and `DateOf` are proved to be inverse.
 */
module Calendar {

  datatype Date = Date(year: int, month: int, day: int)

  predicate IsLeap(y: int) {
    y % 4 == 0 && (y % 100 != 0 || y % 400 == 0)
  }

  function DaysInMonth(y: int, m: int): int
    requires 1 <= m <= 12
  {
    if m == 2 then (if IsLeap(y) then 29 else 28)
    else if m == 4 || m == 6 || m == 9 || m == 11 then 30
    else 31
  }

  /** Days of a common year that precede month `m`. */
  function CommonDaysBefore(m: int): int
    requires 1 <= m <= 12
  {
    if m == 1 then 0 else if m == 2 then 31 else if m == 3 then 59
    else if m == 4 then 90 else if m == 5 then 120 else if m == 6 then 151
    else if m == 7 then 181 else if m == 8 then 212 else if m == 9 then 243
    else if m == 10 then 273 else if m == 11 then 304 else 334
  }

  function DaysBeforeMonth(y: int, m: int): int
    requires 1 <= m <= 12
  {
    CommonDaysBefore(m) + if m > 2 && IsLeap(y) then 1 else 0
  }

  function DaysBeforeYear(y: int): int {
    var p := y - 1;
    p * 365 + p / 4 - p / 100 + p / 400
  }

  function DaysInYear(y: int): int {
    if IsLeap(y) then 366 else 365
  }

  predicate Valid(d: Date) {
    1 <= d.month <= 12 && 1 <= d.day <= DaysInMonth(d.year, d.month)
  }

  function Ordinal(d: Date): int
    requires Valid(d)
  {
    DaysBeforeYear(d.year) + DaysBeforeMonth(d.year, d.month) + d.day
  }

  /** Monday is 0 and Sunday is 6, as in `date.weekday()`. */
  function Weekday(n: int): int {
    (n + 6) % 7
  }

  /** Weekdays follow each other, and 1 January 2024 was a Monday. */
  lemma WeekdayCycle(n: int)
    ensures Weekday(n + 1) == (Weekday(n) + 1) % 7
    ensures Weekday(Ordinal(Date(2024, 1, 1))) == 0
  {
  }

  lemma YearLength(y: int)
    ensures DaysBeforeYear(y + 1) == DaysBeforeYear(y) + DaysInYear(y)
  {
    assert y / 4 - (y - 1) / 4 == if y % 4 == 0 then 1 else 0;
    assert y / 100 - (y - 1) / 100 == if y % 100 == 0 then 1 else 0;
    assert y / 400 - (y - 1) / 400 == if y % 400 == 0 then 1 else 0;
  }

  lemma YearsAscend(a: int, b: int)
    requires a < b
    ensures DaysBeforeYear(a + 1) <= DaysBeforeYear(b)
  {
  }

  /** The year of ordinal `n`, searched upward from `y`. */
  function YearFrom(n: int, y: int): (r: int)
    requires DaysBeforeYear(y) < n
    ensures y <= r
    decreases n - DaysBeforeYear(y)
  {
    YearLength(y);
    if n <= DaysBeforeYear(y + 1) then y else YearFrom(n, y + 1)
  }

  lemma {:induction false} YearFound(n: int, y: int)
    requires DaysBeforeYear(y) < n
    ensures DaysBeforeYear(YearFrom(n, y)) < n <= DaysBeforeYear(YearFrom(n, y) + 1)
    decreases n - DaysBeforeYear(y)
  {
    YearLength(y);
    if n > DaysBeforeYear(y + 1) { YearFound(n, y + 1); }
  }

  /** The month holding day `k` of year `y`, searched upward from month `m`. */
  function MonthFrom(y: int, k: int, m: int): (r: int)
    requires 1 <= m <= 12
    ensures m <= r <= 12
    decreases 12 - m
  {
    if m == 12 || k <= DaysBeforeMonth(y, m) + DaysInMonth(y, m) then m else MonthFrom(y, k, m + 1)
  }

  lemma {:induction false} MonthFound(y: int, k: int, m: int)
    requires 1 <= m <= 12 && DaysBeforeMonth(y, m) < k <= DaysInYear(y)
    ensures var r := MonthFrom(y, k, m);
            DaysBeforeMonth(y, r) < k <= DaysBeforeMonth(y, r) + DaysInMonth(y, r)
    decreases 12 - m
  {
    if k > DaysBeforeMonth(y, m) + DaysInMonth(y, m) { MonthFound(y, k, m + 1); }
  }

  /** The date of ordinal `n`; `OrdinalOfDate` says that it is the right one. */
  function DateOf(n: int): (d: Date)
    requires n >= 1
    ensures d.year >= 1 && 1 <= d.month <= 12
  {
    var y := YearFrom(n, 1);
    var k := n - DaysBeforeYear(y);
    var m := MonthFrom(y, k, 1);
    Date(y, m, k - DaysBeforeMonth(y, m))
  }

  lemma OrdinalOfDate(n: int)
    requires n >= 1
    ensures Valid(DateOf(n)) && Ordinal(DateOf(n)) == n
  {
    var y := YearFrom(n, 1);
    YearFound(n, 1);
    YearLength(y);
    MonthFound(y, n - DaysBeforeYear(y), 1);
  }

  lemma MonthsAscend(y: int, a: int, b: int)
    requires 1 <= a < b <= 12
    ensures DaysBeforeMonth(y, a) + DaysInMonth(y, a) <= DaysBeforeMonth(y, b)
  {
  }

  lemma OrdinalInYear(d: Date)
    requires Valid(d)
    ensures DaysBeforeYear(d.year) < Ordinal(d) <= DaysBeforeYear(d.year + 1)
  {
    YearLength(d.year);
  }

  /** Two calendar dates with one ordinal are the same date. */
  lemma OrdinalInjective(a: Date, b: Date)
    requires Valid(a) && Valid(b)
    ensures Ordinal(a) == Ordinal(b) ==> a == b
  {
    OrdinalInYear(a);
    OrdinalInYear(b);
    if a.year < b.year { YearsAscend(a.year, b.year); }
    if b.year < a.year { YearsAscend(b.year, a.year); }
    if a.month < b.month { MonthsAscend(a.year, a.month, b.month); }
    if b.month < a.month { MonthsAscend(a.year, b.month, a.month); }
  }

  lemma DaysBeforeYearNonNegative(y: int)
    requires y >= 1
    ensures DaysBeforeYear(y) >= 0
  {
  }

  /** Reading the date back from its ordinal gives the same date. */
  lemma DateOfOrdinal(d: Date)
    requires Valid(d) && d.year >= 1
    ensures Ordinal(d) >= 1 && DateOf(Ordinal(d)) == d
  {
    DaysBeforeYearNonNegative(d.year);
    OrdinalOfDate(Ordinal(d));
    OrdinalInjective(DateOf(Ordinal(d)), d);
  }

  /** `today.replace(day=1)`. */
  function FirstOfMonth(today: int): (r: int)
    requires today >= 1
    ensures 1 <= r <= today
  {
    var d := DateOf(today);
    OrdinalOfDate(today);
    DateOfOrdinal(Date(d.year, d.month, 1));
    Ordinal(Date(d.year, d.month, 1))
  }

  /** It is the first day of the month of `today`. */
  lemma FirstOfMonthIsFirst(today: int)
    requires today >= 1
    ensures DateOf(FirstOfMonth(today)) == Date(DateOf(today).year, DateOf(today).month, 1)
  {
    DateOfOrdinal(Date(DateOf(today).year, DateOf(today).month, 1));
  }

  /** `(year, month)`, the pair that `strftime("%Y-%m")` prints. */
  function MonthKey(n: int): (int, int)
    requires n >= 1
  {
    (DateOf(n).year, DateOf(n).month)
  }

  /** A date not after `t` lies in the month of `t` exactly when it is not before the first of that month. */
  lemma InMonthIff(d: Date, t: Date)
    requires Valid(d) && Valid(t) && Ordinal(d) <= Ordinal(t)
    ensures d.year == t.year && d.month == t.month <==> Ordinal(Date(t.year, t.month, 1)) <= Ordinal(d)
  {
    if Ordinal(Date(t.year, t.month, 1)) <= Ordinal(d) {
      OrdinalInjective(d, Date(t.year, t.month, t.day - (Ordinal(t) - Ordinal(d))));
    }
  }

  /** A day not after today lies in today's month exactly when it is not before its first day. */
  lemma SameMonth(a: int, today: int)
    requires 1 <= a <= today
    ensures MonthKey(a) == MonthKey(today) <==> FirstOfMonth(today) <= a
  {
    OrdinalOfDate(today);
    OrdinalOfDate(a);
    InMonthIff(DateOf(a), DateOf(today));
  }
}
