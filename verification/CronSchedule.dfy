/**
 The minute-by-minute search of `monitor_cron.next_run_after`.

 A minute is counted from the epoch of the ordinals: minute `t` lies on ordinal day
 `t / 1440`.  An instant is a number of microseconds on the same axis.
 */
module CronSchedule {
  import opened Common
  import opened Calendar

  /** The first minute of 1 January of year 1, before which there is no `datetime`. */
  const FIRST_MINUTE := 1440
  /** Minutes in the 366 days after which the search gives up. */
  const WINDOW := 527_040

  datatype CronSpec = CronSpec(minutes: set<int>, hours: set<int>, days: set<int>, months: set<int>, weekdays: set<int>) {

    /** All five fields must admit the minute; there is no "day or weekday" rule. */
    predicate Admits(o: int, hour: int, minute: int)
      requires o >= 1
    {
      && minute in minutes
      && hour in hours
      && DateOf(o).day in days
      && DateOf(o).month in months
      && Weekday(o) in weekdays
    }

    /** `matches` on minute `t`, split into its day, hour and minute. */
    predicate Matches(t: int) {
      t >= FIRST_MINUTE && Admits(t / 1440, t % 1440 / 60, t % 60)
    }

    /** What every successfully parsed expression satisfies. */
    ghost predicate WellFormed() {
      && minutes != {} && (forall v <- minutes :: 0 <= v <= 59)
      && hours != {} && (forall v <- hours :: 0 <= v <= 23)
      && days != {} && (forall v <- days :: 1 <= v <= 31)
      && months != {} && (forall v <- months :: 1 <= v <= 12)
      && weekdays != {} && (forall v <- weekdays :: 0 <= v <= 6)
    }

    ghost predicate EveryWeekday() {
      forall w :: 0 <= w <= 6 ==> w in weekdays
    }

    /** Some admitted month and day make a date that exists in a common year. */
    ghost predicate HasCommonDate() {
      exists m, d :: IsCommonDate(m, d)
    }

    ghost predicate IsCommonDate(m: int, d: int) {
      m in months && d in days && 1 <= m <= 12 && 1 <= d <= DaysInMonth(1, m)
    }
  }

  /** Outcome `r` of a search that starts after minute `t`: the least match of the window, if any. */
  ghost predicate IsNextRun(matches: int -> bool, t: int, r: Option<int>) {
    match r
    case Some(x) => t < x <= t + 1 + WINDOW && matches(x) && forall y :: t < y < x ==> !matches(y)
    case None => forall y :: t < y <= t + 1 + WINDOW ==> !matches(y)
  }

  /**
   `next_run_after` on a parsed expression.  The argument keeps its seconds and
   microseconds; the result is a whole minute, and `None` is the exception raised
   when the window is exhausted.
   */
  method NextRunAfter(spec: CronSpec, after: int) returns (r: Option<int>)
    requires after >= 1440 * 60_000_000
    ensures IsNextRun(spec.Matches, after / 60_000_000, r)
    ensures r.Some? ==> after < r.value * 60_000_000 <= after + 60_000_000 + 366 * 24 * 60 * 60_000_000
    ensures r.None? ==> forall y :: after < y * 60_000_000 <= after + 366 * 24 * 60 * 60_000_000 ==> !spec.Matches(y)
    ensures r.Some? ==> forall y :: y < r.value && spec.Matches(y) ==> y * 60_000_000 <= after
  {
    var cursor := after / 60_000_000 + 1;
    var maxCursor := cursor + WINDOW;
    ghost var start := cursor;
    while cursor <= maxCursor
      invariant start <= cursor <= maxCursor + 1
      invariant forall y :: start <= y < cursor ==> !spec.Matches(y)
    {
      if spec.Matches(cursor) {
        return Some(cursor);
      }
      cursor := cursor + 1;
    }
    return None;
  }

  /** The search has only one possible answer. */
  lemma NextRunUnique(matches: int -> bool, t: int, a: Option<int>, b: Option<int>)
    requires IsNextRun(matches, t, a) && IsNextRun(matches, t, b)
    ensures a == b
  {
  }

  /** `runs` is what calling the search again and again from `t` returns. */
  ghost predicate Iterates(matches: int -> bool, t: int, runs: seq<int>)
    decreases |runs|
  {
    runs == [] || (IsNextRun(matches, t, Some(runs[0])) && Iterates(matches, runs[0], runs[1..]))
  }

  /** The minutes that the iteration returns increase strictly. */
  lemma {:induction false} IterationIncreases(matches: int -> bool, t: int, runs: seq<int>)
    requires Iterates(matches, t, runs)
    ensures forall i :: 0 <= i < |runs| ==> t < runs[i]
    ensures forall i, j :: 0 <= i < j < |runs| ==> runs[i] < runs[j]
    decreases |runs|
  {
    if runs != [] {
      IterationIncreases(matches, runs[0], runs[1..]);
      assert forall i :: 0 < i < |runs| ==> runs[i] == runs[1..][i - 1];
    }
  }

  /** Iterating the search lists exactly the matching minutes, none skipped. */
  lemma {:induction false} IterationEnumeratesMatches(matches: int -> bool, t: int, runs: seq<int>, x: int)
    requires Iterates(matches, t, runs) && runs != [] && t < x <= runs[|runs| - 1]
    ensures matches(x) <==> x in runs
    decreases |runs|
  {
    var rest := runs[1..];
    assert runs == [runs[0]] + rest;
    IterationIncreases(matches, runs[0], rest);
    if x > runs[0] {
      IterationEnumeratesMatches(matches, runs[0], rest, x);
    }
  }

  /** A minute written as day, hour and minute matches exactly when all five fields admit them. */
  lemma MatchesDay(spec: CronSpec, o: int, hour: int, minute: int, t: int)
    requires o >= 1 && 0 <= hour <= 23 && 0 <= minute <= 59 && t == o * 1440 + (hour * 60 + minute)
    ensures spec.Matches(t) <==> spec.Admits(o, hour, minute)
  {
    SplitMinute(o, hour, minute, t);
  }

  /** The minute `h:m` of a calendar date matches exactly when each of the five fields admits its part. */
  lemma MatchesFields(spec: CronSpec, d: Date, h: int, m: int, t: int)
    requires Valid(d) && d.year >= 1 && 0 <= h <= 23 && 0 <= m <= 59 && t == Ordinal(d) * 1440 + (h * 60 + m)
    ensures spec.Matches(t) <==>
            && m in spec.minutes
            && h in spec.hours
            && d.day in spec.days
            && d.month in spec.months
            && Weekday(Ordinal(d)) in spec.weekdays
  {
    DateOfOrdinal(d);
    MatchesDay(spec, Ordinal(d), h, m, t);
  }

  lemma SplitMinute(o: int, hour: int, minute: int, t: int)
    requires 0 <= hour <= 23 && 0 <= minute <= 59 && t == o * 1440 + (hour * 60 + minute)
    ensures t / 1440 == o && t % 1440 / 60 == hour && t % 60 == minute
  {
    DayPart(o, hour * 60 + minute, t);
    MinutePart(hour, minute, hour * 60 + minute);
    MinutePart(o * 24 + hour, minute, t);
  }

  lemma DayPart(o: int, k: int, t: int)
    requires 0 <= k < 1440 && t == o * 1440 + k
    ensures t / 1440 == o && t % 1440 == k
  {
  }

  lemma MinutePart(q: int, minute: int, t: int)
    requires 0 <= minute <= 59 && t == q * 60 + minute
    ensures t / 60 == q && t % 60 == minute
  {
  }

  /** A common-year date comes round again after 365 or 366 days. */
  lemma AnniversaryGap(y: int, m: int, d: int)
    requires 1 <= m <= 12 && 1 <= d <= DaysInMonth(1, m)
    ensures Valid(Date(y, m, d)) && Valid(Date(y + 1, m, d))
    ensures 365 <= Ordinal(Date(y + 1, m, d)) - Ordinal(Date(y, m, d)) <= 366
  {
    YearLength(y);
  }

  /** The days of the current and the next year, seen from day `n`, that carry the given month and day. */
  lemma Anniversaries(n: int, m: int, d: int) returns (now: int, next: int)
    requires n >= 1 && 1 <= m <= 12 && 1 <= d <= DaysInMonth(1, m)
    ensures 1 <= now <= n + 365 && n < next <= now + 366
    ensures IsDay(now, m, d) && IsDay(next, m, d)
  {
    var y := YearOf(n);
    AnniversaryGap(y, m, d);
    now := YearDay(y, m, d);
    next := YearDay(y + 1, m, d);
  }

  lemma YearOf(n: int) returns (y: int)
    requires n >= 1
    ensures y >= 1 && DaysBeforeYear(y) < n <= DaysBeforeYear(y + 1) <= DaysBeforeYear(y) + 366
  {
    y := DateOf(n).year;
    OrdinalOfDate(n);
    OrdinalInYear(DateOf(n));
    YearLength(y);
  }

  lemma YearDay(y: int, m: int, d: int) returns (o: int)
    requires y >= 1 && 1 <= m <= 12 && 1 <= d <= DaysInMonth(1, m)
    ensures Valid(Date(y, m, d)) && o == Ordinal(Date(y, m, d)) && IsDay(o, m, d)
    ensures DaysBeforeYear(y) < o <= DaysBeforeYear(y + 1)
  {
    o := Ordinal(Date(y, m, d));
    OrdinalInYear(Date(y, m, d));
    DaysBeforeYearNonNegative(y);
    DayOfDate(y, m, d);
  }

  /** Day `o` falls on day `d` of month `m`. */
  ghost predicate IsDay(o: int, m: int, d: int) {
    o >= 1 && DateOf(o).month == m && DateOf(o).day == d
  }

  lemma DayOfDate(y: int, m: int, d: int)
    requires Valid(Date(y, m, d)) && Ordinal(Date(y, m, d)) >= 1
    ensures IsDay(Ordinal(Date(y, m, d)), m, d)
  {
    DateOfOrdinal(Date(y, m, d));
  }

  /** The first anniversary whose `k`-th minute is after `t` lies in the window. */
  lemma AnniversaryInWindow(t: int, m: int, d: int, k: int) returns (o: int)
    requires t + 1 >= FIRST_MINUTE && 1 <= m <= 12 && 1 <= d <= DaysInMonth(1, m) && 0 <= k < 1440
    ensures IsDay(o, m, d) && t < o * 1440 + k <= t + 1 + WINDOW
  {
    var now, next := Anniversaries((t + 1) / 1440, m, d);
    o := if now * 1440 + k > t then now else next;
  }

  /** From any start there is a match inside the window when an admitted date exists in common years. */
  lemma MatchInWindow(spec: CronSpec, t: int) returns (x: int)
    requires spec.WellFormed() && spec.EveryWeekday() && spec.HasCommonDate() && t + 1 >= FIRST_MINUTE
    ensures t < x <= t + 1 + WINDOW && spec.Matches(x)
  {
    var m, d :| spec.IsCommonDate(m, d);
    var hour := Pick(spec.hours);
    var minute := Pick(spec.minutes);
    var o := AnniversaryInWindow(t, m, d, hour * 60 + minute);
    x := o * 1440 + (hour * 60 + minute);
    MatchesDay(spec, o, hour, minute, x);
  }

  /** `next_run_after` never raises for such an expression. */
  lemma OrdinaryExpressionNeverRaises(spec: CronSpec, t: int, r: Option<int>)
    requires spec.WellFormed() && spec.EveryWeekday() && spec.HasCommonDate()
    requires t + 1 >= FIRST_MINUTE && IsNextRun(spec.Matches, t, r)
    ensures r.Some?
  {
    var x := MatchInWindow(spec, t);
  }

  const MARCH_2001 := Date(2001, 3, 1)

  /** Without a common-year date the search raises from 1 March 2001: the window holds no 29 February. */
  lemma NoCommonDateRaises(spec: CronSpec, r: Option<int>)
    requires !spec.HasCommonDate()
    requires IsNextRun(spec.Matches, Ordinal(MARCH_2001) * 1440, r)
    ensures r == None
  {
    if r.Some? {
      var n := r.value / 1440;
      var d := DateOf(n);
      OrdinalOfDate(n);
      OrdinalInYear(d);
      if d.year < 2001 { YearsAscend(d.year, 2001); }
      if d.year > 2002 { YearsAscend(2002, d.year); }
      assert d.day <= DaysInMonth(1, d.month);
      assert spec.IsCommonDate(d.month, d.day);
    }
  }

  /** The search always has an outcome. */
  lemma SearchOutcome(matches: int -> bool, t: int) returns (r: Option<int>)
    ensures IsNextRun(matches, t, r)
  {
    var x := t + 1;
    while x <= t + 1 + WINDOW
      invariant t < x <= t + 2 + WINDOW
      invariant forall y :: t < y < x ==> !matches(y)
    {
      if matches(x) { return Some(x); }
      x := x + 1;
    }
    return None;
  }

  /** The search finds a run from every start. */
  ghost predicate NeverRaises(matches: int -> bool) {
    forall t, r :: t + 1 >= FIRST_MINUTE && IsNextRun(matches, t, r) ==> r.Some?
  }

  /** Exactly the expressions with a common-year date run from every start. */
  lemma RunsFromEveryStart(spec: CronSpec)
    requires spec.WellFormed() && spec.EveryWeekday()
    ensures spec.HasCommonDate() <==> NeverRaises(spec.Matches)
  {
    if spec.HasCommonDate() {
      forall t, r | t + 1 >= FIRST_MINUTE && IsNextRun(spec.Matches, t, r) ensures r.Some? {
        OrdinaryExpressionNeverRaises(spec, t, r);
      }
    } else {
      var t := Ordinal(MARCH_2001) * 1440;
      var r := SearchOutcome(spec.Matches, t);
      NoCommonDateRaises(spec, r);
    }
  }

  /** A schedule that never raises eventually returns every one of its future matches. */
  lemma {:induction false} EveryMatchIsReached(matches: int -> bool, t: int, x: int) returns (runs: seq<int>)
    requires NeverRaises(matches) && t + 1 >= FIRST_MINUTE && t < x && matches(x)
    ensures 0 < |runs| <= x - t && Iterates(matches, t, runs) && runs[|runs| - 1] == x
    decreases x - t
  {
    var r := SearchOutcome(matches, t);
    runs := [r.value];
    if r.value != x {
      var rest := EveryMatchIsReached(matches, r.value, x);
      runs := runs + rest;
      assert runs[1..] == rest;
    }
  }

  // ---- expressions that restrict the weekday ----

  /** The first day from `o` on that falls on weekday `w`. */
  function FirstWeekday(o: int, w: int): int {
    o + (w - Weekday(o)) % 7
  }

  lemma FirstWeekdayFalls(o: int, w: int)
    requires 0 <= w <= 6
    ensures o <= FirstWeekday(o, w) <= o + 6 && Weekday(FirstWeekday(o, w)) == w
    ensures forall k :: Weekday(FirstWeekday(o, w) + 7 * k) == w
  {
  }

  /** Nine days in a row hold a day of weekday `w` at most 364 days before the first one of the next year's nine. */
  lemma WeekdayGap(now: int, next: int, w: int)
    requires 0 <= w <= 6 && 365 <= next - now <= 366
    ensures var last := if FirstWeekday(now, w) <= now + 1 then FirstWeekday(now, w) + 7 else FirstWeekday(now, w);
            FirstWeekday(next, w) <= last + 364
  {
  }

  /** Days `d` to `d + 8` of month `m` exist in common years and are all admitted. */
  ghost predicate AdmitsNineDays(spec: CronSpec, m: int, d: int) {
    m in spec.months && 1 <= m <= 12 && 1 <= d && d + 8 <= DaysInMonth(1, m) && forall k :: d <= k <= d + 8 ==> k in spec.days
  }

  /** Day `o` is one of the nine days from day `d` of month `m` on. */
  ghost predicate FallsIn(o: int, m: int, d: int) {
    o >= 1 && DateOf(o).month == m && d <= DateOf(o).day <= d + 8
  }

  /** The nine days of the year of day `n` and of the next year, given by their first days. */
  lemma NineDayBlocks(n: int, m: int, d: int) returns (now: int, next: int)
    requires n >= 1 && 1 <= m <= 12 && 1 <= d && d + 8 <= DaysInMonth(1, m)
    ensures now <= n + 357 && n < next && 365 <= next - now <= 366
    ensures forall o :: now <= o <= now + 8 || next <= o <= next + 8 ==> FallsIn(o, m, d)
  {
    var y := YearOf(n);
    AnniversaryGap(y, m, d);
    now := YearBlock(y, m, d);
    next := YearBlock(y + 1, m, d);
  }

  lemma YearBlock(y: int, m: int, d: int) returns (first: int)
    requires y >= 1 && 1 <= m <= 12 && 1 <= d && d + 8 <= DaysInMonth(1, m)
    ensures Valid(Date(y, m, d)) && first == Ordinal(Date(y, m, d)) && DaysBeforeYear(y) < first && first + 8 <= DaysBeforeYear(y + 1)
    ensures forall o :: first <= o <= first + 8 ==> FallsIn(o, m, d)
  {
    first := YearDay(y, m, d);
    var last := YearDay(y, m, d + 8);
    forall o | first <= o <= first + 8 ensures FallsIn(o, m, d) {
      DayInBlock(y, m, d, o - first, o);
    }
  }

  lemma DayInBlock(y: int, m: int, d: int, j: int, o: int)
    requires y >= 1 && 1 <= m <= 12 && 1 <= d && d + 8 <= DaysInMonth(1, m) && 0 <= j <= 8
    requires Valid(Date(y, m, d)) && o == Ordinal(Date(y, m, d)) + j
    ensures FallsIn(o, m, d)
  {
    var o' := YearDay(y, m, d + j);
    assert o' == o;
  }

  /** The day of weekday `w` among those nine days whose `k`-th minute is the first after `t`. */
  lemma WeekdayInWindow(t: int, now: int, next: int, w: int, k: int) returns (o: int)
    requires t + 1 >= FIRST_MINUTE && 0 <= w <= 6 && 0 <= k < 1440
    requires var n := (t + 1) / 1440; now <= n + 357 && n < next && 365 <= next - now <= 366
    ensures (now <= o <= now + 8 || next <= o <= next + 8) && Weekday(o) == w && t < o * 1440 + k <= t + 1 + WINDOW
  {
    FirstWeekdayFalls(now, w);
    FirstWeekdayFalls(next, w);
    WeekdayGap(now, next, w);
    o := FirstWeekday(now, w);
    assert Weekday(o + 7 * 1) == w;
    if o * 1440 + k <= t {
      if o <= now + 1 && (o + 7) * 1440 + k > t { o := o + 7; } else { o := FirstWeekday(next, w); }
    }
  }

  /** Nine consecutive days of one month are enough: whatever weekdays the expression admits, it runs from every start. */
  lemma NineDaysNeverRaise(spec: CronSpec, m: int, d: int)
    requires spec.WellFormed() && AdmitsNineDays(spec, m, d)
    ensures NeverRaises(spec.Matches)
  {
    forall t, r | t + 1 >= FIRST_MINUTE && IsNextRun(spec.Matches, t, r) ensures r.Some? {
      var x := NineDaysMatch(spec, m, d, t);
    }
  }

  /** A day that all three date fields admit, with its `k`-th minute inside the window. */
  lemma NineDaysDay(spec: CronSpec, m: int, d: int, t: int, k: int) returns (o: int)
    requires spec.WellFormed() && AdmitsNineDays(spec, m, d) && t + 1 >= FIRST_MINUTE && 0 <= k < 1440
    ensures o >= 1 && DateOf(o).day in spec.days && DateOf(o).month in spec.months && Weekday(o) in spec.weekdays
    ensures t < o * 1440 + k <= t + 1 + WINDOW
  {
    var w := Pick(spec.weekdays);
    var now, next := NineDayBlocks((t + 1) / 1440, m, d);
    o := WeekdayInWindow(t, now, next, w, k);
    assert FallsIn(o, m, d);
  }

  lemma NineDaysMatch(spec: CronSpec, m: int, d: int, t: int) returns (x: int)
    requires spec.WellFormed() && AdmitsNineDays(spec, m, d) && t + 1 >= FIRST_MINUTE
    ensures t < x <= t + 1 + WINDOW && spec.Matches(x)
  {
    var hour := Pick(spec.hours);
    var minute := Pick(spec.minutes);
    var o := NineDaysDay(spec, m, d, t, hour * 60 + minute);
    x := o * 1440 + (hour * 60 + minute);
    MatchesDay(spec, o, hour, minute, x);
  }

  /** Midnight on the Tuesdays among the first eight days of January. */
  const EIGHT_DAYS := CronSpec({0}, {0}, {1, 2, 3, 4, 5, 6, 7, 8}, {1}, {1})

  /** The ordinal of Tuesday 2 January 2024. */
  const TUESDAY := 738887

  /** In the 366 days from that Tuesday on, no other of those Tuesdays follows. */
  lemma LoneTuesday(d: Date)
    requires Valid(d) && d.month == 1 && d.day <= 8
    requires TUESDAY <= Ordinal(d) <= TUESDAY + 366 && Weekday(Ordinal(d)) == 1
    ensures Ordinal(d) == TUESDAY
  {
    OrdinalInYear(d);
    assert DaysBeforeYear(2024) == 738885 && DaysBeforeYear(2025) == 739251;
    if d.year < 2024 { YearsAscend(d.year, 2024); }
    if d.year > 2025 { YearsAscend(2025, d.year); }
  }

  lemma EightDaysMatch(x: int)
    ensures EIGHT_DAYS.Matches(x) ==>
              && x % 1440 / 60 == 0 && x % 60 == 0 && x / 1440 >= 1
              && DateOf(x / 1440).month == 1 && DateOf(x / 1440).day <= 8 && Weekday(x / 1440) == 1
  {
  }

  lemma WholeDay(x: int)
    requires x % 1440 / 60 == 0 && x % 60 == 0
    ensures x == x / 1440 * 1440
  {
    assert x % 1440 < 60;
    assert x == 60 * (x / 1440 * 24) + x % 1440;
  }

  /** Eight are not enough: after Tuesday 2 January 2024 the next such Tuesday is 7 January 2025, outside the window. */
  lemma EightDaysRaise(t: int, r: Option<int>)
    requires t == TUESDAY * 1440 && IsNextRun(EIGHT_DAYS.Matches, t, r)
    ensures r == None
  {
    if r.Some? {
      var x := r.value;
      EightDaysMatch(x);
      WholeDay(x);
      OrdinalOfDate(x / 1440);
      LoneTuesday(DateOf(x / 1440));
    }
  }

  /** So nine cannot be lowered to eight. */
  lemma EightDaysCanRaise()
    ensures EIGHT_DAYS.WellFormed() && !NeverRaises(EIGHT_DAYS.Matches)
  {
    assert 0 in EIGHT_DAYS.minutes && 0 in EIGHT_DAYS.hours && 1 in EIGHT_DAYS.days && 1 in EIGHT_DAYS.months && 1 in EIGHT_DAYS.weekdays;
    var t := TUESDAY * 1440;
    var r := SearchOutcome(EIGHT_DAYS.Matches, t);
    EightDaysRaise(t, r);
  }

  // ---- a daily expression ----

  /** One minute of the day, on every date. */
  ghost predicate Daily(spec: CronSpec, h: int, m: int) {
    && 0 <= h <= 23 && 0 <= m <= 59 && spec.minutes == {m} && spec.hours == {h}
    && (forall v :: 1 <= v <= 31 ==> v in spec.days) && (forall v :: 1 <= v <= 12 ==> v in spec.months)
    && spec.EveryWeekday()
  }

  /** Such an expression matches exactly the minutes at that time of day. */
  lemma DailyMatches(spec: CronSpec, h: int, m: int, t: int)
    requires Daily(spec, h, m) && t >= FIRST_MINUTE
    ensures spec.Matches(t) <==> t % 1440 == h * 60 + m
  {
    TimeOfDay(t);
    OrdinalOfDate(t / 1440);
    var hour, minute := t % 1440 / 60, t % 60;
    DailyAdmits(spec, h, m, DateOf(t / 1440), hour, minute, t);
    SameTime(hour, minute, h, m);
  }

  lemma DailyAdmits(spec: CronSpec, h: int, m: int, d: Date, hour: int, minute: int, t: int)
    requires Daily(spec, h, m) && Valid(d) && d.year >= 1 && 0 <= hour <= 23 && 0 <= minute <= 59
    requires t == Ordinal(d) * 1440 + (hour * 60 + minute)
    ensures spec.Matches(t) <==> hour == h && minute == m
  {
    MatchesFields(spec, d, hour, minute, t);
  }

  lemma SameTime(hour: int, minute: int, h: int, m: int)
    requires 0 <= minute <= 59 && 0 <= m <= 59
    ensures hour * 60 + minute == h * 60 + m <==> hour == h && minute == m
  {
  }

  lemma TimeOfDay(t: int)
    ensures 0 <= t % 1440 / 60 <= 23 && 0 <= t % 60 <= 59 && t % 1440 == t % 1440 / 60 * 60 + t % 60
    ensures t == t / 1440 * 1440 + (t % 1440 / 60 * 60 + t % 60)
  {
    assert t % 1440 % 60 == t % 60 by { assert t == 60 * (t / 1440 * 24) + t % 1440; }
  }

  /** It runs at the next time of that description: on the day of the start if it is still to come, otherwise on the next. */
  lemma DailyRunsNext(spec: CronSpec, h: int, m: int, t: int, r: Option<int>)
    requires Daily(spec, h, m) && t + 1 >= FIRST_MINUTE && IsNextRun(spec.Matches, t, r)
    ensures r == Some((if t % 1440 < h * 60 + m then t / 1440 else t / 1440 + 1) * 1440 + (h * 60 + m))
  {
    var day := if t % 1440 < h * 60 + m then t / 1440 else t / 1440 + 1;
    FirstAtTime(spec, h, m, t, day * 1440 + (h * 60 + m));
    NextRunUnique(spec.Matches, t, r, Some(day * 1440 + (h * 60 + m)));
  }

  lemma FirstAtTime(spec: CronSpec, h: int, m: int, t: int, x: int)
    requires Daily(spec, h, m) && t + 1 >= FIRST_MINUTE
    requires x == (if t % 1440 < h * 60 + m then t / 1440 else t / 1440 + 1) * 1440 + (h * 60 + m)
    ensures IsNextRun(spec.Matches, t, Some(x))
  {
    NextAtTime(t, h * 60 + m, x);
    DailyMatches(spec, h, m, x);
    forall y | t < y < x ensures !spec.Matches(y) {
      DailyMatches(spec, h, m, y);
    }
  }

  lemma NextAtTime(t: int, k: int, x: int)
    requires 0 <= k < 1440 && x == (if t % 1440 < k then t / 1440 else t / 1440 + 1) * 1440 + k
    ensures t < x <= t + 1440 && x % 1440 == k
    ensures forall y :: t < y < x ==> y % 1440 != k
  {
  }
}
