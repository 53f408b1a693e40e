/**
  Calendar arithmetic for the 2025 trading calendar: leap years, day of year, the next calendar
  day, a day count from the start of 2025, the weekday, the holiday and weekend test, the search
  for the next trading day, and the six-field summary string of a `YYYY-MM-DD` date.

  Months and days are the source's `u32` values and years its `i32` values, modelled as unbounded
  integers (no overflow is modelled). An index out of a month table, a `u32` subtraction below
  zero and a failed `unwrap` are panics in the source; here they are preconditions.
*/
module CalcTime {
  import opened Wrappers
  import Text

  datatype Date = Date(year: int, month: nat, day: nat)

  /** Month lengths of a common year and of a leap year. */
  const COMMON_MONTHS: seq<nat> := [31, 28, 31, 30, 31, 30, 31, 31, 30, 31, 30, 31]
  const LEAP_MONTHS: seq<nat> := [31, 29, 31, 30, 31, 30, 31, 31, 30, 31, 30, 31]

  /** `is_leap_year`: divisible by 4, and not by 100 unless also by 400. */
  predicate IsLeapYear(year: int) {
    year % 4 == 0 && (year % 100 != 0 || year % 400 == 0)
  }

  /** The Gregorian rule repeats every 400 years. */
  lemma LeapYearCycle(year: int)
    ensures IsLeapYear(year + 400) == IsLeapYear(year)
  {
    var q, r := year / 400, year % 400;
    assert year == 400 * q + r && 0 <= r < 400;
    assert year == 4 * (100 * q + r / 4) + r % 4 && year + 400 == 4 * (100 * q + 100 + r / 4) + r % 4;
    assert year == 100 * (4 * q + r / 100) + r % 100 && year + 400 == 100 * (4 * q + 4 + r / 100) + r % 100;
    assert year + 400 == 400 * (q + 1) + r;
  }

  lemma LeapYearExamples()
    ensures IsLeapYear(2000) && IsLeapYear(2024) && IsLeapYear(2028)
    ensures !IsLeapYear(1900) && !IsLeapYear(2025) && !IsLeapYear(2100)
  {
  }

  /** The month table chosen by `day_of_year_in_year`: only February differs in a leap year. */
  function MonthLengths(year: int): (t: seq<nat>)
    ensures |t| == 12
    ensures forall i :: 0 <= i < 12 && i != 1 ==> t[i] == COMMON_MONTHS[i]
    ensures t[1] == if IsLeapYear(year) then 29 else 28
  {
    if IsLeapYear(year) then LEAP_MONTHS else COMMON_MONTHS
  }

  /** The days of the first `k` months of a table. */
  function DaysBeforeMonth(t: seq<nat>, k: nat): nat
    requires k <= |t|
  {
    if k == 0 then 0 else DaysBeforeMonth(t, k - 1) + t[k - 1]
  }

  /** The first `k` months of a year hold at least as many days as in a common year, one more from March in a leap year. */
  lemma DaysBeforeMonthInYear(year: int, k: nat)
    requires k <= 12
    ensures DaysBeforeMonth(MonthLengths(year), k)
      == DaysBeforeMonth(COMMON_MONTHS, k) + (if IsLeapYear(year) && k >= 2 then 1 else 0)
  {
    if k > 0 {
      DaysBeforeMonthInYear(year, k - 1);
    }
  }

  /** Every month of the common table has 28 to 31 days. */
  lemma MonthLengthBounds()
    ensures forall i :: 0 <= i < 12 ==> 28 <= COMMON_MONTHS[i] <= 31
  {
  }

  /** The common table's month starts: 31 days before February, 59 before March, 334 before December, 365 in all. */
  lemma CommonDaysBeforeMonth()
    ensures DaysBeforeMonth(COMMON_MONTHS, 12) == 365
    ensures DaysBeforeMonth(COMMON_MONTHS, 11) == 334
    ensures DaysBeforeMonth(COMMON_MONTHS, 2) == 59
  {
    var t := COMMON_MONTHS;
    assert DaysBeforeMonth(t, 1) == 31;
    assert DaysBeforeMonth(t, 2) == 59;
    assert DaysBeforeMonth(t, 3) == 90;
    assert DaysBeforeMonth(t, 4) == 120;
    assert DaysBeforeMonth(t, 5) == 151;
    assert DaysBeforeMonth(t, 6) == 181;
    assert DaysBeforeMonth(t, 7) == 212;
    assert DaysBeforeMonth(t, 8) == 243;
    assert DaysBeforeMonth(t, 9) == 273;
    assert DaysBeforeMonth(t, 10) == 304;
    assert DaysBeforeMonth(t, 11) == 334;
  }

  /** A year has 365 days, or 366 in a leap year. */
  function DaysInYear(year: int): (n: nat)
    ensures n == if IsLeapYear(year) then 366 else 365
  {
    CommonDaysBeforeMonth();
    DaysBeforeMonthInYear(year, 12);
    DaysBeforeMonth(MonthLengths(year), 12)
  }

  /** A real calendar date of `year`: month 1 to 12, day from 1 to the month's length. */
  predicate ValidDate(x: Date) {
    1 <= x.month <= 12 && 1 <= x.day <= MonthLengths(x.year)[x.month - 1]
  }

  /** A date that is valid when February has 28 days, the only kind `next_day` produces. */
  predicate ValidCommonDate(x: Date) {
    1 <= x.month <= 12 && 1 <= x.day <= COMMON_MONTHS[x.month - 1]
  }

  /**
    The day of year of `day_of_year_in_year`: the day plus the lengths of the months before it in the
    year's own table. Month 13 is accepted, as in the source (its loop only reads months 1 to 12).
  */
  function DayOfYear(x: Date): nat
    requires 1 <= x.month <= 13
  {
    x.day + DaysBeforeMonth(MonthLengths(x.year), x.month - 1)
  }

  /** The day of year of a valid date lies between 1 and the length of its year. */
  lemma DayOfYearRange(x: Date)
    requires ValidDate(x)
    ensures 1 <= DayOfYear(x) <= DaysInYear(x.year)
  {
    DaysBeforeMonthInYear(x.year, x.month - 1);
    DaysBeforeMonthInYear(x.year, x.month);
    assert DaysBeforeMonth(MonthLengths(x.year), x.month)
      == DaysBeforeMonth(MonthLengths(x.year), x.month - 1) + MonthLengths(x.year)[x.month - 1];
    MonthPrefixBound(MonthLengths(x.year), x.month);
  }

  /** A prefix of the month table holds no more days than the whole table. */
  lemma {:induction false} MonthPrefixBound(t: seq<nat>, k: nat)
    requires k <= |t|
    ensures DaysBeforeMonth(t, k) <= DaysBeforeMonth(t, |t|)
    decreases |t| - k
  {
    if k < |t| {
      MonthPrefixBound(t, k + 1);
    }
  }

  /**
    `day_of_year_2025`: the day plus the common-year lengths of the months before it. The loop runs
    over months `0..month - 1`, so month 0 underflows and months above 13 index past the table.
  */
  method DayOfYear2025(month: nat, day: nat) returns (days: nat)
    requires 1 <= month <= 13
    ensures days == day + DaysBeforeMonth(COMMON_MONTHS, month - 1)
  {
    days := day;
    for m := 0 to month - 1
      invariant days == day + DaysBeforeMonth(COMMON_MONTHS, m)
    {
      days := days + COMMON_MONTHS[m];
    }
  }

  /** In 2025 the fixed table and the year's own table give the same day of year. */
  lemma DayOfYear2025Agrees(month: nat, day: nat)
    requires 1 <= month <= 13
    ensures day + DaysBeforeMonth(COMMON_MONTHS, month - 1) == DayOfYear(Date(2025, month, day))
  {
    assert MonthLengths(2025) == COMMON_MONTHS;
  }

  /** `day_of_year_in_year`: the same accumulation over the year's own month table. */
  method DayOfYearInYear(year: int, month: nat, day: nat) returns (days: nat)
    requires 1 <= month <= 13
    ensures days == DayOfYear(Date(year, month, day))
  {
    var monthsDays := if IsLeapYear(year) then LEAP_MONTHS else COMMON_MONTHS;
    days := day;
    for m := 0 to month - 1
      invariant days == day + DaysBeforeMonth(monthsDays, m)
    {
      days := days + monthsDays[m];
    }
  }

  /** The days of the years from 2025 up to, not including, `year`; none before 2026. */
  function DaysBeforeYear(year: int): nat
    decreases year - 2025
  {
    if year <= 2025 then 0 else DaysBeforeYear(year - 1) + (if IsLeapYear(year - 1) then 366 else 365)
  }

  /** The day count of `total_days_2025_base`: 2025-01-01 is day 1. */
  function TotalDays(x: Date): nat
    requires 1 <= x.month <= 13
  {
    DaysBeforeYear(x.year) + DayOfYear(x)
  }

  lemma TotalDaysStart()
    ensures TotalDays(Date(2025, 1, 1)) == 1
  {
  }

  /**
    `total_days_2025_base`: 365 or 366 for each whole year from 2025 up to `year`, then the day of
    year. For a year before 2025 the loop does not run and only the day of year counts.
  */
  method TotalDays2025Base(year: int, month: nat, day: nat) returns (total: int)
    requires 1 <= month <= 13
    ensures total == TotalDays(Date(year, month, day))
  {
    total := 0;
    var y := 2025;
    while y < year
      invariant y <= 2025 || y <= year
      invariant total == DaysBeforeYear(if y <= year then y else year)
      decreases year - y
    {
      total := total + if IsLeapYear(y) then 366 else 365;
      y := y + 1;
    }
    var inYear := DayOfYearInYear(year, month, day);
    total := total + inYear;
  }

  /** `compute_weekday`: 0 is Sunday, 6 is Saturday. */
  function ComputeWeekday(x: Date): (w: nat)
    requires 1 <= x.month <= 13
    ensures w < 7
  {
    (TotalDays(x) + 2) % 7
  }

  /** 2025 starts on a Wednesday. */
  lemma FirstWeekday()
    ensures ComputeWeekday(Date(2025, 1, 1)) == 3
  {
  }

  /** The holidays of `is_trading_day`: Jan 1, the 2025 Spring Festival (Jan 28 to Feb 4), May 1 to 5 and Oct 1. */
  predicate IsHoliday(x: Date) {
    || (x.month == 1 && x.day == 1)
    || (x.year == 2025 && ((x.month == 1 && x.day >= 28) || (x.month == 2 && x.day <= 4)))
    || (x.month == 5 && x.day <= 5)
    || (x.month == 10 && x.day == 1)
  }

  /** `is_trading_day`: neither a holiday nor a Saturday or Sunday. */
  predicate IsTradingDay(x: Date)
    requires 1 <= x.month <= 13
  {
    !IsHoliday(x) && ComputeWeekday(x) != 0 && ComputeWeekday(x) != 6
  }

  /** In January 2025 the weekday is the day of month plus two, modulo 7. */
  lemma JanuaryWeekday(d: nat)
    ensures ComputeWeekday(Date(2025, 1, d)) == (d + 2) % 7
  {
  }

  lemma TradingDayExamplesJanuary()
    ensures !IsTradingDay(Date(2025, 1, 1)) && IsTradingDay(Date(2025, 1, 2))
    ensures !IsTradingDay(Date(2025, 1, 4)) && !IsTradingDay(Date(2025, 1, 5))
  {
    JanuaryWeekday(2);
    JanuaryWeekday(4);
    JanuaryWeekday(5);
  }

  lemma TradingDayExamplesFebruary()
    ensures !IsTradingDay(Date(2025, 1, 31)) && IsTradingDay(Date(2025, 2, 5))
  {
    assert MonthLengths(2025) == COMMON_MONTHS;
    assert TotalDays(Date(2025, 2, 5)) == 36;
  }

  lemma TradingDayExamplesOctober()
    ensures !IsTradingDay(Date(2025, 10, 1)) && IsTradingDay(Date(2025, 10, 2))
  {
    assert MonthLengths(2025) == COMMON_MONTHS;
    assert DaysBeforeMonth(COMMON_MONTHS, 9) == 273;
    assert TotalDays(Date(2025, 10, 2)) == 275;
  }

  /**
    `next_day`: the following day, where a day past the month's length (February always counting 28)
    rolls to day 1 of the next month and December rolls to January of the next year.
  */
  function NextDay(x: Date): (r: Date)
    requires 1 <= x.month <= 12
    ensures 1 <= r.month <= 12
  {
    if x.day + 1 > COMMON_MONTHS[x.month - 1] then
      if x.month + 1 > 12 then Date(x.year + 1, 1, 1) else Date(x.year, x.month + 1, 1)
    else Date(x.year, x.month, x.day + 1)
  }

  /**
    The next day is a real date of a 28-day-February calendar and comes strictly later: the day
    after, or day 1 of a later month.
  */
  lemma NextDayValid(x: Date)
    requires 1 <= x.month <= 12
    ensures ValidCommonDate(NextDay(x))
    ensures var r := NextDay(x);
      r.year > x.year || (r.year == x.year && (r.month > x.month || (r.month == x.month && r.day > x.day)))
    ensures x.day + 1 <= COMMON_MONTHS[x.month - 1] ==> NextDay(x) == Date(x.year, x.month, x.day + 1)
    ensures x.day + 1 > COMMON_MONTHS[x.month - 1] ==> NextDay(x).day == 1
    ensures x.day + 1 > COMMON_MONTHS[x.month - 1] && x.month == 12 ==> NextDay(x) == Date(x.year + 1, 1, 1)
  {
  }

  /** In a common year from 2025 on, the next day of a valid date is one day later in the count. */
  lemma NextDayCount(x: Date)
    requires ValidDate(x) && !IsLeapYear(x.year) && x.year >= 2025
    ensures TotalDays(NextDay(x)) == TotalDays(x) + 1
  {
    var r := NextDay(x);
    NextDayValid(x);
    assert MonthLengths(x.year) == COMMON_MONTHS;
    if r.year != x.year {
      CommonDaysBeforeMonth();
      assert DaysBeforeYear(r.year) == DaysBeforeYear(x.year) + 365;
    }
  }

  /** From 2025 on, the next day of a valid date always comes later in the count (by two after Feb 28 of a leap year). */
  lemma NextDayIncreases(x: Date)
    requires ValidDate(x) && x.year >= 2025
    ensures TotalDays(NextDay(x)) > TotalDays(x)
    ensures ValidDate(NextDay(x))
  {
    NextDayValid(x);
    var r := NextDay(x);
    if r.year != x.year {
      NewYearCount(x);
    } else if r.month != x.month {
      NewMonthCount(x);
    } else {
      assert MonthLengths(x.year)[x.month - 1] >= COMMON_MONTHS[x.month - 1];
    }
  }

  /** Rolling from a valid Dec 31 to Jan 1 adds one day to the count. */
  lemma NewYearCount(x: Date)
    requires ValidDate(x) && x.year >= 2025 && x.month == 12 && x.day == 31
    ensures TotalDays(Date(x.year + 1, 1, 1)) == TotalDays(x) + 1
  {
    DaysBeforeMonthInYear(x.year, 11);
    CommonDaysBeforeMonth();
    assert DaysBeforeYear(x.year + 1) == DaysBeforeYear(x.year) + DaysInYear(x.year);
  }

  /** Rolling from a valid date to day 1 of the next month of the same year moves the count forward. */
  lemma NewMonthCount(x: Date)
    requires ValidDate(x) && x.month < 12
    ensures TotalDays(Date(x.year, x.month + 1, 1)) > TotalDays(x)
  {
    var t := MonthLengths(x.year);
    assert DaysBeforeMonth(t, x.month) == DaysBeforeMonth(t, x.month - 1) + t[x.month - 1];
  }

  /** `next_day` skips February 29: in 2028 the day after Feb 28 is Mar 1, two days later in the count. */
  lemma LeapDaySkipped()
    ensures NextDay(Date(2028, 2, 28)) == Date(2028, 3, 1)
    ensures TotalDays(Date(2028, 3, 1)) == TotalDays(Date(2028, 2, 28)) + 2
  {
    DaysBeforeMonthInYear(2028, 1);
    DaysBeforeMonthInYear(2028, 2);
  }

  /** The date `k` calls of `next_day` after `x`. */
  function Iterate(x: Date, k: nat): (r: Date)
    requires 1 <= x.month <= 12
    ensures 1 <= r.month <= 12
    decreases k
  {
    if k == 0 then x else NextDay(Iterate(x, k - 1))
  }

  /** A walk of `k + 1` days is one day and then a walk of `k` days. */
  lemma {:induction false} IterateFirst(x: Date, k: nat)
    requires 1 <= x.month <= 12
    ensures Iterate(x, k + 1) == Iterate(NextDay(x), k)
    decreases k
  {
    if k > 0 {
      IterateFirst(x, k - 1);
    }
  }

  lemma {:induction false} IterateAdd(x: Date, a: nat, b: nat)
    requires 1 <= x.month <= 12
    ensures Iterate(x, a + b) == Iterate(Iterate(x, a), b)
    decreases b
  {
    if b > 0 {
      IterateAdd(x, a, b - 1);
    }
  }

  /** Steps from a common-valid date to the next day 6 of a month (the date itself if it is one). */
  function StepsToSixth(v: Date): (n: nat)
    requires ValidCommonDate(v)
    ensures n <= 30
  {
    MonthLengthBounds();
    if v.day <= 6 then 6 - v.day else COMMON_MONTHS[v.month - 1] - v.day + 6
  }

  /** Walking `StepsToSixth` days lands on day 6 of some month. */
  lemma {:induction false} ReachSixth(v: Date)
    requires ValidCommonDate(v)
    ensures Iterate(v, StepsToSixth(v)).day == 6
    decreases StepsToSixth(v)
  {
    if StepsToSixth(v) > 0 {
      var w := NextDay(v);
      StepTowardSixth(v);
      IterateFirst(v, StepsToSixth(w));
      ReachSixth(w);
    }
  }

  /** A day away from a 6th, the next day is one step closer. */
  lemma StepTowardSixth(v: Date)
    requires ValidCommonDate(v) && StepsToSixth(v) > 0
    ensures ValidCommonDate(NextDay(v)) && StepsToSixth(NextDay(v)) == StepsToSixth(v) - 1
  {
    NextDayValid(v);
  }

  /** Of three consecutive day counts, at least one falls on a weekday. */
  lemma OneOfThreeWeekdays(t: nat)
    ensures || ((t + 2) % 7 != 0 && (t + 2) % 7 != 6)
            || ((t + 3) % 7 != 0 && (t + 3) % 7 != 6)
            || ((t + 4) % 7 != 0 && (t + 4) % 7 != 6)
  {
  }

  /** The walk from a 6th reaches the 7th and the 8th of the same month, one and two days later in the count. */
  lemma SixthToEighth(w: Date)
    requires 1 <= w.month <= 12 && w.day == 6
    ensures Iterate(w, 1) == Date(w.year, w.month, 7) && Iterate(w, 2) == Date(w.year, w.month, 8)
    ensures TotalDays(Iterate(w, 1)) == TotalDays(w) + 1 && TotalDays(Iterate(w, 2)) == TotalDays(w) + 2
  {
    MonthLengthBounds();
  }

  /** Of the 6th, 7th and 8th of any month, which are never holidays, one is a weekday. */
  lemma TradingNearSixth(w: Date)
    requires 1 <= w.month <= 12 && w.day == 6
    ensures IsTradingDay(w) || IsTradingDay(Iterate(w, 1)) || IsTradingDay(Iterate(w, 2))
  {
    SixthToEighth(w);
    OneOfThreeWeekdays(TotalDays(w));
    assert ComputeWeekday(Iterate(w, 1)) == (TotalDays(w) + 3) % 7;
    assert ComputeWeekday(Iterate(w, 2)) == (TotalDays(w) + 4) % 7;
  }

  /** Walking `1 + s` days and then `e` more is walking `1 + s + e` days. */
  lemma IterateThree(x: Date, s: nat, e: nat)
    requires 1 <= x.month <= 12
    ensures Iterate(x, 1 + s + e) == Iterate(Iterate(Iterate(x, 1), s), e)
  {
    IterateAdd(x, 1, s);
    IterateAdd(x, 1 + s, e);
  }

  /** From any date a trading day comes within 33 calls of `next_day`, so the search in `next_trading_day` ends. */
  lemma TradingWithin(x: Date)
    requires 1 <= x.month <= 12
    ensures exists j :: 1 <= j <= 33 && IsTradingDay(Iterate(x, j))
  {
    var v := Iterate(x, 1);
    NextDayValid(x);
    var s := StepsToSixth(v);
    ReachSixth(v);
    var w := Iterate(v, s);
    TradingNearSixth(w);
    var e := if IsTradingDay(w) then 0 else if IsTradingDay(Iterate(w, 1)) then 1 else 2;
    var y := Iterate(w, e);
    assert IsTradingDay(y);
    IterateThree(x, s, e);
    assert Iterate(x, 1 + s + e) == y;
  }

  /** None of the first `k - 1` days of the walk from `x` is a trading day. */
  ghost predicate NoTradingBefore(x: Date, k: nat)
    requires 1 <= x.month <= 12
  {
    k <= 1 || (NoTradingBefore(x, k - 1) && !IsTradingDay(Iterate(x, k - 1)))
  }

  lemma {:induction false} NoTradingBeforeMeans(x: Date, k: nat)
    requires 1 <= x.month <= 12
    requires NoTradingBefore(x, k)
    ensures forall j :: 1 <= j < k ==> !IsTradingDay(Iterate(x, j))
  {
    if k > 1 {
      NoTradingBeforeMeans(x, k - 1);
    }
  }

  lemma NotYetTrading(start: Date, n: nat, bound: nat)
    requires 1 <= start.month <= 12
    requires !IsTradingDay(Iterate(start, n)) && IsTradingDay(Iterate(start, bound))
    ensures n != bound
  {
  }

  /**
    `next_trading_day`: steps with `next_day` until a trading day; the result is the first trading
    day strictly after `start` in that walk.
  */
  method NextTradingDay(start: Date) returns (r: Date, ghost steps: nat)
    requires 1 <= start.month <= 12
    ensures steps >= 1 && r == Iterate(start, steps) && IsTradingDay(r)
    ensures forall j :: 1 <= j < steps ==> !IsTradingDay(Iterate(start, j))
  {
    TradingWithin(start);
    ghost var bound :| 1 <= bound <= 33 && IsTradingDay(Iterate(start, bound));
    var d := start;
    steps := 0;
    while true
      invariant 0 <= steps < bound
      invariant d == Iterate(start, steps)
      invariant NoTradingBefore(start, steps + 1)
      decreases bound - steps
    {
      d := NextDay(d);
      steps := steps + 1;
      if IsTradingDay(d) {
        NoTradingBeforeMeans(start, steps);
        return d, steps;
      }
      NotYetTrading(start, steps, bound);
    }
  }

  /** From 2025 on, every walk of one or more days from a valid date ends later in the count. */
  lemma {:induction false} IterateIncreases(x: Date, k: nat)
    requires ValidDate(x) && x.year >= 2025 && k >= 1
    ensures TotalDays(Iterate(x, k)) > TotalDays(x)
    decreases k
  {
    NextDayIncreases(x);
    var y := NextDay(x);
    NextDayValid(x);
    if k > 1 {
      IterateFirst(x, k - 1);
      assert y.year >= x.year;
      IterateIncreases(y, k - 1);
    }
  }

  /** `parse_date`: the first three `-`-separated parts as `i32`, `u32`, `u32`; `None` where an unwrap panics. */
  function ParseDate(s: string): (r: Option<Date>)
    ensures r.Some? ==> r.value.year >= 0
  {
    var parts := Text.Split(s, '-');
    if |parts| < 3 then None
    else
      match (Text.ParseUnsigned(parts[0], Text.I32_MAX), Text.ParseUnsigned(parts[1], Text.U32_MAX),
             Text.ParseUnsigned(parts[2], Text.U32_MAX))
      case (Some(y), Some(m), Some(d)) => Some(Date(y, m, d))
      case _ => None
  }

  /** `YYYY-MM-DD` without zero padding. */
  function FormatDate(x: Date): string
    requires x.year >= 0
  {
    Text.Join([Text.NatToString(x.year), Text.NatToString(x.month), Text.NatToString(x.day)], "-")
  }

  /** Three dash-free fields joined by dashes parse field by field. */
  lemma ParseFields(y: string, m: string, d: string)
    requires '-' !in y && '-' !in m && '-' !in d
    ensures ParseDate(Text.Join([y, m, d], "-")) ==
      match (Text.ParseUnsigned(y, Text.I32_MAX), Text.ParseUnsigned(m, Text.U32_MAX), Text.ParseUnsigned(d, Text.U32_MAX))
      case (Some(yv), Some(mv), Some(dv)) => Some(Date(yv, mv, dv))
      case _ => None
  {
    Text.SplitJoin([y, m, d], '-');
  }

  /** Parsing a printed date gives the date back. */
  lemma ParseFormatted(x: Date)
    requires 0 <= x.year <= Text.I32_MAX && x.month <= Text.U32_MAX && x.day <= Text.U32_MAX
    ensures ParseDate(FormatDate(x)) == Some(x)
  {
    NoDashInNumber(x.year);
    NoDashInNumber(x.month);
    NoDashInNumber(x.day);
    ParseFields(Text.NatToString(x.year), Text.NatToString(x.month), Text.NatToString(x.day));
    Text.ParseRendered(x.year, Text.I32_MAX);
    Text.ParseRendered(x.month, Text.U32_MAX);
    Text.ParseRendered(x.day, Text.U32_MAX);
  }

  lemma NoDashInNumber(n: nat)
    ensures '-' !in Text.NatToString(n)
  {
    var r := Text.NatToString(n);
    assert forall i :: 0 <= i < |r| ==> Text.IsDigit(r[i]);
  }

  /** The six fields of `time_info`. */
  datatype Summary = Summary(week: nat, weekday: nat, dayOfYear: nat, remaining: nat, toSpring: nat, toNextTrading: int)

  function Render(t: Summary): string {
    Text.Join([Text.NatToString(t.week), Text.NatToString(t.weekday), Text.NatToString(t.dayOfYear),
               Text.NatToString(t.remaining), Text.NatToString(t.toSpring), Text.IntToString(t.toNextTrading)], ",")
  }

  /** The rendered summary splits at its commas into exactly the six rendered fields. */
  lemma RenderSplits(t: Summary)
    ensures Text.Split(Render(t), ',') == [Text.NatToString(t.week), Text.NatToString(t.weekday),
      Text.NatToString(t.dayOfYear), Text.NatToString(t.remaining), Text.NatToString(t.toSpring),
      Text.IntToString(t.toNextTrading)]
  {
    var parts := [Text.NatToString(t.week), Text.NatToString(t.weekday), Text.NatToString(t.dayOfYear),
      Text.NatToString(t.remaining), Text.NatToString(t.toSpring), Text.IntToString(t.toNextTrading)];
    forall i | 0 <= i < |parts|
      ensures ',' !in parts[i]
    {
      var n: nat := if i == 0 then t.week else if i == 1 then t.weekday else if i == 2 then t.dayOfYear
        else if i == 3 then t.remaining else if i == 4 then t.toSpring
        else if t.toNextTrading < 0 then -t.toNextTrading else t.toNextTrading;
      NoCommaInNumber(n);
    }
    Text.SplitJoin(parts, ',');
  }

  lemma NoCommaInNumber(n: nat)
    ensures ',' !in Text.NatToString(n) && ',' !in "-" + Text.NatToString(n)
  {
    var r := Text.NatToString(n);
    assert forall i :: 0 <= i < |r| ==> Text.IsDigit(r[i]);
  }

  /** The day of year `time_info` uses: the fixed 2025 table, whatever the year. */
  function DayOfYearIn2025(x: Date): nat
    requires 1 <= x.month <= 13
  {
    x.day + DaysBeforeMonth(COMMON_MONTHS, x.month - 1)
  }

  /**
    The week number of `time_info`: week 1 holds days 1 to 5 (Wednesday to Sunday), and a new week
    starts on every Monday after that, counted modulo 52.
  */
  function WeekNumber(dayOfYear: nat): (w: nat)
    ensures w < 52
    ensures dayOfYear <= 5 ==> w == 1
  {
    if dayOfYear <= 5 then 1 else (((dayOfYear - 6) / 7 % 52) + 2) % 52
  }

  /** Past day 5 the week number goes up by one exactly on a Monday (weekday 1), and wraps from 51 to 0. */
  lemma WeekAdvancesOnMonday(d: nat)
    requires d >= 6
    ensures (d + 2) % 7 == 1 ==> WeekNumber(d) == (WeekNumber(d - 1) + 1) % 52
    ensures (d + 2) % 7 != 1 ==> WeekNumber(d) == WeekNumber(d - 1)
  {
    if d > 6 {
      WeekQuotient(d);
      if (d + 2) % 7 == 1 {
        WeekCounterStep((d - 6) / 7);
      }
    }
  }

  /** The number of whole weeks since day 6 steps up exactly on a Monday. */
  lemma WeekQuotient(d: nat)
    requires d > 6
    ensures (d + 2) % 7 == 1 ==> (d - 6) / 7 >= 1 && (d - 7) / 7 == (d - 6) / 7 - 1
    ensures (d + 2) % 7 != 1 ==> (d - 7) / 7 == (d - 6) / 7
  {
    var q, r := (d - 6) / 7, (d - 6) % 7;
    assert d - 6 == 7 * q + r && 0 <= r < 7;
    assert (d + 2) % 7 == 1 <==> r == 0;
    if r == 0 {
      assert d - 7 == 7 * (q - 1) + 6;
    } else {
      assert d - 7 == 7 * q + (r - 1);
    }
  }

  /** The week counter `(q % 52 + 2) % 52` goes up by one, modulo 52, from `q - 1` to `q`. */
  lemma WeekCounterStep(q: nat)
    requires q >= 1
    ensures (q % 52 + 2) % 52 == (((q - 1) % 52 + 2) % 52 + 1) % 52
  {
    if (q - 1) % 52 == 51 {
      assert q % 52 == 0;
    } else {
      assert q % 52 == (q - 1) % 52 + 1;
    }
  }

  /** Days 356 to 362 (Dec 22 to 28 in 2025) fall in week 0 and the last three days in week 1. */
  lemma WeekNumberAtYearEnd()
    ensures WeekNumber(355) == 51 && WeekNumber(356) == 0 && WeekNumber(362) == 0
    ensures WeekNumber(363) == 1 && WeekNumber(365) == 1
  {
  }

  /**
    The weekday field of `time_info`: counted from Wednesday, Jan 1 (day 1 gives 3), with Sunday
    written as 7 rather than 0.
  */
  function WeekdayField(dayOfYear: nat): (w: nat)
    ensures 1 <= w <= 7 && w % 7 == (dayOfYear + 2) % 7
  {
    var w := (3 + dayOfYear - 1) % 7;
    if w == 0 then 7 else w
  }

  /** The dates `time_info` handles without a panic. */
  predicate Summarizable(x: Date) {
    1 <= x.month <= 12 && DayOfYearIn2025(x) <= 365
  }

  /**
    What the six fields of `time_info` mean for a date: the day of year by the 2025 table, its week
    number and weekday, the days left in 2025, the days to Jan 29 (or to Feb 17, 2026, once Jan 29 has
    passed), and the days strictly between the date and the first trading day after it, by the day
    counts of the two dates.
  */
  ghost predicate Describes(x: Date, t: Summary)
    requires Summarizable(x)
  {
    && t.dayOfYear == DayOfYearIn2025(x)
    && t.week == WeekNumber(t.dayOfYear)
    && t.weekday == WeekdayField(t.dayOfYear)
    && t.dayOfYear + t.remaining == 365
    && (t.dayOfYear <= 29 ==> t.dayOfYear + t.toSpring == 29)
    && (t.dayOfYear > 29 ==> t.toSpring == t.remaining + 48)
    && exists steps :: (steps >= 1 && IsTradingDay(Iterate(x, steps))
      && (forall j :: 1 <= j < steps ==> !IsTradingDay(Iterate(x, j)))
      && t.toNextTrading == TotalDays(Iterate(x, steps)) - TotalDays(x) - 1)
  }

  /** The summary of `time_info` for a parsed date; the last field is never negative from 2025 on. */
  method Summarize(x: Date) returns (t: Summary)
    requires Summarizable(x)
    ensures Describes(x, t)
    ensures ValidDate(x) && x.year >= 2025 ==> t.toNextTrading >= 0
  {
    var dayOfYear := DayOfYear2025(x.month, x.day);
    var weekNum := WeekNumber(dayOfYear);
    var weekday := WeekdayField(dayOfYear);
    var remainingDays := 365 - dayOfYear;
    var daysToSpring := if dayOfYear <= 29 then 29 - dayOfYear else (365 - dayOfYear) + (31 + 17);
    var next, steps := NextTradingDay(x);
    var currentTotal := TotalDays2025Base(x.year, x.month, x.day);
    var nextTotal := TotalDays2025Base(next.year, next.month, next.day);
    var daysToNextTrading := nextTotal - currentTotal - 1;
    if ValidDate(x) && x.year >= 2025 {
      IterateIncreases(x, steps);
    }
    t := Summary(weekNum, weekday, dayOfYear, remainingDays, daysToSpring, daysToNextTrading);
  }

  /** In 2025 the summary's weekday is `compute_weekday`'s, with Sunday as 7 instead of 0. */
  lemma SummaryWeekdayAgrees(x: Date, t: Summary)
    requires Summarizable(x) && x.year == 2025
    requires t.dayOfYear == DayOfYearIn2025(x) && t.weekday == WeekdayField(t.dayOfYear)
    ensures t.weekday % 7 == ComputeWeekday(x)
  {
    DayOfYear2025Agrees(x.month, x.day);
  }

  /**
    `time_info`: parses the date and renders its summary. An unparsable date, a month outside 1 to 12
    and a day of year above 365 panic in the source and are excluded here.
  */
  method TimeInfo(time: string) returns (r: string)
    requires ParseDate(time).Some? && Summarizable(ParseDate(time).value)
    ensures exists t: Summary :: r == Render(t) && Describes(ParseDate(time).value, t)
  {
    var x := ParseDate(time).value;
    var t := Summarize(x);
    r := Render(t);
  }

  /**
    Before 2025 the day count restarts, so the last field can be negative: for 2024-12-31 the next
    trading day is 2025-01-02 and the field is 2 - 366 - 1.
  */
  lemma NegativeBefore2025()
    ensures !IsTradingDay(Iterate(Date(2024, 12, 31), 1)) && IsTradingDay(Iterate(Date(2024, 12, 31), 2))
    ensures TotalDays(Iterate(Date(2024, 12, 31), 2)) - TotalDays(Date(2024, 12, 31)) - 1 == -365
  {
    assert Iterate(Date(2024, 12, 31), 1) == Date(2025, 1, 1);
    assert Iterate(Date(2024, 12, 31), 2) == Date(2025, 1, 2);
    DaysBeforeMonthInYear(2024, 11);
    CommonDaysBeforeMonth();
  }
}
