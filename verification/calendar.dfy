/**
 * Whole-day calendar arithmetic in the proleptic Gregorian calendar. It stands in for
 * the date-fns helpers both pickers call: startOfMonth, endOfMonth, startOfWeek,
 * endOfWeek, eachDayOfInterval, addMonths/subMonths and isSameMonth.
 */
module Calendar {

  /** A calendar day, counted from 1970-01-01 (day 0, a Thursday). */
  type Day = int

  /** A weekday numbered as Date.getDay numbers it: 0 = Sunday, ..., 6 = Saturday. */
  type Weekday = w: int | 0 <= w < 7

  /** A month of the year numbered as Date.getMonth numbers it: 0 = January, ..., 11 = December. */
  type MonthIndex = m: int | 0 <= m < 12

  /** A calendar month, as the picker's anchor `currentMonth` and the entries of `monthsToDisplay` are used. */
  datatype Month = Month(year: int, index: MonthIndex)

  function WeekdayOf(d: Day): Weekday {
    (d + 4) % 7
  }

  predicate IsLeapYear(y: int) {
    y % 4 == 0 && (y % 100 != 0 || y % 400 == 0)
  }

  function DaysInMonth(m: Month): (n: int)
    ensures 28 <= n <= 31
    ensures n == 29 <==> m.index == 1 && IsLeapYear(m.year)
  {
    if m.index == 1 then (if IsLeapYear(m.year) then 29 else 28)
    else if m.index == 3 || m.index == 5 || m.index == 8 || m.index == 10 then 30
    else 31
  }

  /** Number of days of `m.year` before the first of `m`. */
  function DaysBeforeMonth(m: Month): int {
    var cumulative := [0, 31, 59, 90, 120, 151, 181, 212, 243, 273, 304, 334];
    cumulative[m.index] + (if m.index >= 2 && IsLeapYear(m.year) then 1 else 0)
  }

  /** Number of leap years among the years 1 .. y - 1 (for y < 1, minus the number among y .. 0). */
  function LeapYearsBefore(y: int): int {
    (y - 1) / 4 - (y - 1) / 100 + (y - 1) / 400
  }

  /** The first of January of year `y`. */
  function YearStart(y: int): Day {
    365 * (y - 1970) + LeapYearsBefore(y) - LeapYearsBefore(1970)
  }

  /** startOfMonth: the first day of `m`. */
  function FirstDay(m: Month): (f: Day)
    ensures m.index == 0 ==> f == YearStart(m.year)
    ensures YearStart(m.year) + 28 * m.index <= f <= YearStart(m.year) + 31 * m.index
  {
    YearStart(m.year) + DaysBeforeMonth(m)
  }

  /** endOfMonth: the last day of `m`. */
  function LastDay(m: Month): (l: Day)
    ensures FirstDay(m) + 27 <= l <= FirstDay(m) + 30
  {
    FirstDay(m) + DaysInMonth(m) - 1
  }

  /** The day numbered `dayOfMonth` (1-based, as Date.getDate) in month `index` of `year`. */
  function DateOf(year: int, index: MonthIndex, dayOfMonth: int): Day {
    FirstDay(Month(year, index)) + dayOfMonth - 1
  }

  /** isSameMonth(d, m): `d` lies in month `m`. */
  predicate InMonth(d: Day, m: Month) {
    FirstDay(m) <= d <= LastDay(m)
  }

  /**
   * The year `new Date(year, monthIndex, day)` builds: like the legacy two-digit years of
   * JavaScript's Date constructor, years 0 to 99 are read as 1900 to 1999.
   */
  function ConstructorYear(y: int): (r: int)
    ensures r == y || r == 1900 + y
    ensures !(0 <= r <= 99)
    ensures r != y <==> 0 <= y <= 99
  {
    if 0 <= y <= 99 then 1900 + y else y
  }

  /** A year the constructor has built is built again unchanged. */
  lemma ConstructorYearSettles(y: int)
    ensures ConstructorYear(ConstructorYear(y)) == ConstructorYear(y)
  {
  }

  /** Months counted from January of year 0. */
  function Ordinal(m: Month): int {
    12 * m.year + m.index
  }

  /** addMonths (and subMonths for negative `n`) on the month of the anchor. */
  function AddMonths(m: Month, n: int): (r: Month)
    ensures Ordinal(r) == Ordinal(m) + n
  {
    var o := Ordinal(m) + n;
    Month(o / 12, o % 12)
  }

  /** startOfWeek(d, { weekStartsOn: ws }): the latest day on or before `d` whose weekday is `ws`. */
  function StartOfWeek(d: Day, ws: Weekday): (s: Day)
    ensures WeekdayOf(s) == ws
    ensures s <= d < s + 7
  {
    var day := WeekdayOf(d);
    var diff := (if day < ws then 7 else 0) + day - ws;
    assert d + 4 == 7 * ((d + 4) / 7) + day;
    d - diff
  }

  /** endOfWeek(d, { weekStartsOn: ws }): the earliest day on or after `d` that ends a week started on `ws`. */
  function EndOfWeek(d: Day, ws: Weekday): (e: Day)
    ensures WeekdayOf(e) == (ws + 6) % 7
    ensures e - 7 < d <= e
  {
    var day := WeekdayOf(d);
    var diff := (if day < ws then -7 else 0) + 6 - (day - ws);
    assert d + 4 == 7 * ((d + 4) / 7) + day;
    d + diff
  }

  /** eachDayOfInterval({ start: a, end: b }): every day from `a` to `b`, both included, in order. */
  function EachDay(a: Day, b: Day): (days: seq<Day>)
    requires a <= b
    ensures |days| == b - a + 1
    ensures forall i :: 0 <= i < |days| ==> days[i] == a + i
  {
    seq(b - a + 1, i => a + i)
  }

  /** The days a month view shows (startOfWeek of the first to endOfWeek of the last day). */
  function VisibleDays(m: Month, ws: Weekday): (days: seq<Day>)
    ensures |days| > 0
    ensures FirstDay(m) - 7 < days[0] <= FirstDay(m)
    ensures LastDay(m) <= days[|days| - 1] < LastDay(m) + 7
  {
    EachDay(StartOfWeek(FirstDay(m), ws), EndOfWeek(LastDay(m), ws))
  }

  // ---------------------------------------------------------------------------
  // Months

  lemma OrdinalInjective(a: Month, b: Month)
    requires Ordinal(a) == Ordinal(b)
    ensures a == b
  {
  }

  /** One month forward carries into the next year after December; one month back borrows before January. */
  lemma NextAndPreviousMonth(m: Month)
    ensures AddMonths(m, 1) == if m.index == 11 then Month(m.year + 1, 0) else Month(m.year, m.index + 1)
    ensures AddMonths(m, -1) == if m.index == 0 then Month(m.year - 1, 11) else Month(m.year, m.index - 1)
  {
    var next := if m.index == 11 then Month(m.year + 1, 0) else Month(m.year, m.index + 1);
    var prev := if m.index == 0 then Month(m.year - 1, 11) else Month(m.year, m.index - 1);
    OrdinalInjective(AddMonths(m, 1), next);
    OrdinalInjective(AddMonths(m, -1), prev);
  }

  /** Shifting by `a` then by `b` months is shifting by `a + b`; in particular next and previous undo each other. */
  lemma AddMonthsCompose(m: Month, a: int, b: int)
    ensures AddMonths(AddMonths(m, a), b) == AddMonths(m, a + b)
    ensures AddMonths(m, 0) == m
  {
    OrdinalInjective(AddMonths(AddMonths(m, a), b), AddMonths(m, a + b));
    OrdinalInjective(AddMonths(m, 0), m);
  }

  // ---------------------------------------------------------------------------
  // Years and month boundaries

  lemma DivStep(x: int, k: int)
    requires k == 4 || k == 100 || k == 400
    ensures (x + 1) / k - x / k == if (x + 1) % k == 0 then 1 else 0
  {
    var q, r := x / k, x % k;
    assert x == k * q + r && 0 <= r < k;
    if r + 1 < k {
      assert x + 1 == k * q + (r + 1);
    } else {
      assert x + 1 == k * (q + 1);
    }
  }

  /** Counting leap years before `y + 1` adds one exactly when `y` is a leap year. */
  lemma LeapStep(y: int)
    ensures LeapYearsBefore(y + 1) == LeapYearsBefore(y) + if IsLeapYear(y) then 1 else 0
  {
    DivStep(y - 1, 4);
    DivStep(y - 1, 100);
    DivStep(y - 1, 400);
  }

  lemma YearLength(y: int)
    ensures YearStart(y + 1) - YearStart(y) == if IsLeapYear(y) then 366 else 365
  {
    LeapStep(y);
  }

  /** The first day of the next month follows the last day of this one, December included. */
  lemma MonthsAdjacent(m: Month)
    ensures FirstDay(AddMonths(m, 1)) == LastDay(m) + 1
  {
    NextAndPreviousMonth(m);
    var leap := if IsLeapYear(m.year) then 1 else 0;
    if m.index == 11 {
      YearLength(m.year);
      assert LastDay(m) == YearStart(m.year) + 364 + leap;
    } else {
      assert DaysBeforeMonth(Month(m.year, m.index + 1)) == DaysBeforeMonth(m) + DaysInMonth(m);
    }
  }

  /** isSameMonth agrees with the half-open span from the month's first day to the next month's first day. */
  lemma InMonthUntilNext(d: Day, m: Month)
    ensures InMonth(d, m) <==> FirstDay(m) <= d < FirstDay(AddMonths(m, 1))
  {
    MonthsAdjacent(m);
  }

  /** A later month starts after an earlier month ends. */
  lemma {:induction false} MonthsOrdered(a: Month, b: Month)
    requires Ordinal(a) < Ordinal(b)
    ensures LastDay(a) < FirstDay(b)
    decreases Ordinal(b) - Ordinal(a)
  {
    var next := AddMonths(a, 1);
    MonthsAdjacent(a);
    if Ordinal(next) < Ordinal(b) {
      MonthsOrdered(next, b);
    } else {
      OrdinalInjective(next, b);
    }
  }

  /** No day lies in two months, so InMonth names the one month a day belongs to (isSameMonth). */
  lemma MonthsDisjoint(d: Day, a: Month, b: Month)
    requires InMonth(d, a) && InMonth(d, b)
    ensures a == b
  {
    if Ordinal(a) < Ordinal(b) {
      MonthsOrdered(a, b);
    } else if Ordinal(b) < Ordinal(a) {
      MonthsOrdered(b, a);
    } else {
      OrdinalInjective(a, b);
    }
  }

  // ---------------------------------------------------------------------------
  // Weeks and the month view

  /** Two days with the same weekday are a whole number of weeks apart. */
  lemma SameWeekday(a: Day, b: Day)
    requires WeekdayOf(a) == WeekdayOf(b)
    ensures (b - a) % 7 == 0
  {
    assert a + 4 == 7 * ((a + 4) / 7) + WeekdayOf(a);
    assert b + 4 == 7 * ((b + 4) / 7) + WeekdayOf(b);
    assert b - a == 7 * ((b + 4) / 7 - (a + 4) / 7);
  }

  /** Moving on by whole weeks keeps the weekday. */
  lemma WeekdayShift(d: Day, w: int)
    ensures WeekdayOf(d + 7 * w) == WeekdayOf(d)
  {
    var q := (d + 4) / 7;
    assert d + 4 == 7 * q + WeekdayOf(d);
    assert d + 7 * w + 4 == 7 * (q + w) + WeekdayOf(d);
  }

  /** `j` days later (within a week) the weekday has advanced by `j`, wrapping after Saturday. */
  lemma WeekdayAdvance(d: Day, j: int)
    requires 0 <= j < 7
    ensures WeekdayOf(d + j) == (WeekdayOf(d) + j) % 7
  {
    var q, w := (d + 4) / 7, WeekdayOf(d);
    assert d + 4 == 7 * q + w;
    if w + j < 7 {
      assert d + j + 4 == 7 * q + (w + j);
    } else {
      assert d + j + 4 == 7 * (q + 1) + (w + j - 7);
    }
  }

  /** endOfWeek is startOfWeek plus six days. */
  lemma WeekBounds(d: Day, ws: Weekday)
    ensures EndOfWeek(d, ws) == StartOfWeek(d, ws) + 6
  {
  }

  /** Every day occurs exactly once in eachDayOfInterval of an interval containing it, and no other day occurs. */
  lemma {:induction false} EachDayOnce(a: Day, b: Day, d: Day)
    requires a <= b
    ensures multiset(EachDay(a, b))[d] == if a <= d <= b then 1 else 0
    decreases b - a
  {
    if a < b {
      EachDayOnce(a, b - 1, d);
      assert EachDay(a, b) == EachDay(a, b - 1) + [b];
    } else {
      assert EachDay(a, b) == [a];
    }
  }

  /**
   * The month view: whole weeks (a multiple of seven days, four to six weeks) starting on weekday `ws`,
   * consecutive days, holding every day of the month exactly once; days of other months pad only the
   * first and the last week.
   */
  lemma VisibleDaysShape(m: Month, ws: Weekday)
    ensures var days := VisibleDays(m, ws);
      && |days| % 7 == 0 && 28 <= |days| <= 42
      && WeekdayOf(days[0]) == ws && WeekdayOf(days[|days| - 1]) == (ws + 6) % 7
      && (forall i :: 0 <= i < |days| ==> days[i] == days[0] + i)
      && (forall d :: InMonth(d, m) ==> multiset(days)[d] == 1)
      && (forall i :: 7 <= i < |days| - 7 ==> InMonth(days[i], m))
  {
    VisibleWeeks(m, ws);
    VisibleDaysCoverMonth(m, ws);
  }

  /** The visible days are whole weeks of consecutive days, from a `ws` to the day before the next `ws`. */
  lemma VisibleWeeks(m: Month, ws: Weekday)
    ensures var days := VisibleDays(m, ws);
      && |days| % 7 == 0 && 28 <= |days| <= 42
      && WeekdayOf(days[0]) == ws && WeekdayOf(days[|days| - 1]) == (ws + 6) % 7
      && (forall i :: 0 <= i < |days| ==> days[i] == days[0] + i)
  {
    var first, last := FirstDay(m), LastDay(m);
    var s, e := StartOfWeek(first, ws), EndOfWeek(last, ws);
    WeekBounds(last, ws);
    SameWeekday(s, StartOfWeek(last, ws));
    var days := VisibleDays(m, ws);
    assert |days| == e - s + 1;
  }

  /** Every day of the month is visible exactly once, and only the first and last weeks pad. */
  lemma VisibleDaysCoverMonth(m: Month, ws: Weekday)
    ensures var days := VisibleDays(m, ws);
      && (forall d :: InMonth(d, m) ==> multiset(days)[d] == 1)
      && (forall i :: 7 <= i < |days| - 7 ==> InMonth(days[i], m))
  {
    var first, last := FirstDay(m), LastDay(m);
    var s, e := StartOfWeek(first, ws), EndOfWeek(last, ws);
    var days := VisibleDays(m, ws);
    forall d | InMonth(d, m) ensures multiset(days)[d] == 1 {
      EachDayOnce(s, e, d);
    }
  }

  /** Scenario: with weeks starting on Monday, March 2024 shows Monday 26 February to Sunday 31 March, 35 days. */
  lemma March2024FromMonday()
    ensures var days := VisibleDays(Month(2024, 2), 1);
      && |days| == 35
      && days[0] == DateOf(2024, 1, 26) && WeekdayOf(days[0]) == 1
      && days[34] == DateOf(2024, 2, 31) && WeekdayOf(days[34]) == 0
  {
    assert LeapYearsBefore(2024) == 490 && LeapYearsBefore(1970) == 477;
    assert YearStart(2024) == 19723;
    assert FirstDay(Month(2024, 1)) == 19754 && FirstDay(Month(2024, 2)) == 19783;
    assert WeekdayOf(19783) == 5 && WeekdayOf(19813) == 0;
  }
}
