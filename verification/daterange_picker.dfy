/**
 * The date-range picker of src/components/DaterangePicker.tsx: its range-selection rule,
 * the in-range/preview predicate, the month grid split into week rows, the rotated
 * weekday header, and the component state its handlers update (the `Picker` class).
 */
module DaterangePicker {
  import opened Calendar
  import opened Ranges

  // ---------------------------------------------------------------------------
  // Range selection

  /**
   * The range `handleDateClick` stores after a click on `day`: a fresh selection unless only
   * a start is set; otherwise the two clicked days, the earlier one as the start.
   */
  function Click(r: DateRange, day: Day): (r': DateRange)
    ensures Wellformed(r')
    ensures IsComplete(r') <==> IsPartial(r)
    ensures IsPartial(r) ==> r'.start == Some(Min(day, r.start.value)) && r'.end == Some(Max(day, r.start.value))
    ensures !IsPartial(r) ==> r' == DateRange(Some(day), None)
  {
    if r.start.None? || r.end.Some? then DateRange(Some(day), None)
    else if day > r.start.value then DateRange(r.start, Some(day))
    else DateRange(Some(day), r.start)
  }

  /** What `handleDateClick` passes to `onChange`: the new range when it has both bounds, otherwise no call. */
  function Notification(r': DateRange): (call: Option<DateRange>)
    ensures call.Some? <==> IsComplete(r')
    ensures call.Some? ==> call.value == r'
  {
    if r'.start.Some? && r'.end.Some? then Some(r') else None
  }

  /**
   * Two clicks that start from an empty or a complete range select the two days in
   * chronological order, whichever was clicked first; the same day twice gives a one-day range.
   */
  lemma TwoClicks(r: DateRange, a: Day, b: Day)
    requires !IsPartial(r)
    ensures Click(Click(r, a), b) == DateRange(Some(Min(a, b)), Some(Max(a, b)))
    ensures Click(Click(r, a), b) == Click(Click(r, b), a)
    ensures Click(Click(r, a), a) == DateRange(Some(a), Some(a))
  {
  }

  /** `onChange` fires on exactly the clicks that complete a started range, never on one that opens a selection. */
  lemma NotifiesOnCommitOnly(r: DateRange, day: Day)
    ensures Notification(Click(r, day)).Some? <==> IsPartial(r)
    ensures Notification(Click(r, day)).Some? ==> Notification(Click(r, day)).value.end.Some?
  {
  }

  // ---------------------------------------------------------------------------
  // Highlighting

  /** isInRange: `day` is in the committed range, or in the hover preview while only a start is set. */
  function IsInRange(r: DateRange, hover: Option<Day>, day: Day): (b: bool)
    requires Ordered(r)
    ensures b ==> r.start.Some? && r.start.value <= day
    ensures b && r.end.Some? ==> day <= r.end.value
    ensures b && r.end.None? ==> hover.Some? && r.start.value < hover.value && day <= hover.value
    ensures IsComplete(r) && r.start.value <= day <= r.end.value ==> b
  {
    if r.start.None? then false
    else if r.end.Some? then r.start.value <= day <= r.end.value
    else if hover.Some? && hover.value > r.start.value then r.start.value <= day <= hover.value
    else false
  }

  /** Nothing is highlighted without a start, and the hover matters only while the range is open. */
  lemma HighlightNeedsStart(r: DateRange, h1: Option<Day>, h2: Option<Day>, day: Day)
    requires Ordered(r)
    ensures IsInRange(r, h1, day) ==> r.start.Some? && r.start.value <= day
    ensures !IsPartial(r) ==> IsInRange(r, h1, day) == IsInRange(r, h2, day)
  {
  }

  /** Hovering on or before the start previews nothing. */
  lemma NoReversePreview(r: DateRange, hover: Day, day: Day)
    requires IsPartial(r) && hover <= r.start.value
    ensures !IsInRange(r, Some(hover), day)
  {
  }

  /**
   * The preview is faithful: while only a start is set, hovering a later day highlights exactly
   * the days a click on it then commits, whatever the hover is afterwards.
   */
  lemma PreviewMatchesCommit(r: DateRange, d: Day, after: Option<Day>, day: Day)
    requires IsPartial(r) && d > r.start.value
    ensures IsInRange(Click(r, d), after, day) == IsInRange(r, Some(d), day)
  {
  }

  /** The flags `renderCell` computes for one day of the view of month `view` (today is a parameter). */
  datatype DayCell = DayCell(
    date: Day,
    isCurrentMonth: bool,
    isToday: bool,
    isStartDate: bool,
    isEndDate: bool,
    inDateRange: bool)

  function RenderCell(day: Day, view: Month, r: DateRange, hover: Option<Day>, today: Day): (c: DayCell)
    requires Ordered(r)
    ensures c.date == day
    ensures c.inDateRange ==> r.start.Some? && r.start.value <= day
    ensures IsComplete(r) && (c.isStartDate || c.isEndDate) ==> c.inDateRange
  {
    DayCell(day, InMonth(day, view), day == today, r.start == Some(day), r.end == Some(day), IsInRange(r, hover, day))
  }

  /** The purple treatment `renderCell` picks: start cap before end cap before the in-range band. */
  datatype Shade = StartCap | EndCap | Band | Plain

  function ShadeOf(c: DayCell): (s: Shade)
    ensures s == Plain <==> !c.isStartDate && !c.isEndDate && !c.inDateRange
    ensures s == EndCap ==> !c.isStartDate
    ensures s == Band ==> c.inDateRange && !c.isStartDate && !c.isEndDate
  {
    if c.isStartDate then StartCap
    else if c.isEndDate then EndCap
    else if c.inDateRange then Band
    else Plain
  }

  /**
   * With a committed range: the start carries the start cap, the end (unless it is the start) the
   * end cap, the days strictly between them the band, and any other day nothing, whatever the hover.
   */
  lemma CommittedShades(day: Day, view: Month, r: DateRange, hover: Option<Day>, today: Day)
    requires Wellformed(r) && IsComplete(r)
    ensures ShadeOf(RenderCell(day, view, r, hover, today)) ==
      if day == r.start.value then StartCap
      else if day == r.end.value then EndCap
      else if r.start.value < day < r.end.value then Band
      else Plain
  {
  }

  /**
   * With only a start: the start carries the start cap and the preview band runs from the day
   * after it to the hovered day, and only when the hovered day is later.
   */
  lemma OpenRangeShades(day: Day, view: Month, r: DateRange, hover: Option<Day>, today: Day)
    requires IsPartial(r)
    ensures ShadeOf(RenderCell(day, view, r, hover, today)) ==
      if day == r.start.value then StartCap
      else if hover.Some? && r.start.value < day <= hover.value then Band
      else Plain
  {
  }

  // ---------------------------------------------------------------------------
  // Month grid

  const WeekDays: seq<string> := ["Su", "Mo", "Tu", "We", "Th", "Fr", "Sa"]

  /** `s` rotated left by `k`: its slice from `k` followed by its slice before `k`. */
  function Rotate<T>(s: seq<T>, k: nat): (r: seq<T>)
    requires k <= |s|
    ensures |r| == |s|
    ensures forall j :: 0 <= j < |s| - k ==> r[j] == s[k + j]
    ensures forall j :: |s| - k <= j < |s| ==> r[j] == s[k + j - |s|]
  {
    s[k..] + s[..k]
  }

  /** renderDaysOfWeek: the weekday labels rotated to begin at `weekStartsOn`. */
  function OrderedWeekDays(ws: Weekday): (labels: seq<string>)
    ensures |labels| == 7
    ensures forall j :: 0 <= j < 7 ==> labels[j] == WeekDays[(ws + j) % 7]
  {
    Rotate(WeekDays, ws)
  }

  /** The rows laid end to end. */
  function Flatten<T>(rows: seq<seq<T>>): seq<T> {
    if rows == [] then [] else rows[0] + Flatten(rows[1..])
  }

  lemma {:induction false} FlattenAppend<T>(rows: seq<seq<T>>, row: seq<T>)
    ensures Flatten(rows + [row]) == Flatten(rows) + row
  {
    if rows != [] {
      assert (rows + [row])[1..] == rows[1..] + [row];
      FlattenAppend(rows[1..], row);
    }
  }

  /** Rows of seven laid end to end: row `w`, column `j` is element `7 * w + j`. */
  lemma {:induction false} FullRows<T>(rows: seq<seq<T>>)
    requires forall w :: 0 <= w < |rows| ==> |rows[w]| == 7
    ensures |Flatten(rows)| == 7 * |rows|
    ensures forall w, j :: 0 <= w < |rows| && 0 <= j < 7 ==> Flatten(rows)[7 * w + j] == rows[w][j]
  {
    if rows != [] {
      FullRows(rows[1..]);
      forall w, j | 0 <= w < |rows| && 0 <= j < 7
        ensures Flatten(rows)[7 * w + j] == rows[w][j]
      {
        if w > 0 {
          assert rows[1..][w - 1] == rows[w];
          assert Flatten(rows)[7 * w + j] == Flatten(rows[1..])[7 * (w - 1) + j];
        }
      }
    }
  }

  /** The `while (dateRange.length > 0) weeks.push(dateRange.splice(0, 7))` loop of renderCells. */
  method SplitIntoWeeks<T>(days: seq<T>) returns (weeks: seq<seq<T>>)
    ensures Flatten(weeks) == days
    ensures forall w :: 0 <= w < |weeks| ==> 1 <= |weeks[w]| <= 7
    ensures forall w :: 0 <= w < |weeks| - 1 ==> |weeks[w]| == 7
    ensures |days| % 7 == 0 ==> forall w :: 0 <= w < |weeks| ==> |weeks[w]| == 7
  {
    var rest := days;
    weeks := [];
    while |rest| > 0
      invariant Flatten(weeks) + rest == days
      invariant forall w :: 0 <= w < |weeks| ==> 1 <= |weeks[w]| <= 7
      invariant rest != [] ==> forall w :: 0 <= w < |weeks| ==> |weeks[w]| == 7
      invariant rest != [] ==> |Flatten(weeks)| == 7 * |weeks|
      invariant forall w :: 0 <= w < |weeks| - 1 ==> |weeks[w]| == 7
      invariant |days| % 7 == 0 ==> forall w :: 0 <= w < |weeks| ==> |weeks[w]| == 7
    {
      var n := if |rest| < 7 then |rest| else 7;
      FlattenAppend(weeks, rest[..n]);
      assert |days| == 7 * |weeks| + |rest|;
      weeks := weeks + [rest[..n]];
      rest := rest[n..];
    }
  }

  /**
   * renderCells' rows for month `m`: four to six weeks of seven consecutive days, each starting
   * on weekday `ws`, holding every day of the month exactly once.
   */
  method WeekRows(m: Month, ws: Weekday) returns (weeks: seq<seq<Day>>)
    ensures 4 <= |weeks| <= 6
    ensures forall w :: 0 <= w < |weeks| ==> |weeks[w]| == 7 && WeekdayOf(weeks[w][0]) == ws
    ensures forall w, j :: 0 <= w < |weeks| && 0 <= j < 7 ==>
      weeks[w][j] == StartOfWeek(FirstDay(m), ws) + 7 * w + j
    ensures Flatten(weeks) == VisibleDays(m, ws)
    ensures forall d :: InMonth(d, m) ==> multiset(Flatten(weeks))[d] == 1
  {
    var days := VisibleDays(m, ws);
    VisibleDaysShape(m, ws);
    weeks := SplitIntoWeeks(days);
    FullRows(weeks);
    RowsOfConsecutiveDays(weeks, days[0]);
  }

  /** Rows of seven cut from consecutive days from `s`: row w, column j is `s + 7 * w + j`, and every row starts on the weekday of `s`. */
  lemma RowsOfConsecutiveDays(weeks: seq<seq<Day>>, s: Day)
    requires forall w :: 0 <= w < |weeks| ==> |weeks[w]| == 7
    requires forall i :: 0 <= i < |Flatten(weeks)| ==> Flatten(weeks)[i] == s + i
    ensures forall w, j :: 0 <= w < |weeks| && 0 <= j < 7 ==> weeks[w][j] == s + 7 * w + j
    ensures forall w :: 0 <= w < |weeks| ==> WeekdayOf(weeks[w][0]) == WeekdayOf(s)
  {
    FullRows(weeks);
    forall w | 0 <= w < |weeks|
      ensures WeekdayOf(weeks[w][0]) == WeekdayOf(s)
    {
      assert weeks[w][0] == Flatten(weeks)[7 * w + 0];
      WeekdayShift(s, w);
    }
  }

  /** The header column `j` names the weekday of column `j` of every row. */
  lemma HeaderMatchesColumns(ws: Weekday, rowStart: Day, j: int)
    requires WeekdayOf(rowStart) == ws && 0 <= j < 7
    ensures OrderedWeekDays(ws)[j] == WeekDays[WeekdayOf(rowStart + j)]
  {
    WeekdayAdvance(rowStart, j);
  }

  // ---------------------------------------------------------------------------
  // Quick-jump grids

  /**
   * renderMonthGrid: the twelve months of the shown year, January first, each built by the
   * Date constructor (so a two-digit year turns into a 1900s year).
   */
  function MonthGrid(year: int): (months: seq<Month>)
    ensures |months| == 12
    ensures forall i :: 0 <= i < 12 ==> months[i].index == i
    ensures forall m :: m in months <==> m.year == ConstructorYear(year)
  {
    var y := ConstructorYear(year);
    var months := seq(12, i requires 0 <= i < 12 => Month(y, i));
    assert forall m: Month :: m.year == y ==> months[m.index] == m;
    months
  }

  /** Scenario: the month grid of year 95, reachable through the year grid of 105, offers the months of 1995. */
  lemma TwoDigitMonthGrid()
    ensures 95 in YearGrid(105)
    ensures MonthGrid(95)[2] == Month(1995, 2)
  {
    assert YearGrid(105)[0] == 95;
  }

  /** renderYearGrid: the twelve years from ten before the shown year to the one after it. */
  function YearGrid(selectedYear: int): (years: seq<int>)
    ensures |years| == 12 && years[10] == selectedYear
    ensures forall y :: y in years <==> selectedYear - 10 <= y <= selectedYear + 1
  {
    var years := seq(12, i => selectedYear - 10 + i);
    ConsecutiveListed(years, selectedYear - 10);
    years
  }

  /** A run of consecutive integers from `lo` lists exactly the integers of its span. */
  lemma ConsecutiveListed(xs: seq<int>, lo: int)
    requires forall i :: 0 <= i < |xs| ==> xs[i] == lo + i
    ensures forall y :: y in xs <==> lo <= y < lo + |xs|
  {
    forall y | lo <= y < lo + |xs|
      ensures y in xs
    {
      assert xs[y - lo] == y;
    }
  }

  // ---------------------------------------------------------------------------
  // The component state

  class Picker {
    const numberOfMonths: nat
    const weekStartsOn: Weekday
    var currentMonth: Month
    var dateRange: DateRange
    var hoverDate: Option<Day>
    var pickerType: PickerType

    ghost predicate Valid()
      reads this
    {
      (numberOfMonths == 2 || numberOfMonths == 3) && Wellformed(dateRange)
    }

    /** The initial state; `today` is the month `new Date()` falls in. */
    constructor (initialDateRange: DateRange, numberOfMonths: nat, weekStartsOn: Weekday, today: Month)
      requires Wellformed(initialDateRange)
      requires numberOfMonths == 2 || numberOfMonths == 3
      ensures Valid()
      ensures this.numberOfMonths == numberOfMonths && this.weekStartsOn == weekStartsOn
      ensures currentMonth == today && dateRange == initialDateRange
      ensures hoverDate == None && pickerType == NoPicker
    {
      this.numberOfMonths := numberOfMonths;
      this.weekStartsOn := weekStartsOn;
      currentMonth := today;
      dateRange := initialDateRange;
      hoverDate := None;
      pickerType := NoPicker;
    }

    /** monthsToDisplay: `numberOfMonths` consecutive months starting at the anchor. */
    function MonthsToDisplay(): (months: seq<Month>)
      reads this
      ensures |months| == numberOfMonths
      ensures forall i :: 0 <= i < |months| ==> Ordinal(months[i]) == Ordinal(currentMonth) + i
    {
      var anchor := currentMonth;
      seq(numberOfMonths, i => AddMonths(anchor, i))
    }

    /** The cell of `day` is enabled: a month on show renders it as one of its own days (isSameMonth). */
    predicate Displayed(day: Day): (b: bool)
      reads this
      ensures b <==> exists i :: 0 <= i < numberOfMonths && InMonth(day, AddMonths(currentMonth, i))
    {
      var months := MonthsToDisplay();
      assert forall i :: 0 <= i < |months| ==> months[i] == AddMonths(currentMonth, i);
      exists m :: m in months && InMonth(day, m)
    }

    /** handleDateClick: update the range step by step, then report it to `onChange` if it is complete. */
    method HandleDateClick(day: Day) returns (onChange: Option<DateRange>)
      requires Valid() && Displayed(day)
      modifies this`dateRange
      ensures Valid()
      ensures dateRange == Click(old(dateRange), day)
      ensures onChange == Notification(dateRange)
      ensures onChange.Some? <==> IsPartial(old(dateRange))
    {
      var newDateRange := dateRange;
      if dateRange.start.None? || dateRange.end.Some? {
        newDateRange := newDateRange.(start := Some(day));
        newDateRange := newDateRange.(end := None);
      } else {
        if day > dateRange.start.value {
          newDateRange := newDateRange.(end := Some(day));
        } else {
          newDateRange := newDateRange.(end := newDateRange.start);
          newDateRange := newDateRange.(start := Some(day));
        }
      }
      dateRange := newDateRange;
      if newDateRange.start.Some? && newDateRange.end.Some? {
        onChange := Some(newDateRange);
      } else {
        onChange := None;
      }
    }

    /** handleMouseEnter, reachable only from an enabled cell. */
    method HandleMouseEnter(day: Day)
      requires Valid() && Displayed(day)
      modifies this`hoverDate
      ensures Valid() && hoverDate == Some(day)
    {
      hoverDate := Some(day);
    }

    /** handleMouseLeave. */
    method HandleMouseLeave()
      requires Valid()
      modifies this`hoverDate
      ensures Valid() && hoverDate == None
    {
      hoverDate := None;
    }

    /** nextMonth: the anchor moves one month on, so the shown months move one place along. */
    method NextMonth()
      requires Valid()
      modifies this`currentMonth
      ensures Valid() && currentMonth == AddMonths(old(currentMonth), 1)
      ensures forall i :: 0 <= i < numberOfMonths - 1 ==> MonthsToDisplay()[i] == old(MonthsToDisplay())[i + 1]
    {
      currentMonth := AddMonths(currentMonth, 1);
      forall i | 0 <= i < numberOfMonths - 1
        ensures AddMonths(currentMonth, i) == AddMonths(old(currentMonth), i + 1)
      {
        AddMonthsCompose(old(currentMonth), 1, i);
      }
    }

    /** prevMonth: the anchor moves one month back, so the shown months move one place back. */
    method PrevMonth()
      requires Valid()
      modifies this`currentMonth
      ensures Valid() && currentMonth == AddMonths(old(currentMonth), -1)
      ensures forall i :: 0 < i < numberOfMonths ==> MonthsToDisplay()[i] == old(MonthsToDisplay())[i - 1]
    {
      currentMonth := AddMonths(currentMonth, -1);
      forall i | 0 < i < numberOfMonths
        ensures AddMonths(currentMonth, i) == AddMonths(old(currentMonth), i - 1)
      {
        AddMonthsCompose(old(currentMonth), -1, i);
      }
    }

    /** The month label of a header: opens the month grid when none is open, otherwise closes it. */
    method ClickMonthLabel()
      requires Valid()
      modifies this`pickerType
      ensures Valid()
      ensures pickerType == if old(pickerType) == NoPicker then MonthPicker else NoPicker
    {
      if pickerType == NoPicker {
        pickerType := MonthPicker;
      } else {
        pickerType := NoPicker;
      }
    }

    /** The year label of a header: opens the year grid when none is open, otherwise closes it. */
    method ClickYearLabel()
      requires Valid()
      modifies this`pickerType
      ensures Valid()
      ensures pickerType == if old(pickerType) == NoPicker then YearPicker else NoPicker
    {
      if pickerType == NoPicker {
        pickerType := YearPicker;
      } else {
        pickerType := NoPicker;
      }
    }

    /** A month button of the month grid: the anchor becomes that month of the same year, the grid closes. */
    method PickMonth(monthDate: Month)
      requires Valid()
      requires monthDate in MonthGrid(currentMonth.year)
      modifies this`currentMonth, this`pickerType
      ensures Valid()
      ensures currentMonth == Month(ConstructorYear(old(currentMonth).year), monthDate.index)
      ensures pickerType == NoPicker
    {
      currentMonth := monthDate;
      pickerType := NoPicker;
    }

    /** A year button of the year grid: the anchor keeps its month in that year, and the month grid opens. */
    method PickYear(year: int)
      requires Valid()
      requires year in YearGrid(currentMonth.year)
      modifies this`currentMonth, this`pickerType
      ensures Valid()
      ensures currentMonth == Month(year, old(currentMonth).index)
      ensures pickerType == MonthPicker
    {
      currentMonth := Month(year, currentMonth.index);
      pickerType := MonthPicker;
    }

    /** The Clear button: both bounds become null and `onChange` receives the empty range; the hover stays. */
    method Clear() returns (onChange: DateRange)
      requires Valid()
      modifies this`dateRange
      ensures Valid() && dateRange == NoRange && onChange == NoRange
    {
      dateRange := NoRange;
      onChange := NoRange;
    }

    /**
     * renderCells: the rows of month `month`, each cell carrying renderCell's flags for the
     * current range and hover; `today` stands for `new Date()`.
     */
    method RenderCells(month: Month, today: Day) returns (weeks: seq<seq<DayCell>>)
      requires Valid()
      ensures 4 <= |weeks| <= 6
      ensures forall w :: 0 <= w < |weeks| ==> |weeks[w]| == 7
      ensures forall w, j :: 0 <= w < |weeks| && 0 <= j < 7 ==>
        weeks[w][j] == RenderCell(StartOfWeek(FirstDay(month), weekStartsOn) + 7 * w + j, month, dateRange, hoverDate, today)
      ensures forall w :: 0 <= w < |weeks| ==> WeekdayOf(weeks[w][0].date) == weekStartsOn
    {
      var rows := WeekRows(month, weekStartsOn);
      var r, h := dateRange, hoverDate;
      weeks := seq(|rows|, w requires 0 <= w < |rows| =>
        seq(|rows[w]|, j requires 0 <= j < |rows[w]| => RenderCell(rows[w][j], month, r, h, today)));
    }
  }
}
