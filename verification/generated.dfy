/**
 * The second variant of the picker, src/Generated.tsx: a min/max click rule that reports
 * every click, an in-range predicate without the "hover after start" guard, a flat
 * Sunday-first month grid, header labels that only open the quick-jump grids, and a
 * 21-year year grid.
 */
module Generated {
  import opened Calendar
  import opened Ranges
  import DaterangePicker

  // ---------------------------------------------------------------------------
  // Range selection

  /**
   * The range `handleDateClick` stores: a fresh selection unless only a start is set;
   * otherwise the later of the two days as end and the earlier as start.
   */
  function Click(r: DateRange, day: Day): (r': DateRange)
    ensures Wellformed(r')
    ensures IsComplete(r') <==> IsPartial(r)
  {
    if r.start.None? || r.end.Some? then DateRange(Some(day), None)
    else
      var end := if day > r.start.value then day else r.start.value;
      var start := if day > r.start.value then r.start.value else day;
      DateRange(Some(start), Some(end))
  }

  /** Both variants store the same range after every click, from every state. */
  lemma ClickRulesAgree(r: DateRange, day: Day)
    ensures Click(r, day) == DaterangePicker.Click(r, day)
  {
  }

  // ---------------------------------------------------------------------------
  // Highlighting

  /**
   * The states this file's isInRange is modelled for: the range is ordered, and an open range
   * is not previewed towards a hover before its start (date-fns' treatment of that inverted
   * interval is not part of this model).
   */
  predicate PreviewDefined(r: DateRange, hover: Option<Day>) {
    Ordered(r) && (IsPartial(r) && hover.Some? ==> hover.value >= r.start.value)
  }

  /** isInRange: the committed range, or while only a start is set the days from it to the hover. */
  function IsInRange(r: DateRange, hover: Option<Day>, day: Day): (b: bool)
    requires PreviewDefined(r, hover)
    ensures b ==> r.start.Some? && r.start.value <= day
    ensures b && r.end.Some? ==> day <= r.end.value
    ensures b && r.end.None? ==> hover.Some? && day <= hover.value
    ensures IsComplete(r) && r.start.value <= day <= r.end.value ==> b
  {
    if r.start.None? then false
    else if r.end.Some? then r.start.value <= day <= r.end.value
    else hover.Some? && r.start.value <= day <= hover.value
  }

  /** Hovering the start itself highlights the start and nothing else. */
  lemma HoverOnStart(r: DateRange, day: Day)
    requires IsPartial(r)
    ensures IsInRange(r, Some(r.start.value), day) <==> day == r.start.value
  {
  }

  /**
   * The two isInRange predicates differ in exactly one case: the range is open, the hover is on
   * its start, and the day is the start (highlighted here, not in the other variant).
   */
  lemma InRangeVariantsDiffer(r: DateRange, hover: Option<Day>, day: Day)
    requires PreviewDefined(r, hover)
    ensures IsInRange(r, hover, day) != DaterangePicker.IsInRange(r, hover, day) <==>
      IsPartial(r) && hover == Some(r.start.value) && day == r.start.value
  {
  }

  /**
   * Here the preview predicts the commit for every hover on or after the start, the start itself
   * included: what is highlighted while hovering `d` is what a click on `d` commits.
   */
  lemma PreviewMatchesCommit(r: DateRange, d: Day, after: Option<Day>, day: Day)
    requires IsPartial(r) && d >= r.start.value
    ensures PreviewDefined(Click(r, d), after)
    ensures IsInRange(Click(r, d), after, day) == IsInRange(r, Some(d), day)
  {
  }

  /** The flags the day buttons of `renderCells` carry. */
  datatype Cell = Cell(date: Day, isCurrentMonth: bool, isBound: bool, inRange: bool)

  function RenderCell(day: Day, view: Month, r: DateRange, hover: Option<Day>): (c: Cell)
    requires PreviewDefined(r, hover)
    ensures c.date == day
    ensures c.inRange ==> r.start.Some? && r.start.value <= day
    ensures IsComplete(r) && c.isBound ==> c.inRange
  {
    Cell(day, InMonth(day, view), r.start == Some(day) || r.end == Some(day), IsInRange(r, hover, day))
  }

  /** renderCells: the cells of the days date-fns enumerates with its default Sunday week start. */
  function RenderCells(month: Month, r: DateRange, hover: Option<Day>): (cells: seq<Cell>)
    requires PreviewDefined(r, hover)
    ensures |cells| == |VisibleDays(month, 0)|
    ensures forall i :: 0 <= i < |cells| ==> cells[i] == RenderCell(VisibleDays(month, 0)[i], month, r, hover)
  {
    var days := VisibleDays(month, 0);
    seq(|days|, i requires 0 <= i < |days| => RenderCell(days[i], month, r, hover))
  }

  /**
   * The flat grid runs from the Sunday on or before the first of the month to the Saturday on or
   * after its last day, in whole weeks (four to six of them) of consecutive, increasing days.
   */
  lemma SundayGrid(month: Month, r: DateRange, hover: Option<Day>)
    requires PreviewDefined(r, hover)
    ensures var cells := RenderCells(month, r, hover);
      && |cells| % 7 == 0 && 28 <= |cells| <= 42
      && WeekdayOf(cells[0].date) == 0 && WeekdayOf(cells[|cells| - 1].date) == 6
  {
    var days := VisibleDays(month, 0);
    var cells := RenderCells(month, r, hover);
    VisibleWeeks(month, 0);
    assert cells[0].date == days[0];
    assert cells[|cells| - 1].date == days[|days| - 1];
  }

  /** Cell `i` holds the `i`-th day after the first cell's, so dates strictly increase along the grid. */
  lemma SundayGridConsecutive(month: Month, r: DateRange, hover: Option<Day>)
    requires PreviewDefined(r, hover)
    ensures var cells := RenderCells(month, r, hover);
      && (forall i :: 0 <= i < |cells| ==> cells[i].date == cells[0].date + i)
      && (forall i, k :: 0 <= i < k < |cells| ==> cells[i].date < cells[k].date)
  {
    var s := StartOfWeek(FirstDay(month), 0);
    var cells := RenderCells(month, r, hover);
    assert cells[0].date == s;
    forall i | 0 <= i < |cells|
      ensures cells[i].date == cells[0].date + i
    {
      assert VisibleDays(month, 0)[i] == s + i;
    }
    forall i, k | 0 <= i < k < |cells|
      ensures cells[i].date < cells[k].date
    {
      assert VisibleDays(month, 0)[i] == s + i && VisibleDays(month, 0)[k] == s + k;
    }
  }

  /** Every day of the month has a cell, and the enabled cells are exactly the month's days. */
  lemma SundayGridCoversMonth(month: Month, r: DateRange, hover: Option<Day>)
    requires PreviewDefined(r, hover)
    ensures var cells := RenderCells(month, r, hover);
      && (forall d :: InMonth(d, month) ==> exists i :: 0 <= i < |cells| && cells[i].date == d)
      && (forall i :: 0 <= i < |cells| ==> (cells[i].isCurrentMonth <==> InMonth(cells[i].date, month)))
  {
    var days := VisibleDays(month, 0);
    var cells := RenderCells(month, r, hover);
    VisibleDaysCoverMonth(month, 0);
    forall d | InMonth(d, month)
      ensures exists i :: 0 <= i < |cells| && cells[i].date == d
    {
      assert multiset(days)[d] == 1;
      var i :| 0 <= i < |days| && days[i] == d;
      assert cells[i].date == d;
    }
  }

  // ---------------------------------------------------------------------------
  // Quick-jump grids

  /** renderYearGrid: the 21 years from ten before to ten after the shown year. */
  function YearGrid(selectedYear: int): (years: seq<int>)
    ensures |years| == 21 && years[10] == selectedYear
    ensures forall y :: y in years <==> selectedYear - 10 <= y <= selectedYear + 10
  {
    var years := seq(21, i => selectedYear - 10 + i);
    DaterangePicker.ConsecutiveListed(years, selectedYear - 10);
    years
  }

  /** Every year the other variant's grid lists is listed here, at the same position. */
  lemma YearGridsAgree(selectedYear: int)
    ensures YearGrid(selectedYear)[..12] == DaterangePicker.YearGrid(selectedYear)
  {
  }

  // ---------------------------------------------------------------------------
  // The component state

  class Picker {
    const numberOfMonths: nat
    var currentMonth: Month
    var dateRange: DateRange
    var hoverDate: Option<Day>
    var pickerType: PickerType

    ghost predicate Valid()
      reads this
    {
      (numberOfMonths == 2 || numberOfMonths == 3) && Wellformed(dateRange)
    }

    /** The initial state; `today` is the month `new Date()` falls in. */
    constructor (initialDateRange: DateRange, numberOfMonths: nat, today: Month)
      requires Wellformed(initialDateRange)
      requires numberOfMonths == 2 || numberOfMonths == 3
      ensures Valid() && this.numberOfMonths == numberOfMonths
      ensures currentMonth == today && dateRange == initialDateRange
      ensures hoverDate == None && pickerType == NoPicker
    {
      this.numberOfMonths := numberOfMonths;
      currentMonth := today;
      dateRange := initialDateRange;
      hoverDate := None;
      pickerType := NoPicker;
    }

    /** monthsToDisplay: `numberOfMonths` consecutive months starting at the anchor. */
    function MonthsToDisplay(): (months: seq<Month>)
      reads this
      ensures |months| == numberOfMonths
      ensures forall i :: 0 <= i < |months| ==> Ordinal(months[i]) == Ordinal(currentMonth) + i
    {
      var anchor := currentMonth;
      seq(numberOfMonths, i => AddMonths(anchor, i))
    }

    /** The button of `day` is enabled: a month on show renders it as one of its own days (isSameMonth). */
    predicate Displayed(day: Day): (b: bool)
      reads this
      ensures b <==> exists i :: 0 <= i < numberOfMonths && InMonth(day, AddMonths(currentMonth, i))
    {
      var months := MonthsToDisplay();
      assert forall i :: 0 <= i < |months| ==> months[i] == AddMonths(currentMonth, i);
      exists m :: m in months && InMonth(day, m)
    }

    /** handleDateClick: update the range field by field and report it to `onChange`, on every click. */
    method HandleDateClick(day: Day) returns (onChange: DateRange)
      requires Valid() && Displayed(day)
      modifies this`dateRange
      ensures Valid()
      ensures dateRange == Click(old(dateRange), day)
      ensures onChange == dateRange
    {
      var newDateRange := dateRange;
      if dateRange.start.None? || dateRange.end.Some? {
        newDateRange := newDateRange.(start := Some(day));
        newDateRange := newDateRange.(end := None);
      } else {
        newDateRange := newDateRange.(end := Some(if day > dateRange.start.value then day else dateRange.start.value));
        newDateRange := newDateRange.(start := Some(if day > dateRange.start.value then dateRange.start.value else day));
      }
      dateRange := newDateRange;
      onChange := newDateRange;
    }

    /** The mouse-enter handler of an enabled day button. */
    method SetHoverDate(day: Day)
      requires Valid() && Displayed(day)
      modifies this`hoverDate
      ensures Valid() && hoverDate == Some(day)
    {
      hoverDate := Some(day);
    }

    /** The mouse-leave handler of a day button. */
    method ClearHoverDate()
      requires Valid()
      modifies this`hoverDate
      ensures Valid() && hoverDate == None
    {
      hoverDate := None;
    }

    /** The left arrow: the anchor moves one month back. */
    method PrevMonth()
      requires Valid()
      modifies this`currentMonth
      ensures Valid() && currentMonth == AddMonths(old(currentMonth), -1)
      ensures forall i :: 0 < i < numberOfMonths ==> MonthsToDisplay()[i] == old(MonthsToDisplay())[i - 1]
    {
      currentMonth := AddMonths(currentMonth, -1);
      forall i | 0 < i < numberOfMonths
        ensures AddMonths(currentMonth, i) == AddMonths(old(currentMonth), i - 1)
      {
        AddMonthsCompose(old(currentMonth), -1, i);
      }
    }

    /** The right arrow: the anchor moves one month on. */
    method NextMonth()
      requires Valid()
      modifies this`currentMonth
      ensures Valid() && currentMonth == AddMonths(old(currentMonth), 1)
      ensures forall i :: 0 <= i < numberOfMonths - 1 ==> MonthsToDisplay()[i] == old(MonthsToDisplay())[i + 1]
    {
      currentMonth := AddMonths(currentMonth, 1);
      forall i | 0 <= i < numberOfMonths - 1
        ensures AddMonths(currentMonth, i) == AddMonths(old(currentMonth), i + 1)
      {
        AddMonthsCompose(old(currentMonth), 1, i);
      }
    }

    /** The month label of a header: always opens the month grid. */
    method ClickMonthLabel()
      requires Valid()
      modifies this`pickerType
      ensures Valid() && pickerType == MonthPicker
    {
      pickerType := MonthPicker;
    }

    /** The year label of a header: always opens the year grid. */
    method ClickYearLabel()
      requires Valid()
      modifies this`pickerType
      ensures Valid() && pickerType == YearPicker
    {
      pickerType := YearPicker;
    }

    /** A month button: the anchor becomes that month of the same year and the grid closes. */
    method PickMonth(monthDate: Month)
      requires Valid() && monthDate in DaterangePicker.MonthGrid(currentMonth.year)
      modifies this`currentMonth, this`pickerType
      ensures Valid()
      ensures currentMonth == Month(ConstructorYear(old(currentMonth).year), monthDate.index)
      ensures pickerType == NoPicker
    {
      currentMonth := monthDate;
      pickerType := NoPicker;
    }

    /** A year button: the anchor keeps its month in that year, and the month grid opens. */
    method PickYear(year: int)
      requires Valid() && year in YearGrid(currentMonth.year)
      modifies this`currentMonth, this`pickerType
      ensures Valid()
      ensures currentMonth == Month(year, old(currentMonth).index)
      ensures pickerType == MonthPicker
    {
      currentMonth := Month(year, currentMonth.index);
      pickerType := MonthPicker;
    }

    /** The Clear button: both bounds become null and `onChange` receives the empty range; the hover stays. */
    method Clear() returns (onChange: DateRange)
      requires Valid()
      modifies this`dateRange
      ensures Valid() && dateRange == NoRange && onChange == NoRange
    {
      dateRange := NoRange;
      onChange := NoRange;
    }
  }
}
