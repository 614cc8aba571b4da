/**
 * The state both pickers share: a range whose bounds may each be absent (null), and which
 * quick-jump grid is open.
 */
module Ranges {
  import opened Calendar

  datatype Option<T> = None | Some(value: T)

  /** The `DateRange` record: `startDate` and `endDate`, each a day or null. */
  datatype DateRange = DateRange(start: Option<Day>, end: Option<Day>)

  /** The range the Clear button stores and reports. */
  const NoRange := DateRange(None, None)

  /** Both bounds present and in order (date-fns refuses an inverted interval). */
  predicate Ordered(r: DateRange) {
    r.start.Some? && r.end.Some? ==> r.start.value <= r.end.value
  }

  /** The range invariant: never an end without a start, and start <= end when both are set. */
  predicate Wellformed(r: DateRange) {
    (r.end.Some? ==> r.start.Some?) && Ordered(r)
  }

  /** The `pickerType` state: no quick-jump grid, the month grid, or the year grid. */
  datatype PickerType = NoPicker | MonthPicker | YearPicker

  /** A start has been picked and the end is still open. */
  predicate IsPartial(r: DateRange) {
    r.start.Some? && r.end.None?
  }

  /** Both bounds are set. */
  predicate IsComplete(r: DateRange) {
    r.start.Some? && r.end.Some?
  }

  function Min(a: int, b: int): int {
    if a <= b then a else b
  }

  function Max(a: int, b: int): int {
    if a <= b then b else a
  }
}
