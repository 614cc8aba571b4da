# Date-range picker: selection state machine and month grid

This project models the two React variants of a date-range picker,
`src/components/DaterangePicker.tsx` and `src/Generated.tsx`, and proves properties of the model in Dafny.
It keeps the logic under the markup:

- **Range selection.** A click opens a fresh selection when no start is set or both bounds are set. When only a start is set, a click completes the range and swaps the bounds if needed. Each variant reports the new range to `onChange` in its own way.
- **Highlighting.** `isInRange` covers the committed range and the hover preview. The flags of each day cell are derived from it.
- **Month grid.** A month is shown as the days from the week start on or before the 1st to the week end on or after the last day. `DaterangePicker.tsx` splits these days into rows of seven and rotates the weekday header. `Generated.tsx` keeps one flat, Sunday-first list.
- **Navigation and quick-jump.** This covers the anchor month (`currentMonth`), the `numberOfMonths` consecutive months on show, the previous and next arrows, and the `pickerType` mode (`null | "month" | "year"`). It includes the month and year grids that set the anchor.

Dates are whole calendar days. A day is an integer serial (0 = 1970-01-01, a Thursday) in the proleptic Gregorian calendar. Weekdays are numbered 0 = Sunday as `Date.getDay` numbers them, and months 0 = January as `Date.getMonth` numbers them. The module `Calendar` replaces the date-fns helpers with explicit arithmetic:

- `startOfMonth`/`endOfMonth` come from month lengths and a leap-year count.
- `startOfWeek`/`endOfWeek` use date-fns' own weekday offset formula.
- `eachDayOfInterval` is a consecutive run of days.
- `addMonths`/`subMonths` are arithmetic on a month ordinal.
- `isSameMonth` is membership in a month's span.

The anchor month is a `Month(year, index)` value. `currentMonth` is a whole `Date` in the source, but every use of it depends only on its month and year (see "Left out" for the one exception).

Modules:

- `Calendar` (calendar.dfy) holds the calendar arithmetic and the shape of a month view.
- `Ranges` (ranges.dfy) holds the `DateRange` record and its invariant.
- `DaterangePicker` (daterange_picker.dfy) models `src/components/DaterangePicker.tsx`.
- `Generated` (generated.dfy) models `src/Generated.tsx` and relates it to the first variant.

In both variants a class `Picker` holds the React state: `currentMonth`, `dateRange`, `hoverDate` and `pickerType`. Each handler is a method that updates only the fields it names in its `modifies` frame. For example, `Clear` leaves `hoverDate` untouched and the clicks leave the hover alone. Pure functions specify the handlers (`Click`, `IsInRange`, `VisibleDays`, `AddMonths`), and lemmas state the properties of those functions.

The UI enables a day button only for days of its own month. The click and hover methods therefore require the day to lie in one of the displayed months (`Picker.Displayed`). Both constructors require the initial range to be well formed (no end without a start, start on or before end). The component's default initial range is the empty one.

Notes on what the code does:

- `handleMouseEnter` sets the hover in every state, not only while a start is open.
- A click does not clear the hover.
- Clear clears neither the hover nor the anchor. It does call `onChange`, with both bounds null.
- The anchor starts at the month of "today" even when an initial range is given.
- The month grid builds its months with `new Date(year, i, 1)`, which reads years 0 to 99 as 1900 to 1999, while the year grid sets the year with `setFullYear`, which does not. Picking year 95 from the grid of year 105 and then March moves the anchor to March 1995.
- `DaterangePicker.tsx` shows the month and year grids on top of the calendar, so day clicks remain possible while a grid is open. In `Generated.tsx` the calendar, arrows and headers are rendered only when `pickerType` is null. The header label methods of `Generated.Picker` always open a grid, and in the rendered UI they are reached only from `null`.

The two variants compare as follows (all proved):

- The click rules store the same range from every state (`Generated.ClickRulesAgree`).
- The `isInRange` predicates differ only when the range is open, the hover is exactly on the start, and the day is the start (`Generated.InRangeVariantsDiffer`).
- The first 12 years of the 21-year grid are the other variant's 12-year grid (`Generated.YearGridsAgree`).
- With `weekStartsOn = 0`, the rows of `DaterangePicker.WeekRows` laid end to end are the same days as the flat list of `Generated.RenderCells`. Both are `Calendar.VisibleDays(m, 0)`.

## Model

| member | source | states |
|---|---|---|
| Calendar.StartOfWeek | src/components/DaterangePicker.tsx:197 | the week start is the latest day on or before the given day that falls on weekday `weekStartsOn` |
| Calendar.EndOfWeek | src/components/DaterangePicker.tsx:198 | the week end is the earliest day on or after the given day whose weekday is the one before `weekStartsOn` |
| Calendar.WeekBounds | src/components/DaterangePicker.tsx:197-198 | endOfWeek is always startOfWeek plus six days |
| Calendar.EachDay | src/components/DaterangePicker.tsx:200 | eachDayOfInterval lists every day from start to end once, in order |
| Calendar.EachDayOnce | src/components/DaterangePicker.tsx:200 | a day occurs exactly once in the enumeration if it lies in the interval, and not at all otherwise |
| Calendar.VisibleDays | src/components/DaterangePicker.tsx:195-200 | the month view is non-empty, begins less than a week before the 1st and on or before it, and ends on or after the last day and less than a week after it |
| Calendar.DaysInMonth | src/components/DaterangePicker.tsx:196 | months have 28 to 31 days, and 29 exactly for February of a leap year |
| Calendar.YearLength | src/components/DaterangePicker.tsx:196 | a year has 366 days if it is a Gregorian leap year and 365 otherwise |
| Calendar.FirstDay | src/components/DaterangePicker.tsx:195 | startOfMonth: January starts its year, and month i starts between 28i and 31i days into its year |
| Calendar.LastDay | src/components/DaterangePicker.tsx:196 | endOfMonth: the last day of a month is 27 to 30 days after its first |
| Calendar.InMonthUntilNext | src/components/DaterangePicker.tsx:252 | isSameMonth: a day is in a month exactly when it is on or after the month's first day and before the next month's first day |
| Calendar.MonthsAdjacent | src/components/DaterangePicker.tsx:195-196 | the first day of the next month follows the last day of this month, across a year end too |
| Calendar.MonthsOrdered | src/components/DaterangePicker.tsx:195-196 | a later month starts after an earlier month ends |
| Calendar.MonthsDisjoint | src/components/DaterangePicker.tsx:252 | no day lies in two months, so the isSameMonth test picks out one month |
| Calendar.AddMonths | src/components/DaterangePicker.tsx:80-86 | adding n months moves the month ordinal by exactly n |
| Calendar.NextAndPreviousMonth | src/components/DaterangePicker.tsx:80-86 | the next month after December is January of the next year; the month before January is December of the previous year |
| Calendar.AddMonthsCompose | src/Generated.tsx:193-195 | shifting by a then by b months is shifting by a + b, so next and previous undo each other |
| Calendar.ConstructorYear | src/components/DaterangePicker.tsx:91 | `new Date(year, i, 1)` keeps the year unless it is 0 to 99, which it reads as 1900 to 1999; it never builds a year 0 to 99 |
| Calendar.ConstructorYearSettles | src/components/DaterangePicker.tsx:91 | a year the Date constructor has built is built again unchanged |
| Calendar.VisibleDaysShape | src/components/DaterangePicker.tsx:194-200 | the month view is whole weeks (28 to 42 days), begins on weekday `weekStartsOn`, holds consecutive days and every day of the month exactly once, and pads only its first and last week |
| Calendar.VisibleWeeks | src/components/DaterangePicker.tsx:194-200 | the month view is 4 to 6 whole weeks of consecutive days, from a `weekStartsOn` day to the day before the next one |
| Calendar.VisibleDaysCoverMonth | src/components/DaterangePicker.tsx:194-200 | every day of the month appears exactly once in the view, and only the first and last weeks hold days of other months |
| Calendar.March2024FromMonday | src/components/DaterangePicker.tsx:194-200 | with Monday as week start, March 2024 shows Monday 26 February to Sunday 31 March, 35 days |
| DaterangePicker.Click | src/components/DaterangePicker.tsx:43-59 | a click from an empty or complete range starts a fresh selection `(day, null)`; from an open range it completes with the earlier of the two days as start and the later as end; the result never has an end without a start and never has start > end |
| DaterangePicker.Notification | src/components/DaterangePicker.tsx:62-64 | `onChange` is called, with the new range, exactly when the new range has both bounds |
| DaterangePicker.NotifiesOnCommitOnly | src/components/DaterangePicker.tsx:61-64 | `onChange` fires on exactly the clicks made while only a start is set, never on a click that opens a selection |
| DaterangePicker.TwoClicks | src/components/DaterangePicker.tsx:46-58 | two clicks from an empty or complete range give the two days in chronological order whatever the click order; the same day twice gives a one-day range |
| DaterangePicker.IsInRange | src/components/DaterangePicker.tsx:230-245 | a highlighted day is on or after the start and, with an end, on or before it; without an end it is highlighted only towards a hover strictly after the start and not past that hover; every day of a committed range is highlighted |
| DaterangePicker.HighlightNeedsStart | src/components/DaterangePicker.tsx:230-237 | nothing is in range without a start or before the start, and the hover changes nothing unless only a start is set |
| DaterangePicker.NoReversePreview | src/components/DaterangePicker.tsx:238-244 | hovering on or before the start highlights no day at all |
| DaterangePicker.PreviewMatchesCommit | src/components/DaterangePicker.tsx:230-245 | while only a start is set, hovering a later day highlights exactly the days that clicking it then commits |
| DaterangePicker.RenderCell | src/components/DaterangePicker.tsx:247-253 | the cell is for the given day; a day in range is on or after the start; the start and end cells of a committed range are in range |
| DaterangePicker.ShadeOf | src/components/DaterangePicker.tsx:267-273 | a day gets no purple exactly when it is neither a bound nor in range; the end cap never covers the start; the band only covers in-range days that are not bounds |
| DaterangePicker.CommittedShades | src/components/DaterangePicker.tsx:247-273 | with a committed range the start gets the start cap, the end gets the end cap, the days strictly between get the band, every other day gets nothing, and the hover plays no part |
| DaterangePicker.OpenRangeShades | src/components/DaterangePicker.tsx:247-273 | with only a start, the start gets the start cap and the band runs over the days after it up to a later hovered day |
| DaterangePicker.Rotate | src/components/DaterangePicker.tsx:169-172 | rotating by k keeps the length; position j holds element k + j, wrapping past the end to the front |
| DaterangePicker.OrderedWeekDays | src/components/DaterangePicker.tsx:167-172 | the header is the seven labels rotated so that column j names weekday (weekStartsOn + j) mod 7 |
| DaterangePicker.HeaderMatchesColumns | src/components/DaterangePicker.tsx:167-172 | in a row that starts on weekday `weekStartsOn`, header column j names the weekday of the day in column j |
| DaterangePicker.FlattenAppend | src/components/DaterangePicker.tsx:205 | pushing a row onto the weeks appends its days to the rows laid end to end |
| DaterangePicker.FullRows | src/components/DaterangePicker.tsx:204-206 | in rows of seven, row w, column j is day 7w + j of the enumeration |
| DaterangePicker.SplitIntoWeeks | src/components/DaterangePicker.tsx:201-206 | the splice loop loses and reorders nothing (its rows laid end to end are the input). Every row has 1 to 7 days and all but the last have 7; all have 7 when the count is a multiple of 7 |
| DaterangePicker.WeekRows | src/components/DaterangePicker.tsx:194-206 | a month has 4 to 6 rows of 7 consecutive days, each row starting on weekday `weekStartsOn`, and every day of the month appears exactly once |
| DaterangePicker.ConsecutiveListed | src/components/DaterangePicker.tsx:116-117 | a run of consecutive years lists exactly the years of its span |
| DaterangePicker.MonthGrid | src/components/DaterangePicker.tsx:88-92 | the month grid lists 12 months in calendar order, exactly the months of the year the Date constructor builds from the shown year (a year 0 to 99 becomes 1900 to 1999) |
| DaterangePicker.TwoDigitMonthGrid | src/components/DaterangePicker.tsx:88-92 | year 95 is offered by the year grid of year 105, and its month grid offers the months of 1995 |
| DaterangePicker.YearGrid | src/components/DaterangePicker.tsx:115-117 | the year grid lists 12 years, exactly those from ten before to one after the shown year, with the shown year in 11th place |
| DaterangePicker.Picker.constructor | src/components/DaterangePicker.tsx:30-41 | initial state: the given range, no hover, no quick-jump grid, the anchor at today's month |
| DaterangePicker.Picker.MonthsToDisplay | src/components/DaterangePicker.tsx:311-314 | `numberOfMonths` months on show, entry i being i months after the anchor |
| DaterangePicker.Picker.Displayed | src/components/DaterangePicker.tsx:284-287 | a day's button is enabled exactly when it lies in the month i after the anchor for some i below `numberOfMonths` |
| DaterangePicker.Picker.HandleDateClick | src/components/DaterangePicker.tsx:43-65 | the stored range becomes `Click` of the old one and keeps the range invariant. `onChange` receives the new range exactly when the click was made with only a start set. Hover, anchor and mode are untouched |
| DaterangePicker.Picker.HandleMouseEnter | src/components/DaterangePicker.tsx:72-74 | hovering an enabled day records it as the hover, in every state |
| DaterangePicker.Picker.HandleMouseLeave | src/components/DaterangePicker.tsx:76-78 | leaving a day clears the hover |
| DaterangePicker.Picker.NextMonth | src/components/DaterangePicker.tsx:80-82 | the anchor moves one month on and each shown month takes the place of its predecessor |
| DaterangePicker.Picker.PrevMonth | src/components/DaterangePicker.tsx:84-86 | the anchor moves one month back and each shown month takes the place of its successor |
| DaterangePicker.Picker.ClickMonthLabel | src/components/DaterangePicker.tsx:148-151 | the month label opens the month grid when none is open, and otherwise closes whichever is open |
| DaterangePicker.Picker.ClickYearLabel | src/components/DaterangePicker.tsx:156-159 | the year label opens the year grid when none is open, and otherwise closes whichever is open |
| DaterangePicker.Picker.PickMonth | src/components/DaterangePicker.tsx:89-107 | picking a month sets the anchor to that month of the year the Date constructor builds from the shown year, and closes the grid |
| DaterangePicker.Picker.PickYear | src/components/DaterangePicker.tsx:129-134 | picking a year keeps the anchor's month in that year and opens the month grid |
| DaterangePicker.Picker.Clear | src/components/DaterangePicker.tsx:409-412 | Clear nulls both bounds and reports the empty range; hover, anchor and mode are untouched |
| DaterangePicker.Picker.RenderCells | src/components/DaterangePicker.tsx:194-228 | 4 to 6 rows of 7 cells, each row starting on `weekStartsOn`; cell (w, j) carries renderCell's flags for day 7w + j after the week start of the 1st |
| Generated.Click | src/Generated.tsx:38-48 | the min/max rule never yields an end without a start or start > end, and completes a range exactly when only a start was set |
| Generated.ClickRulesAgree | src/Generated.tsx:44-47 | the min/max rule stores the same range as the other variant's swap rule, for every state and day |
| Generated.HoverOnStart | src/Generated.tsx:184-190 | with only a start and the hover on it, the start is highlighted and no other day |
| Generated.IsInRange | src/Generated.tsx:176-191 | a highlighted day is on or after the start and, with an end, on or before it; without an end it is highlighted only when a hover is set and the day is not past it; every day of a committed range is highlighted |
| Generated.InRangeVariantsDiffer | src/Generated.tsx:176-191 | this isInRange and the guarded one differ only when the range is open, the hover is on the start, and the day is the start |
| Generated.PreviewMatchesCommit | src/Generated.tsx:176-191 | hovering any day on or after the start highlights exactly what clicking it commits |
| Generated.RenderCell | src/Generated.tsx:150-155 | the cell is for the given day; a day in range is on or after the start; the bounds of a committed range are in range |
| Generated.RenderCells | src/Generated.tsx:140-146 | one cell per enumerated day of the Sunday-first view |
| Generated.SundayGrid | src/Generated.tsx:140-146 | the flat list is whole weeks (28 to 42 cells) running from a Sunday to a Saturday |
| Generated.SundayGridConsecutive | src/Generated.tsx:140-146 | cell i holds the day i after the first cell's, so the dates strictly increase along the list |
| Generated.SundayGridCoversMonth | src/Generated.tsx:140-167 | every day of the month has a cell, and a cell is enabled exactly when its day is in the shown month |
| Generated.YearGrid | src/Generated.tsx:85-87 | the year grid lists 21 years, exactly those within ten of the shown year, with the shown year in the middle |
| Generated.YearGridsAgree | src/Generated.tsx:85-87 | the first 12 entries of this year grid are the other variant's year grid |
| Generated.Picker.constructor | src/Generated.tsx:27-36 | initial state: the given range, no hover, no quick-jump grid, the anchor at today's month |
| Generated.Picker.MonthsToDisplay | src/Generated.tsx:193-195 | `numberOfMonths` months on show, entry i being i months after the anchor |
| Generated.Picker.Displayed | src/Generated.tsx:164-167 | a day's button is enabled exactly when it lies in the month i after the anchor for some i below `numberOfMonths` |
| Generated.Picker.HandleDateClick | src/Generated.tsx:38-51 | the stored range becomes `Click` of the old one, keeps the range invariant, and is passed to `onChange` on every click, including one that opens a selection |
| Generated.Picker.SetHoverDate | src/Generated.tsx:165 | hovering an enabled day records it as the hover |
| Generated.Picker.ClearHoverDate | src/Generated.tsx:166 | leaving a day clears the hover |
| Generated.Picker.PrevMonth | src/Generated.tsx:220 | the anchor moves one month back and the shown months shift with it |
| Generated.Picker.NextMonth | src/Generated.tsx:232 | the anchor moves one month on and the shown months shift with it |
| Generated.Picker.ClickMonthLabel | src/Generated.tsx:117 | the month label always opens the month grid; it never closes a grid |
| Generated.Picker.ClickYearLabel | src/Generated.tsx:122 | the year label always opens the year grid; it never closes a grid |
| Generated.Picker.PickMonth | src/Generated.tsx:59-77 | picking a month sets the anchor to that month of the year the Date constructor builds from the shown year, and closes the grid |
| Generated.Picker.PickYear | src/Generated.tsx:99-104 | picking a year keeps the anchor's month in that year and opens the month grid |
| Generated.Picker.Clear | src/Generated.tsx:252-255 | Clear nulls both bounds and reports the empty range; the hover is untouched |

## Left out

- Markup, CSS classes, SVG icons, the open/close toggle (`isOpen`), the Close button and the 300 ms `setTimeout` auto-close after a completed range. These are UI chrome and timers.
- The week-number label (`getWeek`) and `showWeekNumbers`. The numbering depends on date-fns options that are not visible in the source (`firstWeekContainsDate`, locale).
- `formatDisplayDate`, the month and year label texts (`format`), and the commented-out grid selection in `DaterangePicker.tsx`. These are text formatting.
- Reading the clock. `new Date()` becomes the parameter `today`: a month for the initial anchor, a day for the `isToday` flag.
- Time of day and time zones. Dates are whole calendar days, so `day > startDate` compares day numbers.
- The anchor's day of month and JavaScript `Date` roll-over. `setFullYear` on 29 February of a leap year moves the anchor to 1 March in a common year; the model keeps the month (`Picker.PickYear`). `addMonths` clamps the day of month, which does not affect the month.
- Generated.IsInRange when only a start is set and the hover is before it. The result depends on how date-fns `isWithinInterval` treats an inverted interval, which is not visible here. `PreviewDefined` excludes this case by precondition, and so `Generated.RenderCells` is modelled only for states where the hover is not before an open start.
- DaterangePicker.IsInRange with a committed range whose start is after its end. The same date-fns question arises; the constructors' range invariant rules it out.
- DaterangePicker.Picker.PickMonth, Generated.Picker.PickMonth and the other navigation methods: days, months and years are unbounded integers. JavaScript's `Date` holds only 100,000,000 days either side of 1 January 1970, and navigating past that yields an Invalid Date, which the model does not have.
- `src/App.tsx`, the demo options panel. Its duration text is millisecond arithmetic, and it passes two flags (`highlightFullWeekOnHover`, `defaultToWeekStartAndEndDates`) that the picker neither declares nor implements.
- The `numberOfMonths` default of 2 and the `weekStartsOn` default of 0 are constructor arguments rather than defaults.
