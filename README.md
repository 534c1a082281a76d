# Month grid of the reminder calendar image

This project models how the Discord bot's calendar renderer
(`calendar_generator.js`, `createCalendarImage`) lays out a Gregorian month.
It covers the projection only, not the pixels drawn:

- **Month shape.** `firstDay` is `new Date(year, month - 1, 1).getDay()`.
  `daysInMonth` is `new Date(year, month, 0).getDate()`, i.e. day 0 of the next
  month. Both are modelled by the day arithmetic that ECMA-262 prescribes for
  `Date` (section 21.4.1: DayFromYear, DaysInYear/InLeapYear, the month
  thresholds behind MonthFromTime/DateFromTime, WeekDay, MakeDay). The
  day-overflow rule of the `Date` constructor is modelled too, and so is the
  MakeFullYear rule that reads years 0 to 99 as 1900 to 1999.
- **Placement.** The helper `getGridPosition` computes JavaScript's `%` (a
  truncating remainder) and `Math.floor` over a grid of `cols` columns. The day
  loop repeats that computation inline for `dayIndex = firstDay + day - 1`, on a
  7-column, 6-row grid of 110 x 90 pixel cells. The grid's top-left corner is
  at (50, 140), in an image 840 pixels wide and 140 + 90 * 6 + 60 pixels high.
- **Annotation.** Each day gets the number of reminders dated on that day and
  a flag for today. These choose the cell style: today first, then "has
  reminders", otherwise plain. A badge is drawn exactly when the count is
  positive.

Modules:

- `Gregorian` (gregorian.dfy): the calendar arithmetic and day-overflow
  normalisation. Lemmas show that normalisation gives the unique valid date
  with the given day number, and that day 0 of a month is the last day of the
  month before.
- `Grid` (grid.dfy): `getGridPosition` and JavaScript's remainder.
- `MonthCalendar` (month_calendar.dfy): reminders, day cells and the day loop.
  The loop is the method `LayoutMonth`; each pass of its body is `DayCell`.
  Both are proved against the function `CellOf`, and the lemmas give the
  grid, weekday, injectivity, bounds and partition facts.

Reminders enter the model already decoded to a local civil date, which is what
`getFullYear`, `getMonth() + 1` and `getDate` return. The current date
("today") is a parameter.

The loop does not demand anything of `year` and `month`, and the model does
not either. A month outside 1..12 is normalised by MakeDay, and no validly
dated reminder (month in 1..12, day within its month) matches it. A year from
0 to 99 is laid out as 1900 + year (see `TwoDigitYearExample`), but reminders
are matched against the year as given. Only year 0 changes its month lengths
that way (it is a leap year and 1900 is not), so the lemmas about month
lengths and reminder totals require 1 <= month <= 12 and year != 0. The lemma
that names a day's weekday through the civil date requires a year outside
0..99, because there the grid's weekdays are those of 1900 + year.

## Model

| member | source | states |
|---|---|---|
| Gregorian.DaysInYear | calendar_generator.js:79 | A year has 366 days exactly when it is a Gregorian leap year, and 365 otherwise |
| Gregorian.DaysBeforeMonth | calendar_generator.js:79 | The month thresholds of a year lie between 0 and the year's length, and reach it only at the start of the next year |
| Gregorian.DaysInMonth | calendar_generator.js:79 | Every month has between 28 and 31 days |
| Gregorian.WeekDay | calendar_generator.js:78 | A weekday is in 0..6 |
| Gregorian.DayOfWeek | calendar_generator.js:66 | The weekday of a civil date is in 0..6, with 0 for Sunday, the first header column |
| Gregorian.MakeFullYear | calendar_generator.js:78-79 | The full year the Date constructor uses is never itself in 0..99, and keeps the year's last two digits |
| Gregorian.FullYearLeap | calendar_generator.js:78-79 | Reading a year as a full year keeps whether it is a leap year, for every year except 0 |
| Gregorian.MakeDayYearShift | calendar_generator.js:78-79 | MakeDay lets the month index overflow into the year: twelve months more is the same day one year later |
| Gregorian.YearOfDay | calendar_generator.js:79 | A day number lies between January 1 of one year and the next for only one year |
| Gregorian.DayFromYearStep | calendar_generator.js:79 | From one January 1 to the next there are exactly DaysInYear days |
| Gregorian.DayFromYearMonotone | calendar_generator.js:79 | January 1 of a later year has a day number at least 365 days per year larger |
| Gregorian.NextMonth | calendar_generator.js:79 | The next month starts exactly one month length after this one, with December rolling into January of the next year |
| Gregorian.PrevMonth | calendar_generator.js:79 | The previous month starts exactly its own length before this one, with January rolling back into December of the previous year |
| Gregorian.Borrow | calendar_generator.js:79 | Counting a day of 0 or less back into earlier months gives a valid date with the same day number |
| Gregorian.Carry | calendar_generator.js:79 | Counting a day past the month's end on into later months gives a valid date with the same day number |
| Gregorian.Normalize | calendar_generator.js:79 | The Date constructor's MakeDay step (after MakeFullYear, so `new Date(y, m0, d)` itself for y outside 0..99) denotes a valid civil date whose day number is MakeDay(y, m0, d), for any month and day |
| Gregorian.DayNumberInYear | calendar_generator.js:79 | A valid date's day number lies between its own January 1 and the next one |
| Gregorian.MonthOrder | calendar_generator.js:79 | Within a year, every day of an earlier month comes before the first day of a later month |
| Gregorian.SameDayNumberSameYear | calendar_generator.js:79 | Valid dates with equal day numbers are in the same year |
| Gregorian.DayNumberInjective | calendar_generator.js:79 | Valid dates with equal day numbers are the same date, so decoding a day number is unique |
| Gregorian.NormalizeIsDecoding | calendar_generator.js:79 | Normalize returns the one valid date whose day number is MakeDay's result, as getFullYear/getMonth/getDate decode it |
| Gregorian.NormalizeInRange | calendar_generator.js:78 | A date inside its month is left unchanged by normalisation, and MakeDay gives its day number |
| Gregorian.LastDayOfMonth | calendar_generator.js:79 | Day 0 of the month after `month` 1..12 in year y is the last day of `month` in year y, December included; this is `new Date(year, month, 0)` after MakeFullYear turns `year` into y |
| Gregorian.DayZeroIsLastDayOfPreviousMonth | calendar_generator.js:79 | Day 0 of month index m0 is the last day of the month before, including the rollback from January to December |
| Gregorian.DaysInMonthTable | calendar_generator.js:79 | Months 1, 3, 5, 7, 8, 10 and 12 have 31 days; months 4, 6, 9 and 11 have 30; February has 29 days exactly in leap years and 28 otherwise |
| Grid.JsRem | calendar_generator.js:28 | JavaScript's `%`: the remainder lies strictly between -b and b and has the dividend's sign, with `a == trunc(a / b) * b + r` |
| Grid.GridPosition | calendar_generator.js:27-34 | For index >= 0 and non-negative cell sizes, x lies between startX and the start of the last column, and y is at or below startY; the first `cols` indices fill the first row from left to right |
| Grid.GridDecomposition | calendar_generator.js:27-34 | For index >= 0 the column is in [0, cols), the row is >= 0, and `row * cols + col == index` |
| Grid.CellDeterminesIndex | calendar_generator.js:27-34 | Two non-negative indices with the same (col, row) are equal |
| Grid.GridPositionInjective | calendar_generator.js:27-34 | With positive cell sizes, distinct non-negative indices get distinct pixel positions |
| MonthCalendar.FirstDay | calendar_generator.js:78 | `firstDay` is in 0..6 |
| MonthCalendar.MonthLength | calendar_generator.js:79 | `daysInMonth` (day 0 of the next month) is the length of `month` in the full year, which is its length in `year` itself unless year is 0; always in 28..31 |
| MonthCalendar.MonthLengthTable | calendar_generator.js:79 | For every year but 0, the grid's month lengths: 31/30 days by month, and February 29 days exactly in leap years, else 28 |
| MonthCalendar.DatedOn | calendar_generator.js:91-96 | A reminder matches a day exactly when its due date is that civil date; a validly dated reminder only matches a day of month 1..12 within the month's length |
| MonthCalendar.ReminderCount | calendar_generator.js:91-96 | The count is at most the number of reminders, and is zero exactly when no reminder is dated that day |
| MonthCalendar.InMonth | calendar_generator.js:91-96 | The reminders of a month are no more than the reminders, and each is dated in that year and month |
| MonthCalendar.InMonthMultiplicity | calendar_generator.js:91-96 | Each reminder dated in the month occurs in the month's reminders as often as in the input; no other reminder occurs there |
| MonthCalendar.CellOf | calendar_generator.js:83-88 | The loop's inline pixel position of a day equals `getGridPosition(firstDay + day - 1, 50, 140, 110, 90, 7)` |
| MonthCalendar.LayoutMonth | calendar_generator.js:82-142 | The loop makes one cell per day 1..daysInMonth, in order; every cell is inside the 7 x 6 grid and no two days share a cell; cell counts sum to the sum of day counts, and, when every reminder is validly dated, month is in 1..12 and year is not 0, to the number of reminders dated in the month |
| MonthCalendar.DayCell | calendar_generator.js:83-111 | One pass of the loop body builds the day's cell: column in 0..6 and row in 0..5, the column is the weekday of the day, today exactly on today's date, style today first, then "has reminders" exactly when not today and the count is positive, badge exactly when some reminder is dated that day |
| MonthCalendar.LaidOutMonth | calendar_generator.js:82-88 | A whole month of cells stays inside the 7 x 6 grid, and distinct days occupy distinct cells |
| MonthCalendar.CellInGrid | calendar_generator.js:82-88 | Every day from 1 to 31, and so every day of any month, has column in 0..6 and row in 0..5, so a month fits the 6-row grid; (row, col) is the row-major position of `firstDay + day - 1` |
| MonthCalendar.CellColumnIsWeekday | calendar_generator.js:78-84 | A day's column is the weekday of that date, 0 = Sunday |
| MonthCalendar.FirstDayAdvances | calendar_generator.js:78-84 | `(firstDay + day - 1) % 7`, the column of `day`, is the weekday of the date the Date constructor builds for that day |
| MonthCalendar.WeekDayAdvances | calendar_generator.js:83-84 | Counting k days on from the weekday of day t, modulo 7, gives the weekday of day t + k |
| MonthCalendar.CellsDistinct | calendar_generator.js:82-88 | Distinct days of a month occupy distinct (col, row) cells and distinct pixel positions |
| MonthCalendar.CellInsideImage | calendar_generator.js:87-132 | Each cell rectangle `[x+4, x+106] x [y+4, y+86]` lies inside the 840-pixel-wide image, below the header and above the footer, and the badge disc lies inside the rectangle |
| MonthCalendar.CellStyleChoice | calendar_generator.js:98-129 | A day is today iff it is today's date. Style: today iff today; "has reminders" iff not today and count > 0; plain otherwise. Badge iff some reminder is dated that day |
| MonthCalendar.OtherMonthsDoNotCount | calendar_generator.js:91-96 | Reminders dated in other months or years never change a day's count |
| MonthCalendar.ReminderCountAppend | calendar_generator.js:91-96 | The count over two concatenated reminder lists is the sum of the counts |
| MonthCalendar.DatedUpToStep | calendar_generator.js:91-96 | Extending the day range by one day adds exactly that day's count |
| MonthCalendar.CountsUpToIsDatedUpTo | calendar_generator.js:91-96 | Summing the day counts of days 1..n counts each reminder dated on one of those days exactly once |
| MonthCalendar.DatedUpToNone | calendar_generator.js:91-96 | No reminder is dated on a day range that ends before day 1 |
| MonthCalendar.DatedUpToWholeMonth | calendar_generator.js:91-96 | Every validly dated reminder of the month falls on one of its days 1..DaysInMonth |
| MonthCalendar.MonthCountsPartition | calendar_generator.js:91-96 | When every reminder is validly dated, month is in 1..12 and year is not 0, the day counts over days 1..daysInMonth sum to the number of reminders dated in that month |
| MonthCalendar.February2024Length | calendar_generator.js:79 | February 2024 has 29 days |
| MonthCalendar.February2024FirstDay | calendar_generator.js:78 | February 2024 starts on a Thursday |
| MonthCalendar.CenturyLeapExamples | calendar_generator.js:79 | February has 28 days in 2023 and 1900 and 29 days in 2000 |
| MonthCalendar.January2025Example | calendar_generator.js:78-79 | January 2025 has 31 days and starts on a Wednesday |
| MonthCalendar.TwoDigitYearExample | calendar_generator.js:78-79 | Year 0 is a leap year, yet the grid for February of year 0 has 28 days, because it is laid out as 1900 |

## Left out

- Font loading (`loadFont`, `PImage.registerFont`, `opentype.load`, the `fontLoaded` flag): file I/O and Promise callbacks.
- All canvas drawing: fill and stroke calls, colours, font strings, text alignment, and the floating-point `arc` of the badge. Only the integer cell geometry, the badge's bounding box and the style choice are kept.
- `getCalendarImageStream`: stream plumbing and PNG encoding, done in a library that is not part of this model.
- Decoding a reminder's ISO time string and converting it to the local time zone: reminders carry their local civil date already.
- The wall clock: `new Date()` for today becomes a parameter.
- Time zones and daylight saving: the model assumes that local midnight of every date exists, so `getDay`/`getDate` read back the date that was constructed.
- FirstDay: ignores the ECMAScript time-value range (about ±275,000 years), outside which a `Date` is invalid and `getDay` returns NaN. The model's integers are unbounded.
- MonthLength: ignores the same time-value range limit as FirstDay.
- CellOf: `Math.floor(dayIndex / 7)` is computed on doubles; it is modelled as exact floor division. The two agree for the small indices (0..36) that occur.
- GridPosition: `getGridPosition`'s arguments are JavaScript numbers (doubles); they are modelled as integers, with `%` as JsRem and `Math.floor(index / cols)` as exact floor division, so fractional or very large arguments and NaN are not modelled.
- The per-month agenda list sorted by due time: it does not appear in calendar_generator.js, which only counts reminders per day.
- index.js: client setup, event wiring and a fixed command-to-reply table, with no logic to verify.
- Reminder storage, firing, schedule rotation and pinned-calendar refresh: none of them is in calendar_generator.js, which is the file modelled here.
