/** The month grid of the reminder calendar image: where each day of a month
    goes in the 7-column, 6-row grid, how many reminders fall on it, whether it
    is today, and which cell style follows from that. Pixels are integers;
    the drawing itself is not modelled. */
module MonthCalendar {
  import opened Gregorian
  import opened Grid

  // Image geometry, in pixels.
  const Width := 840
  const Rows := 6          // a month spans at most six weeks
  const Columns := 7       // Sunday .. Saturday
  const HeaderHeight := 140
  const CellHeight := 90
  const CellWidth := 110
  const FooterHeight := 60
  const Height := HeaderHeight + CellHeight * Rows + FooterHeight
  const StartX := 50
  const StartY := HeaderHeight
  /** Cell rectangles are drawn inset by this margin on every side. */
  const Inset := 4
  /** The reminder badge is a disc of this radius centred at (x + 28, y + 62). */
  const BadgeRadius := 14
  const BadgeDX := 28
  const BadgeDY := 62

  /** A stored reminder, with its due time already decoded to the local
      calendar date (what getFullYear, getMonth() + 1 and getDate return). */
  datatype Reminder = Reminder(due: CivilDate, userId: string, message: string)

  /** How a day cell is painted: the gold "today" frame, the lighter
      background of a day with reminders, or nothing extra. */
  datatype Style = Today | HasReminders | Plain

  /** Everything the renderer decides about one day of the month. */
  datatype Cell = Cell(day: int, col: int, row: int, x: int, y: int,
                       reminderCount: nat, isToday: bool, style: Style, badge: bool)

  // ---------------------------------------------------------------------
  // Month shape

  /** `new Date(year, month - 1, 1).getDay()`: the weekday of the first of the month. */
  function FirstDay(year: int, month: int): (w: int)
    ensures 0 <= w < 7
  {
    WeekDay(MakeDay(MakeFullYear(year), month - 1, 1))
  }

  /** `new Date(year, month, 0).getDate()`: day 0 of the following month,
      which the Date constructor normalises to the last day of `month`. */
  function MonthLength(year: int, month: int): (n: int)
    ensures 1 <= month <= 12 ==> n == DaysInMonth(MakeFullYear(year), month)
    ensures 1 <= month <= 12 && year != 0 ==> n == DaysInMonth(year, month)
    ensures 28 <= n <= 31
  {
    var y := MakeFullYear(year);
    if 1 <= month <= 12 then
      LastDayOfMonth(y, month);
      if year != 0 then
        FullYearLeap(year);
        SameLeapSameMonths(y, year, month);
        Normalize(y, month, 0).day
      else
        Normalize(y, month, 0).day
    else
      DayZeroIsLastDayOfPreviousMonth(y, month);
      Normalize(y, month, 0).day
  }

  /** The month lengths the grid uses: 31 days for months 1, 3, 5, 7, 8, 10
      and 12, 30 for months 4, 6, 9 and 11, and for February 29 exactly when
      the year is a Gregorian leap year, else 28. */
  lemma MonthLengthTable(year: int, month: int)
    requires 1 <= month <= 12 && year != 0
    ensures month in {1, 3, 5, 7, 8, 10, 12} ==> MonthLength(year, month) == 31
    ensures month in {4, 6, 9, 11} ==> MonthLength(year, month) == 30
    ensures month == 2 ==> (MonthLength(year, month) == 29 <==> IsLeapYear(year))
    ensures month == 2 ==> (MonthLength(year, month) == 28 <==> !IsLeapYear(year))
  {
    DaysInMonthTable(year, month);
  }

  // ---------------------------------------------------------------------
  // Reminders

  /** Whether reminder `r` is dated (year, month, day). */
  predicate DatedOn(r: Reminder, year: int, month: int, day: int)
    ensures DatedOn(r, year, month, day) <==> r.due == CivilDate(year, month, day)
    ensures DatedOn(r, year, month, day) && ValidDate(r.due) ==> 1 <= month <= 12 && 1 <= day <= DaysInMonth(year, month)
  {
    r.due.year == year && r.due.month == month && r.due.day == day
  }

  /** `reminders.filter(r => r is dated (year, month, day)).length`. */
  function ReminderCount(reminders: seq<Reminder>, year: int, month: int, day: int): (n: nat)
    ensures n <= |reminders|
    ensures n == 0 <==> forall i :: 0 <= i < |reminders| ==> !DatedOn(reminders[i], year, month, day)
  {
    if reminders == [] then 0
    else (if DatedOn(reminders[0], year, month, day) then 1 else 0)
         + ReminderCount(reminders[1..], year, month, day)
  }

  /** The reminders dated somewhere in (year, month), in their original order. */
  function InMonth(reminders: seq<Reminder>, year: int, month: int): (rs: seq<Reminder>)
    ensures |rs| <= |reminders|
    ensures forall i :: 0 <= i < |rs| ==> rs[i].due.year == year && rs[i].due.month == month
  {
    if reminders == [] then []
    else
      (if reminders[0].due.year == year && reminders[0].due.month == month then [reminders[0]] else [])
         + InMonth(reminders[1..], year, month)
  }

  /** Every reminder dated in the month occurs in InMonth as often as in the
      input, and no other reminder occurs in it. */
  lemma {:induction false} InMonthMultiplicity(reminders: seq<Reminder>, year: int, month: int, r: Reminder)
    ensures multiset(InMonth(reminders, year, month))[r]
         == if r.due.year == year && r.due.month == month then multiset(reminders)[r] else 0
  {
    if reminders != [] {
      InMonthMultiplicity(reminders[1..], year, month, r);
      FirstMultiplicity(reminders, year, month, r);
    }
  }

  /** How often `r` occurs in a non-empty list and in its month's part, split
      into the first reminder and the rest. */
  lemma FirstMultiplicity(reminders: seq<Reminder>, year: int, month: int, r: Reminder)
    requires reminders != []
    ensures var one := if reminders[0] == r then 1 else 0;
      && multiset(reminders)[r] == one + multiset(reminders[1..])[r]
      && multiset(InMonth(reminders, year, month))[r]
         == (if r.due.year == year && r.due.month == month then one else 0)
            + multiset(InMonth(reminders[1..], year, month))[r]
  {
    var first, rest := reminders[0], reminders[1..];
    var head := if first.due.year == year && first.due.month == month then [first] else [];
    assert InMonth(reminders, year, month) == head + InMonth(rest, year, month);
    assert reminders == [first] + rest;
  }

  /** Sum of the reminder counts of days 1..n. */
  function CountsUpTo(reminders: seq<Reminder>, year: int, month: int, n: int): nat
  {
    if n <= 0 then 0 else CountsUpTo(reminders, year, month, n - 1) + ReminderCount(reminders, year, month, n)
  }

  /** The number of reminders dated (year, month, d) for some d in 1..n. */
  function DatedUpTo(reminders: seq<Reminder>, year: int, month: int, n: int): nat
  {
    if reminders == [] then 0
    else (var r := reminders[0];
          if r.due.year == year && r.due.month == month && 1 <= r.due.day <= n then 1 else 0)
         + DatedUpTo(reminders[1..], year, month, n)
  }

  predicate AllValid(reminders: seq<Reminder>) {
    forall i :: 0 <= i < |reminders| ==> ValidDate(reminders[i].due)
  }

  // ---------------------------------------------------------------------
  // One day cell

  /** The cell of `day`, computed as the day loop computes it. */
  function CellOf(year: int, month: int, day: int, reminders: seq<Reminder>, today: CivilDate): (c: Cell)
    ensures Point(c.x, c.y) == GridPosition(FirstDay(year, month) + day - 1, StartX, StartY, CellWidth, CellHeight, Columns)
  {
    var dayIndex := FirstDay(year, month) + day - 1;
    var col := JsRem(dayIndex, Columns);
    var row := dayIndex / Columns;
    var count := ReminderCount(reminders, year, month, day);
    var isToday := year == today.year && month == today.month && day == today.day;
    var style := if isToday then Today else if count > 0 then HasReminders else Plain;
    Cell(day, col, row, StartX + col * CellWidth, StartY + row * CellHeight, count, isToday, style, count > 0)
  }

  /** Sum of the reminder counts of a row of cells. */
  function TotalCount(cells: seq<Cell>): nat {
    if cells == [] then 0 else TotalCount(cells[..|cells| - 1]) + cells[|cells| - 1].reminderCount
  }

  // ---------------------------------------------------------------------
  // The day loop

  /** The loop over `day := 1 .. daysInMonth` of the calendar renderer: one
      cell per day of the month, in day order, each placed in the grid, given
      its reminder count and today flag, and styled. */
  method LayoutMonth(year: int, month: int, reminders: seq<Reminder>, today: CivilDate) returns (cells: seq<Cell>)
    ensures |cells| == MonthLength(year, month)
    ensures forall i :: 0 <= i < |cells| ==> cells[i] == CellOf(year, month, i + 1, reminders, today)
    ensures forall i :: 0 <= i < |cells| ==> 0 <= cells[i].col < Columns && 0 <= cells[i].row < Rows
    ensures forall i, j :: 0 <= i < j < |cells| ==> (cells[i].col, cells[i].row) != (cells[j].col, cells[j].row)
    ensures TotalCount(cells) == CountsUpTo(reminders, year, month, MonthLength(year, month))
    ensures AllValid(reminders) && year != 0 && 1 <= month <= 12 ==>
              TotalCount(cells) == |InMonth(reminders, year, month)|
  {
    var firstDay := FirstDay(year, month);
    var daysInMonth := MonthLength(year, month);
    cells := [];
    var day := 1;
    while day <= daysInMonth
      invariant 1 <= day <= daysInMonth + 1
      invariant |cells| == day - 1
      invariant LaidOutUpTo(year, month, reminders, today, cells)
    {
      var cell := DayCell(year, month, firstDay, day, reminders, today);
      ExtendLayout(year, month, reminders, today, cells, cell);
      cells := cells + [cell];
      day := day + 1;
    }
    LaidOutMonth(year, month, reminders, today, cells);
    if AllValid(reminders) && year != 0 && 1 <= month <= 12 {
      MonthCountsPartition(reminders, year, month);
    }
  }

  /** The cells built so far are those of days 1..|cells|, and their counts
      add up to the day counts of those days. */
  predicate LaidOutUpTo(year: int, month: int, reminders: seq<Reminder>, today: CivilDate, cells: seq<Cell>) {
    (forall i :: 0 <= i < |cells| ==> cells[i] == CellOf(year, month, i + 1, reminders, today))
    && TotalCount(cells) == CountsUpTo(reminders, year, month, |cells|)
  }

  /** Appending the next day's cell keeps the prefix laid out. */
  lemma ExtendLayout(year: int, month: int, reminders: seq<Reminder>, today: CivilDate, cells: seq<Cell>, cell: Cell)
    requires LaidOutUpTo(year, month, reminders, today, cells)
    requires cell == CellOf(year, month, |cells| + 1, reminders, today)
    ensures LaidOutUpTo(year, month, reminders, today, cells + [cell])
  {
    assert (cells + [cell])[..|cells|] == cells;
  }

  /** One pass of the day loop's body: place `day` in the grid from the
      month's first weekday, count its reminders, test for today and choose
      the style. The cell lands inside the 7 x 6 grid, in the column of its
      weekday, and is styled today first, then "has reminders", else plain,
      with a badge exactly when some reminder is dated that day. */
  method DayCell(year: int, month: int, firstDay: int, day: int, reminders: seq<Reminder>, today: CivilDate)
    returns (cell: Cell)
    requires firstDay == FirstDay(year, month)
    requires 1 <= day <= 31
    ensures cell == CellOf(year, month, day, reminders, today)
    ensures 0 <= cell.col < Columns && 0 <= cell.row < Rows
    ensures cell.col == WeekDay(MakeDay(MakeFullYear(year), month - 1, day))
    ensures cell.isToday <==> today == CivilDate(year, month, day)
    ensures cell.style == Today <==> cell.isToday
    ensures cell.style == HasReminders <==> !cell.isToday && cell.reminderCount > 0
    ensures cell.badge <==> exists i :: 0 <= i < |reminders| && DatedOn(reminders[i], year, month, day)
  {
    var dayIndex := firstDay + day - 1;
    var col := JsRem(dayIndex, Columns);
    var row := dayIndex / Columns;
    var x := StartX + col * CellWidth;
    var y := StartY + row * CellHeight;
    var reminderCount := ReminderCount(reminders, year, month, day);
    var isToday := year == today.year && month == today.month && day == today.day;
    var style := if isToday then Today else if reminderCount > 0 then HasReminders else Plain;
    cell := Cell(day, col, row, x, y, reminderCount, isToday, style, reminderCount > 0);
    assert cell == CellOf(year, month, day, reminders, today);
    CellInGrid(year, month, day, reminders, today);
    CellColumnIsWeekday(year, month, day, reminders, today);
    CellStyleChoice(year, month, day, reminders, today);
  }

  /** What the cells of a whole month satisfy once the loop has built them. */
  lemma LaidOutMonth(year: int, month: int, reminders: seq<Reminder>, today: CivilDate, cells: seq<Cell>)
    requires |cells| == MonthLength(year, month)
    requires forall i :: 0 <= i < |cells| ==> cells[i] == CellOf(year, month, i + 1, reminders, today)
    ensures forall i :: 0 <= i < |cells| ==> 0 <= cells[i].col < Columns && 0 <= cells[i].row < Rows
    ensures forall i, j :: 0 <= i < j < |cells| ==> (cells[i].col, cells[i].row) != (cells[j].col, cells[j].row)
  {
    forall i | 0 <= i < |cells|
      ensures 0 <= cells[i].col < Columns && 0 <= cells[i].row < Rows
    {
      CellInGrid(year, month, i + 1, reminders, today);
    }
    forall i, j | 0 <= i < j < |cells|
      ensures (cells[i].col, cells[i].row) != (cells[j].col, cells[j].row)
    {
      CellsDistinct(year, month, i + 1, j + 1, reminders, today);
    }
  }

  // ---------------------------------------------------------------------
  // Placement

  /** Every day from 1 to 31, and so every day of any month, lands inside the
      7 x 6 grid: its column is in 0..6, its row in 0..5, and (row, col) is
      the row-major position of `firstDay + day - 1`. */
  lemma CellInGrid(year: int, month: int, day: int, reminders: seq<Reminder>, today: CivilDate)
    requires 1 <= day <= 31
    ensures var c := CellOf(year, month, day, reminders, today);
      0 <= c.col < Columns && 0 <= c.row < Rows
      && c.row * Columns + c.col == FirstDay(year, month) + day - 1
  {
    GridDecomposition(FirstDay(year, month) + day - 1, Columns);
  }

  /** The column of every day is that day's weekday (0 = Sunday, matching the
      header that starts with Sunday). */
  lemma CellColumnIsWeekday(year: int, month: int, day: int, reminders: seq<Reminder>, today: CivilDate)
    requires 1 <= day
    ensures CellOf(year, month, day, reminders, today).col == WeekDay(MakeDay(MakeFullYear(year), month - 1, day))
    ensures 1 <= month <= 12 && !(0 <= year <= 99) ==>
              CellOf(year, month, day, reminders, today).col == DayOfWeek(CivilDate(year, month, day))
  {
    var col := CellOf(year, month, day, reminders, today).col;
    assert col == JsRem(FirstDay(year, month) + day - 1, Columns);
    FirstDayAdvances(year, month, day);
    if 1 <= month <= 12 && !(0 <= year <= 99) {
      assert MakeFullYear(year) == year;
      assert MakeDay(year, month - 1, day) == DayNumber(CivilDate(year, month, day)) by {
        assert (month - 1) / 12 == 0 && (month - 1) % 12 == month - 1;
      }
    }
  }

  /** Counting `day - 1` days on from the month's first weekday, modulo 7,
      gives the weekday of `day`. */
  lemma FirstDayAdvances(year: int, month: int, day: int)
    requires 1 <= day
    ensures JsRem(FirstDay(year, month) + day - 1, Columns) == WeekDay(MakeDay(MakeFullYear(year), month - 1, day))
  {
    var t := MakeDay(MakeFullYear(year), month - 1, 1);
    assert MakeDay(MakeFullYear(year), month - 1, day) == t + day - 1;
    WeekDayAdvances(t, day - 1);
  }

  /** Counting `k` days on from the weekday of day `t` gives the weekday of day `t + k`. */
  lemma WeekDayAdvances(t: int, k: int)
    requires k >= 0
    ensures (WeekDay(t) + k) % 7 == WeekDay(t + k)
  {
  }

  /** Distinct days of the month occupy distinct cells of the grid, and hence
      distinct pixel positions. */
  lemma CellsDistinct(year: int, month: int, d1: int, d2: int, reminders: seq<Reminder>, today: CivilDate)
    requires 1 <= d1 <= MonthLength(year, month) && 1 <= d2 <= MonthLength(year, month) && d1 != d2
    ensures var c1, c2 := CellOf(year, month, d1, reminders, today), CellOf(year, month, d2, reminders, today);
      (c1.col, c1.row) != (c2.col, c2.row) && (c1.x, c1.y) != (c2.x, c2.y)
  {
    var f := FirstDay(year, month);
    CellInGrid(year, month, d1, reminders, today);
    CellInGrid(year, month, d2, reminders, today);
    GridPositionInjective(f + d1 - 1, f + d2 - 1, StartX, StartY, CellWidth, CellHeight, Columns);
  }

  /** Every drawn cell rectangle [x + 4, x + cellWidth - 4] x [y + 4, y + cellHeight - 4]
      lies inside the image and below the header, and the reminder badge disc
      lies inside that rectangle. */
  lemma CellInsideImage(year: int, month: int, day: int, reminders: seq<Reminder>, today: CivilDate)
    requires 1 <= day <= MonthLength(year, month)
    ensures var c := CellOf(year, month, day, reminders, today);
      0 <= c.x + Inset && c.x + CellWidth - Inset <= Width
      && HeaderHeight <= c.y + Inset && c.y + CellHeight - Inset <= Height - FooterHeight
      && c.x + Inset <= c.x + BadgeDX - BadgeRadius && c.x + BadgeDX + BadgeRadius <= c.x + CellWidth - Inset
      && c.y + Inset <= c.y + BadgeDY - BadgeRadius && c.y + BadgeDY + BadgeRadius <= c.y + CellHeight - Inset
  {
    CellInGrid(year, month, day, reminders, today);
  }

  // ---------------------------------------------------------------------
  // Annotation

  /** Cell style and badge: today wins over reminders, a day with reminders
      that is not today gets the reminder style, any other day is plain; the
      badge is drawn exactly when the day has reminders. A day is today
      exactly when `today` is that date. */
  lemma CellStyleChoice(year: int, month: int, day: int, reminders: seq<Reminder>, today: CivilDate)
    ensures var c := CellOf(year, month, day, reminders, today);
      (c.isToday <==> today == CivilDate(year, month, day))
      && (c.style == Today <==> c.isToday)
      && (c.style == HasReminders <==> !c.isToday && c.reminderCount > 0)
      && (c.style == Plain <==> !c.isToday && c.reminderCount == 0)
      && (c.badge <==> exists i :: 0 <= i < |reminders| && DatedOn(reminders[i], year, month, day))
  {
  }

  /** Reminders outside (year, month) never contribute to a day's count. */
  lemma {:induction false} OtherMonthsDoNotCount(reminders: seq<Reminder>, year: int, month: int, day: int)
    ensures ReminderCount(reminders, year, month, day) == ReminderCount(InMonth(reminders, year, month), year, month, day)
  {
    if reminders != [] {
      OtherMonthsDoNotCount(reminders[1..], year, month, day);
      var head := if reminders[0].due.year == year && reminders[0].due.month == month then [reminders[0]] else [];
      ReminderCountAppend(head, InMonth(reminders[1..], year, month), year, month, day);
    }
  }

  lemma {:induction false} ReminderCountAppend(a: seq<Reminder>, b: seq<Reminder>, year: int, month: int, day: int)
    ensures ReminderCount(a + b, year, month, day) == ReminderCount(a, year, month, day) + ReminderCount(b, year, month, day)
  {
    if a != [] {
      assert (a + b)[1..] == a[1..] + b;
      ReminderCountAppend(a[1..], b, year, month, day);
    } else {
      assert a + b == b;
    }
  }

  /** Extending the day range by one day adds that day's count. */
  lemma {:induction false} DatedUpToStep(reminders: seq<Reminder>, year: int, month: int, n: int)
    requires n >= 1
    ensures DatedUpTo(reminders, year, month, n) == DatedUpTo(reminders, year, month, n - 1) + ReminderCount(reminders, year, month, n)
  {
    if reminders != [] {
      DatedUpToStep(reminders[1..], year, month, n);
    }
  }

  /** Summing the day counts of days 1..n counts each reminder dated on one of
      those days exactly once. */
  lemma {:induction false} CountsUpToIsDatedUpTo(reminders: seq<Reminder>, year: int, month: int, n: int)
    ensures CountsUpTo(reminders, year, month, n) == DatedUpTo(reminders, year, month, n)
    decreases if n < 0 then 0 else n
  {
    if n <= 0 {
      DatedUpToNone(reminders, year, month, n);
    } else {
      CountsUpToIsDatedUpTo(reminders, year, month, n - 1);
      DatedUpToStep(reminders, year, month, n);
    }
  }

  lemma {:induction false} DatedUpToNone(reminders: seq<Reminder>, year: int, month: int, n: int)
    requires n <= 0
    ensures DatedUpTo(reminders, year, month, n) == 0
  {
    if reminders != [] {
      DatedUpToNone(reminders[1..], year, month, n);
    }
  }

  /** Every valid reminder of (year, month) falls on one of its days 1..DaysInMonth. */
  lemma {:induction false} DatedUpToWholeMonth(reminders: seq<Reminder>, year: int, month: int)
    requires AllValid(reminders) && 1 <= month <= 12
    ensures DatedUpTo(reminders, year, month, DaysInMonth(year, month)) == |InMonth(reminders, year, month)|
  {
    if reminders != [] {
      assert ValidDate(reminders[0].due);
      assert AllValid(reminders[1..]) by {
        forall i | 0 <= i < |reminders[1..]| ensures ValidDate(reminders[1..][i].due) {
          assert reminders[1..][i] == reminders[i + 1];
        }
      }
      DatedUpToWholeMonth(reminders[1..], year, month);
    }
  }

  /** The day counts of a month partition the reminders dated in that month:
      summed over days 1..daysInMonth they give the number of reminders of
      (year, month). */
  lemma MonthCountsPartition(reminders: seq<Reminder>, year: int, month: int)
    requires AllValid(reminders) && 1 <= month <= 12 && year != 0
    ensures CountsUpTo(reminders, year, month, MonthLength(year, month)) == |InMonth(reminders, year, month)|
  {
    CountsUpToIsDatedUpTo(reminders, year, month, MonthLength(year, month));
    DatedUpToWholeMonth(reminders, year, month);
  }

  // ---------------------------------------------------------------------
  // Worked examples

  /** February 2024 has 29 days. */
  lemma February2024Length()
    ensures MonthLength(2024, 2) == 29
  {
    assert IsLeapYear(2024);
    assert MonthLength(2024, 2) == DaysInMonth(2024, 2);
  }

  /** February 2024 starts on a Thursday. */
  lemma February2024FirstDay()
    ensures FirstDay(2024, 2) == 4
  {
    assert DayFromYear(2024) == 19723 by {
      assert 55 / 4 == 13 && 123 / 100 == 1 && 423 / 400 == 1;
    }
    assert MakeDay(2024, 1, 1) == 19754 by {
      assert 1 / 12 == 0 && 1 % 12 == 1;
      assert MonthStart(2024, 2) == 19723 + 31;
    }
    assert MakeFullYear(2024) == 2024;
    assert FirstDay(2024, 2) == WeekDay(19754) == 4;
  }

  /** February has 28 days in 2023 and 1900 (a century year not divisible by
      400) and 29 days in 2000. */
  lemma CenturyLeapExamples()
    ensures MonthLength(2023, 2) == 28
    ensures MonthLength(1900, 2) == 28
    ensures MonthLength(2000, 2) == 29
  {
    assert !IsLeapYear(2023) && !IsLeapYear(1900) && IsLeapYear(2000);
    assert MonthLength(2023, 2) == DaysInMonth(2023, 2);
    assert MonthLength(1900, 2) == DaysInMonth(1900, 2);
    assert MonthLength(2000, 2) == DaysInMonth(2000, 2);
  }

  /** January 2025 has 31 days and starts on a Wednesday. */
  lemma January2025Example()
    ensures MonthLength(2025, 1) == 31 && FirstDay(2025, 1) == 3
  {
    assert MonthLength(2025, 1) == DaysInMonth(2025, 1);
    assert DayFromYear(2025) == 20089 by {
      assert 56 / 4 == 14 && 124 / 100 == 1 && 424 / 400 == 1;
    }
    assert MakeDay(2025, 0, 1) == 20089 by {
      assert 0 / 12 == 0 && 0 % 12 == 0;
      assert MonthStart(2025, 1) == 20089;
    }
    assert MakeFullYear(2025) == 2025;
    assert FirstDay(2025, 1) == WeekDay(20089) == 3;
  }

  /** A year from 0 to 99 is laid out as 1900 + year: year 0 was a leap year
      but the grid of February 0 has 28 days, those of February 1900. */
  lemma TwoDigitYearExample()
    ensures IsLeapYear(0) && MonthLength(0, 2) == 28
  {
    assert MakeFullYear(0) == 1900 && !IsLeapYear(1900);
  }
}
