/** The renderer of scripts.js: the `forEach` over the twelve month grids,
    which numbers the cells that fall inside each month and tags them with
    the holidays of the date a cursor walks through, one day per numbered
    cell. A grid cell is a record of its text and its set of style tags. */
module Calendar {
  import opened EcmaDate
  import opened Months
  import opened Holidays

  datatype Option<T> = None | Some(value: T)

  /** The four `calendar__type--*` style classes the renderer reads or sets. */
  datatype Tag = Empty | Weekend | BankHoliday | SchoolHoliday

  /** A `<td>` of a month grid: the day number written into it, if any, and
      its classes. */
  datatype Cell = Cell(text: Option<int>, tags: set<Tag>)

  /** The holiday settings the renderer consults. */
  datatype Config = Config(bankHolidays: seq<int>, schoolHolidays: seq<Range>)

  /** Cell `i` of the grid of month `m` holds a day of the month: it lies in
      `[starting_index, stopping_index)`. */
  predicate InMonth(i: int, m: Month) {
    m.firstDayInteger <= i < m.daysInMonth + m.firstDayInteger
  }

  /** How many of the cells `0 .. i - 1` hold a day of month `m`. */
  function Filled(i: int, m: Month): (n: nat)
    requires 0 <= i
    ensures n <= i
  {
    if i == 0 then 0 else Filled(i - 1, m) + (if InMonth(i - 1, m) then 1 else 0)
  }

  /** For a month that starts in the first row, the numbered cells are the
      `daysInMonth` cells from column `firstDayInteger` on. */
  lemma {:induction false} FilledClosedForm(i: int, m: Month)
    requires 0 <= i
    requires 0 <= m.firstDayInteger && 0 <= m.daysInMonth
    ensures Filled(i, m) ==
      if i <= m.firstDayInteger then 0
      else if i <= m.daysInMonth + m.firstDayInteger then i - m.firstDayInteger
      else m.daysInMonth
  {
    if i > 0 {
      FilledClosedForm(i - 1, m);
    }
  }

  /** A grid with room for month `m` numbers exactly `daysInMonth` cells, and
      the counter of numbered cell `i` is its day number `i - firstDayInteger + 1`. */
  lemma InMonthCount(m: Month, n: int)
    requires 0 <= m.firstDayInteger && 0 <= m.daysInMonth
    requires m.firstDayInteger + m.daysInMonth <= n
    ensures Filled(n, m) == m.daysInMonth
    ensures forall i :: 0 <= i < n && InMonth(i, m) ==> Filled(i, m) + 1 == i - m.firstDayInteger + 1
  {
    FilledClosedForm(n, m);
    forall i | 0 <= i < n && InMonth(i, m)
      ensures Filled(i, m) + 1 == i - m.firstDayInteger + 1
    {
      FilledClosedForm(i, m);
    }
  }

  /** The classes of a numbered cell dated `date`: a bank holiday is added
      whatever else the cell has; otherwise a school holiday is added, but
      only to a cell not styled as a weekend. */
  function DayTags(tags: set<Tag>, date: int, cfg: Config): (r: set<Tag>)
    ensures BankHoliday in r <==> BankHoliday in tags || date in cfg.bankHolidays
    ensures SchoolHoliday in r <==> (SchoolHoliday in tags ||
      (date !in cfg.bankHolidays && Weekend !in tags && InSchoolHoliday(date, cfg.schoolHolidays)))
    ensures Weekend in r <==> Weekend in tags
    ensures Empty in r <==> Empty in tags
  {
    if date in cfg.bankHolidays then tags + {BankHoliday}
    else if Weekend !in tags && InSchoolHoliday(date, cfg.schoolHolidays) then tags + {SchoolHoliday}
    else tags
  }

  /** What the renderer leaves in cell `i`, which held `c`, of the grid of month
      `m` when the cursor stood at `current` on entering the grid: a cell
      outside the month becomes empty and loses its weekend style, keeping its
      text; a cell inside gets the next day number and the tags of the date
      the cursor has reached. */
  function RenderedCell(c: Cell, i: int, m: Month, current: int, cfg: Config): Cell
    requires 0 <= i
  {
    if !InMonth(i, m) then Cell(c.text, c.tags + {Empty} - {Weekend})
    else Cell(Some(Filled(i, m) + 1), DayTags(c.tags, current + Filled(i, m), cfg))
  }

  /** The body of the `forEach` callback for one month: walks the grid with a
      `counter` for the day numbers and advances the date cursor by one day
      per numbered cell; returns where the cursor stops. */
  method RenderMonth(grid: array<Cell>, m: Month, current: int, cfg: Config) returns (next: int)
    modifies grid
    ensures next == current + Filled(grid.Length, m)
    ensures forall i :: 0 <= i < grid.Length ==>
      grid[i] == RenderedCell(old(grid[i]), i, m, current, cfg)
  {
    var counter := 1;
    var startingIndex := m.firstDayInteger;
    var stoppingIndex := m.daysInMonth + m.firstDayInteger;
    next := current;
    var i := 0;
    while i < grid.Length
      invariant 0 <= i <= grid.Length
      invariant counter == Filled(i, m) + 1
      invariant next == current + Filled(i, m)
      invariant forall j :: 0 <= j < i ==> grid[j] == RenderedCell(old(grid[j]), j, m, current, cfg)
      invariant forall j :: i <= j < grid.Length ==> grid[j] == old(grid[j])
    {
      var cell := grid[i];
      if i < startingIndex || i >= stoppingIndex {
        grid[i] := Cell(cell.text, cell.tags + {Empty} - {Weekend});
      } else {
        var tags := cell.tags;
        var bank := IsBankHoliday(next, cfg.bankHolidays);
        if bank {
          tags := tags + {BankHoliday};
        } else if Weekend !in tags {
          var school := IsSchoolHoliday(next, cfg.schoolHolidays);
          if school {
            tags := tags + {SchoolHoliday};
          }
        }
        grid[i] := Cell(Some(counter), tags);
        counter := counter + 1;
        next := next + 1;
      }
      i := i + 1;
    }
  }

  /** Where the cursor stands on entering grid `k`: the start date moved on by
      one day per numbered cell of the grids before it. */
  function CursorAt(start: int, months: seq<Month>, grids: seq<array<Cell>>, k: int): int
    requires 0 <= k <= |grids| && k <= |months|
  {
    if k == 0 then start
    else CursorAt(start, months, grids, k - 1) + Filled(grids[k - 1].Length, months[k - 1])
  }

  /** The date the cursor holds when it reaches cell `i` of grid `k`. */
  function CellDate(start: int, months: seq<Month>, grids: seq<array<Cell>>, k: int, i: int): int
    requires 0 <= k < |grids| && k < |months| && 0 <= i
  {
    CursorAt(start, months, grids, k) + Filled(i, months[k])
  }

  /** `calendar_tds.forEach((month, index) => ...)`: renders grid `k` with
      the month `months[k]` and hands the cursor on to the next grid. */
  method Render(grids: seq<array<Cell>>, months: seq<Month>, start: int, cfg: Config) returns (cursor: int)
    requires |grids| <= |months|
    requires forall a, b :: 0 <= a < b < |grids| ==> grids[a] != grids[b]
    modifies set k | 0 <= k < |grids| :: grids[k]
    ensures cursor == CursorAt(start, months, grids, |grids|)
    ensures forall k, i :: 0 <= k < |grids| && 0 <= i < grids[k].Length ==>
      grids[k][i] == RenderedCell(old(grids[k][i]), i, months[k], CursorAt(start, months, grids, k), cfg)
  {
    cursor := start;
    var index := 0;
    while index < |grids|
      invariant 0 <= index <= |grids|
      invariant cursor == CursorAt(start, months, grids, index)
      invariant forall k, i :: 0 <= k < index && 0 <= i < grids[k].Length ==>
        grids[k][i] == RenderedCell(old(grids[k][i]), i, months[k], CursorAt(start, months, grids, k), cfg)
      invariant forall k, i :: index <= k < |grids| && 0 <= i < grids[k].Length ==>
        grids[k][i] == old(grids[k][i])
    {
      cursor := RenderMonth(grids[index], months[index], cursor, cfg);
      index := index + 1;
    }
  }

  /** Lines 137-183 of the script: builds the academic year, starts the
      cursor on 1 September of `year1` and renders the twelve grids, which
      `create_calendar_table_cells` supplies in the same September-to-August
      order. */
  method RenderCalendar(year1: int, year2: int, grids: seq<array<Cell>>, cfg: Config)
    returns (academicYear: seq<Month>, cursor: int)
    requires |grids| == 12
    requires forall a, b :: 0 <= a < b < |grids| ==> grids[a] != grids[b]
    modifies set k | 0 <= k < |grids| :: grids[k]
    ensures academicYear == AcademicYear(year1, year2)
    ensures cursor == CursorAt(MakeDay(year1, 8, 1), academicYear, grids, 12)
    ensures forall k, i :: 0 <= k < 12 && 0 <= i < grids[k].Length ==>
      grids[k][i] == RenderedCell(old(grids[k][i]), i, academicYear[k],
        CursorAt(MakeDay(year1, 8, 1), academicYear, grids, k), cfg)
  {
    academicYear := CreateAcademicYear(year1, year2);
    var currentLoopDate := MakeDay(year1, 8, 1);
    cursor := Render(grids, academicYear, currentLoopDate, cfg);
  }

  lemma {:induction false} FilledMonotone(i: int, j: int, m: Month)
    requires 0 <= i <= j
    ensures Filled(i, m) <= Filled(j, m)
    ensures i < j && InMonth(i, m) ==> Filled(i, m) < Filled(j, m)
    decreases j - i
  {
    if i < j {
      FilledMonotone(i, j - 1, m);
    }
  }

  /** Every count below `Filled(n, m)` is the count at some numbered cell
      below `n`: the day numbers 1 .. Filled(n, m) all appear. */
  lemma {:induction false} FilledReaches(c: int, n: int, m: Month)
    requires 0 <= n && 0 <= c < Filled(n, m)
    ensures exists i :: 0 <= i < n && InMonth(i, m) && Filled(i, m) == c
  {
    if c < Filled(n - 1, m) {
      FilledReaches(c, n - 1, m);
    } else {
      assert InMonth(n - 1, m) && Filled(n - 1, m) == c;
    }
  }

  lemma {:induction false} CursorMonotone(start: int, months: seq<Month>, grids: seq<array<Cell>>, a: int, b: int)
    requires 0 <= a <= b <= |grids| && b <= |months|
    ensures CursorAt(start, months, grids, a) <= CursorAt(start, months, grids, b)
    decreases b - a
  {
    if a < b {
      CursorMonotone(start, months, grids, a, b - 1);
    }
  }

  /** Every date from `start` up to where the cursor stops is the date of a
      numbered cell. */
  lemma {:induction false} EveryDateVisited(start: int, months: seq<Month>, grids: seq<array<Cell>>, t: int, n: int)
    requires 0 <= n <= |grids| && n <= |months|
    requires start <= t < CursorAt(start, months, grids, n)
    ensures exists k, i :: (0 <= k < n && 0 <= i < grids[k].Length && InMonth(i, months[k]) &&
      CellDate(start, months, grids, k, i) == t)
  {
    var k := n - 1;
    if t < CursorAt(start, months, grids, k) {
      EveryDateVisited(start, months, grids, t, k);
    } else {
      var c := t - CursorAt(start, months, grids, k);
      FilledReaches(c, grids[k].Length, months[k]);
      var i :| 0 <= i < grids[k].Length && InMonth(i, months[k]) && Filled(i, months[k]) == c;
      assert CellDate(start, months, grids, k, i) == t;
    }
  }

  /** No date is the date of two numbered cells, and the dates of the
      numbered cells increase along each grid and from grid to grid. */
  lemma VisitedInOrder(start: int, months: seq<Month>, grids: seq<array<Cell>>, k1: int, i1: int, k2: int, i2: int)
    requires |grids| <= |months|
    requires 0 <= k1 < |grids| && 0 <= i1 < grids[k1].Length && InMonth(i1, months[k1])
    requires 0 <= k2 < |grids| && 0 <= i2 < grids[k2].Length && InMonth(i2, months[k2])
    requires k1 < k2 || (k1 == k2 && i1 < i2)
    ensures CellDate(start, months, grids, k1, i1) < CellDate(start, months, grids, k2, i2)
  {
    if k1 < k2 {
      FilledMonotone(i1, grids[k1].Length, months[k1]);
      CursorMonotone(start, months, grids, k1 + 1, k2);
    } else {
      FilledMonotone(i1, i2, months[k1]);
    }
  }

  /** The grid has a cell for every day of month `m`. */
  predicate Fits(gridLength: int, m: Month) {
    m.daysInMonth + m.firstDayInteger <= gridLength
  }

  /** Counting on from the first of a month placed in column
      `WeekDays(WeekDay(firstDay))`, cell `i` falls on the weekday of column
      `i % 7` (0 = Monday). */
  lemma ColumnWeekDay(firstDay: int, m: Month, i: int, date: int)
    requires m.firstDayInteger == WeekDays(WeekDay(firstDay))
    requires InMonth(i, m)
    requires date == firstDay + i - m.firstDayInteger
    ensures WeekDays(WeekDay(date)) == i % 7
  {
    var js := WeekDay(firstDay);
    WeekDaysShift(js);
    WeekDaysShift(WeekDay(date));
    assert (firstDay + 4) % 7 == js;
    assert WeekDay(date) == (i + 1) % 7;
  }

  /** `m` is the layout of month `mo` of year `y`: its length and the
      Monday-first column of its first day. */
  predicate LaysOut(m: Month, y: int, mo: int)
    requires 0 <= mo < 12
  {
    m.daysInMonth == DaysInMonth(y, mo) &&
    m.firstDayInteger == WeekDays(WeekDay(FirstOfMonth(y, mo)))
  }

  /** The months of `create_academic_year` lay out September of `year1` to
      August of `year2`, position by position, in the years the Date
      constructor reads: a year 0..99 stands for 1900..1999. */
  lemma AcademicYearLaysOut(year1: int, year2: int, k: int)
    requires 0 <= k < 12
    ensures LaysOut(AcademicYear(year1, year2)[k], MakeFullYear(SlotYear(year1, year2, k)), SlotMonth(k))
  {
    AcademicYearAt(year1, year2, k);
  }

  /** The grids hold the months of the academic year starting in September
      of `year1`, each grid with room for its month. */
  predicate AcademicLayout(year1: int, year2: int, months: seq<Month>, grids: seq<array<Cell>>) {
    |months| == 12 && |grids| == 12 &&
    forall j :: 0 <= j < 12 ==>
      LaysOut(months[j], SlotYear(year1, year2, j), SlotMonth(j)) && Fits(grids[j].Length, months[j])
  }

  /** `create_academic_year`'s months and grids that fit them form such a
      layout, for a `year1` the Date constructor takes as written. */
  lemma AcademicYearLayout(year1: int, year2: int, grids: seq<array<Cell>>)
    requires 100 <= year1 && year2 == year1 + 1
    requires |grids| == 12
    requires forall j :: 0 <= j < 12 ==> Fits(grids[j].Length, AcademicYear(year1, year2)[j])
    ensures AcademicLayout(year1, year2, AcademicYear(year1, year2), grids)
  {
    var months := AcademicYear(year1, year2);
    forall j | 0 <= j < 12
      ensures LaysOut(months[j], SlotYear(year1, year2, j), SlotMonth(j)) && Fits(grids[j].Length, months[j])
    {
      var y := SlotYear(year1, year2, j);
      assert MakeFullYear(y) == y;
      AcademicYearLaysOut(year1, year2, j);
    }
  }

  /** The cursor enters the grid of position `k` on the first of that
      position's month. */
  lemma {:induction false} CursorContinuity(year1: int, year2: int, months: seq<Month>, grids: seq<array<Cell>>, k: int)
    requires year2 == year1 + 1
    requires AcademicLayout(year1, year2, months, grids)
    requires 0 <= k <= 12
    ensures CursorAt(MakeDay(year1, 8, 1), months, grids, k) ==
      FirstOfMonth(SlotYear(year1, year2, k), SlotMonth(k))
  {
    if k == 0 {
      FirstOfMonthIsMakeDay(year1, 8);
    } else {
      CursorContinuity(year1, year2, months, grids, k - 1);
      var y, mo := SlotYear(year1, year2, k - 1), SlotMonth(k - 1);
      assert LaysOut(months[k - 1], y, mo) && Fits(grids[k - 1].Length, months[k - 1]);
      FilledClosedForm(grids[k - 1].Length, months[k - 1]);
      SlotsContiguous(year1, year2, k - 1);
      FirstOfMonthNext(y, mo);
    }
  }

  /** The cursor ends on 1 September of `year2`: the twelve grids cover the
      academic year exactly. */
  lemma CursorEnd(year1: int, year2: int, months: seq<Month>, grids: seq<array<Cell>>)
    requires year2 == year1 + 1
    requires AcademicLayout(year1, year2, months, grids)
    ensures CursorAt(MakeDay(year1, 8, 1), months, grids, 12) == MakeDay(year2, 8, 1)
  {
    CursorContinuity(year1, year2, months, grids, 12);
    FirstOfMonthIsMakeDay(year2, 8);
  }

  /** The numbered cell `i` of the grid of position `k` shows the day number
      `d` and is checked against day `d` of that position's month: the day
      `d - 1` days after its first. */
  lemma CellDateIsCalendarDate(year1: int, year2: int, months: seq<Month>, grids: seq<array<Cell>>, k: int, i: int)
    requires year2 == year1 + 1
    requires AcademicLayout(year1, year2, months, grids)
    requires 0 <= k < 12 && 0 <= i < grids[k].Length && InMonth(i, months[k])
    ensures var d := Filled(i, months[k]) + 1;
      d == i - months[k].firstDayInteger + 1 &&
      1 <= d <= DaysInMonth(SlotYear(year1, year2, k), SlotMonth(k)) &&
      CellDate(MakeDay(year1, 8, 1), months, grids, k, i) ==
        FirstOfMonth(SlotYear(year1, year2, k), SlotMonth(k)) + d - 1
  {
    var y, mo := SlotYear(year1, year2, k), SlotMonth(k);
    var m := months[k];
    assert CursorAt(MakeDay(year1, 8, 1), months, grids, k) == FirstOfMonth(y, mo) by {
      CursorContinuity(year1, year2, months, grids, k);
    }
    assert m.daysInMonth == DaysInMonth(y, mo) && 0 <= m.firstDayInteger by {
      assert LaysOut(m, y, mo);
    }
    FilledClosedForm(i, m);
  }

  /** The date a numbered cell is checked against has the year, the month
      and the day of the month of the cell's grid and day number. */
  lemma CellCalendarDate(year1: int, year2: int, months: seq<Month>, grids: seq<array<Cell>>, k: int, i: int)
    requires year2 == year1 + 1
    requires AcademicLayout(year1, year2, months, grids)
    requires 0 <= k < 12 && 0 <= i < grids[k].Length && InMonth(i, months[k])
    ensures var date := CellDate(MakeDay(year1, 8, 1), months, grids, k, i);
      YearFromDay(date) == SlotYear(year1, year2, k) && MonthFromDay(date) == SlotMonth(k) &&
      DateFromDay(date) == Filled(i, months[k]) + 1
  {
    var y, mo := SlotYear(year1, year2, k), SlotMonth(k);
    var date := CellDate(MakeDay(year1, 8, 1), months, grids, k, i);
    var d := Filled(i, months[k]) + 1;
    assert 1 <= d <= DaysInMonth(y, mo) && date == FirstOfMonth(y, mo) + d - 1 by {
      CellDateIsCalendarDate(year1, year2, months, grids, k, i);
    }
    DayNumberRoundTrip(y, mo, d, date);
  }

  /** The first column of every grid is Monday and each row one week: a
      numbered cell falls on the weekday of its column `i % 7`. */
  lemma CellWeekDay(year1: int, year2: int, months: seq<Month>, grids: seq<array<Cell>>, k: int, i: int)
    requires year2 == year1 + 1
    requires AcademicLayout(year1, year2, months, grids)
    requires 0 <= k < 12 && 0 <= i < grids[k].Length && InMonth(i, months[k])
    ensures WeekDays(WeekDay(CellDate(MakeDay(year1, 8, 1), months, grids, k, i))) == i % 7
  {
    var y, mo := SlotYear(year1, year2, k), SlotMonth(k);
    var m := months[k];
    var date := CellDate(MakeDay(year1, 8, 1), months, grids, k, i);
    assert date == FirstOfMonth(y, mo) + i - m.firstDayInteger by {
      CellDateIsCalendarDate(year1, year2, months, grids, k, i);
    }
    assert m.firstDayInteger == WeekDays(WeekDay(FirstOfMonth(y, mo))) by {
      assert LaysOut(m, y, mo);
    }
    ColumnWeekDay(FirstOfMonth(y, mo), m, i, date);
  }

  /** Every date from 1 September of `year1` to 31 August of `year2` is the
      date of a numbered cell (`VisitedInOrder`: of one cell only). */
  lemma AcademicYearCovered(year1: int, year2: int, months: seq<Month>, grids: seq<array<Cell>>, t: int)
    requires year2 == year1 + 1
    requires AcademicLayout(year1, year2, months, grids)
    requires MakeDay(year1, 8, 1) <= t < MakeDay(year2, 8, 1)
    ensures exists k, i :: (0 <= k < 12 && 0 <= i < grids[k].Length && InMonth(i, months[k]) &&
      CellDate(MakeDay(year1, 8, 1), months, grids, k, i) == t)
  {
    CursorEnd(year1, year2, months, grids);
    EveryDateVisited(MakeDay(year1, 8, 1), months, grids, t, 12);
  }
}
