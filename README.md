# School-year calendar, modelled in Dafny

`scripts.js` fills an HTML calendar for a school year, from September of
`year_1` to August of `year_2`. It works in four steps:

- For each month it builds a `Month` record: its name, its length
  (`days_in_month`) and the Monday-first column of its first day
  (`first_day_integer`).
- It lists the twelve months in academic order (`create_academic_year`).
- It walks each month's grid of `<td>` cells alongside a date cursor that
  starts on 1 September of `year_1`. Cells outside the month are marked
  empty and lose their weekend style. Cells inside get the day numbers 1, 2,
  … and a bank-holiday or school-holiday style from `is_bank_holiday` and
  `is_school_holiday`. The cursor moves on one day per numbered cell.

The model has five modules:

- `EcmaDate` (date.dfy): the day arithmetic of the ECMAScript Date object
  that the script relies on, from section 21.4.1 of ECMA-262. Dates are day
  numbers, counted from 1 January 1970. It has `MakeDay`, `WeekDay`,
  `DayFromYear` and the inverse functions `YearFromDay`, `MonthFromDay` and
  `DateFromDay`, with their round-trip lemmas.
- `Months` (month.dfy): the `Month` record and `create_academic_year`.
- `Holidays` (holidays.dfy): the two holiday searches.
- `Calendar` (calendar.dfy): the renderer. A grid is an `array<Cell>`. A
  cell records the day number written into it, if any, and its set of style
  tags. `RenderMonth` is the `forEach` callback, a loop that updates the
  cells in place. `Render` is the `forEach` over the twelve grids. The
  theorems say where the cursor stands, which date every cell is checked
  against, and that every date of the year is visited exactly once, in
  order.
- `Settings` (settings.dfy): the 2022/2023 constants at the top of the
  script, and example lemmas about them.

How `days_in_month` is modelled: the script computes it as the day of the
month of "day 0" of the next month. The model writes that computation out
as `Months.LastDateOfMonth`. `Months.NewMonth` stores the Gregorian length
`DaysInMonth` instead, and `Months.LastDateOfMonthIsLength` proves that the
two are equal for every year and month. This keeps proofs that mention a
`Month` free of the inverse date functions.

The holiday dates are parameters of the renderer, a `Calendar.Config`. The
script's own values are in `Settings`.

## Model

| member | source | states |
|---|---|---|
| EcmaDate.DaysInMonth | scripts.js:61-62 | the month length is 28 to 31: February has 29 days in a leap year and 28 otherwise; April, June, September and November have 30 days; the other seven months have 31 |
| EcmaDate.DaysBeforeMonthTable | scripts.js:61-62 | the days before each month follow ECMA-262's cumulative table (0, 31, 59, …, 334), plus one from March on in a leap year; the twelve months add up to the year |
| EcmaDate.DayFromYearFormula | scripts.js:61-64 | counting year by year from 1970 gives ECMA-262's closed-form DayFromYear for every year, before or after 1970 |
| EcmaDate.DayFromYearClosedStep | scripts.js:61-64 | ECMA-262's closed form grows by 365 or 366 days from one year to the next, by the Gregorian leap rule |
| EcmaDate.DayFromYearMonotone | scripts.js:61-64 | a later year starts at least 365 days per year later |
| EcmaDate.MakeDayNormalises | scripts.js:62 | the Date constructor's month overflow: month m + 12 of year y is month m of year y + 1, so `new Date(y, 12, 0)` is date 0 of January of y + 1, that is 31 December of y; one date more is the next day number |
| EcmaDate.WeekDay | scripts.js:64 | `getDay()` is in 0..6 |
| EcmaDate.YearFromDay | scripts.js:62 | the year found for a day number is the one whose days contain it |
| EcmaDate.MonthFrom | scripts.js:62 | for a day d of the year, the month r found is the one whose days contain d: the start of month r ≤ d < the start of month r + 1, December included |
| EcmaDate.DateFromDayRange | scripts.js:62 | `getDate()` is a valid day of the month `MonthFromDay` names |
| EcmaDate.YearFromDayUnique | scripts.js:62 | a day inside year y has year y |
| EcmaDate.MonthFromUnique | scripts.js:62 | a day of the year inside month k is found in month k |
| EcmaDate.MakeDayInYear | scripts.js:62-64 | for a month in 0..11, `MakeDay` is the start of the year plus the days before the month plus the date minus one |
| EcmaDate.FirstOfMonthIsMakeDay | scripts.js:64 | the first of the month is `new Date(y, m, 1)` |
| EcmaDate.FirstOfMonthNext | scripts.js:179-180 | the day after a month's last day is the first of the next month, January of the next year after December |
| EcmaDate.DayNumberDecomposes | scripts.js:62 | every day number is the `MakeDay` of its own year, month and date |
| EcmaDate.DayNumberRoundTrip | scripts.js:62 | day d of month m of year y, as a day number, gives back y, m and d |
| EcmaDate.DateRoundTrip | scripts.js:62 | `MakeDay` followed by `YearFromDay`, `MonthFromDay` and `DateFromDay` returns every valid date unchanged |
| EcmaDate.MakeDayNextMonth | scripts.js:61-62 | a date in month m + 1 is the same date in month m moved on by m's length; this holds across the year end, as the Date constructor's month overflow does |
| Months.MonthNamesTable | scripts.js:31-44 | the `months` table has twelve distinct names, from "january" at index 0 through "september" at 8 to "december" at 11 |
| Months.WeekDays | scripts.js:51-59 | the `week_days` table gives a column in 0..6; Sunday (0) goes to the last column 6; every other day j goes to column j − 1, so Monday is column 0 |
| Months.LastDateOfMonth | scripts.js:62 | `new Date(year, month + 1, 0).getDate()` is a day of a month, 1 to 31 (`LastDateOfMonthIsLength` pins it to the month's length) |
| Months.NewMonth | scripts.js:46-65 | a `Month`'s length is 28 to 31 and is 29 exactly for February of a leap year; its first column is in 0..6 |
| Months.NewMonthName | scripts.js:60 | a `Month`'s name is the `months` table's entry for its month index, e.g. "september" for 8 |
| Months.NewMonthTwoDigitYear | scripts.js:62-64 | a year 0..99 is read as 1900..1999: `new Month(22, m)` is month m of 1922 |
| Months.WeekDaysShift | scripts.js:51-59 | the `week_days` table maps the Sunday-first index j to (j + 6) mod 7 |
| Months.LastDateOfMonthIsLength | scripts.js:61-62 | `new Date(year, month + 1, 0).getDate()` is the Gregorian length of the month, for every year |
| Months.NewMonthDays | scripts.js:61-62 | `days_in_month` equals the `getDate()` computation; it is 28 to 31; February has 29 days exactly in a leap year |
| Months.NewMonthFirstDay | scripts.js:51-64 | `first_day_integer` is in 0..6 and is the weekday of day 1 shifted to Monday-first: Monday is 0 and Sunday is 6 |
| Months.SlotMonth | scripts.js:84-97 | position k of the academic year holds a month in 0..11 |
| Months.SlotsContiguous | scripts.js:84-97 | consecutive positions are consecutive months; the year changes only after December; position 0 is September of `year_1`, position 12 is September of `year_2`; no month repeats |
| Months.MonthsOfYear | scripts.js:88-94 | one loop's pushes produce hi − lo months |
| Months.MonthsOfYearAt | scripts.js:88-94 | entry k of a loop's pushes is `new Month(year, lo + k)` |
| Months.AcademicYear | scripts.js:84-97 | the academic year has exactly 12 months |
| Months.AcademicYearAt | scripts.js:84-97 | entry k is `new Month` of month `SlotMonth(k)`, of `year_1` for k < 4 and of `year_2` from k = 4 on |
| Months.SlotMonthMod | scripts.js:88-93 | the month at position k is (k + 8) mod 12: 8..11 for the first loop, 0..7 for the second |
| Months.CreateAcademicYear | scripts.js:84-97 | the two push loops return exactly the academic year, in order |
| Holidays.IsBankHoliday | scripts.js:117-123 | the search returns true exactly when the date equals an entry of the list |
| Holidays.IsSchoolHoliday | scripts.js:125-133 | the search returns true exactly when some period contains the date, both ends included |
| Holidays.RangeInclusive | scripts.js:129 | both ends of a period count as holidays; the days just outside do not |
| Holidays.SchoolHolidayAppend | scripts.js:126-133 | the test over a concatenation of period lists is the disjunction of the tests over the parts |
| Calendar.Filled | scripts.js:150-165 | the count of numbered cells below index i is at most i |
| Calendar.InMonthCount | scripts.js:151-165 | a grid with room for its month numbers exactly `days_in_month` cells, those from `starting_index` to `stopping_index` − 1, and cell i gets the counter value i − `starting_index` + 1 |
| Calendar.FilledClosedForm | scripts.js:151-159 | for a month starting in the first row, the cells numbered before index i are none before `starting_index`, then i − `starting_index`, and `days_in_month` from `stopping_index` on |
| Calendar.FilledMonotone | scripts.js:164-165 | the counter never goes back, and it strictly grows past every numbered cell |
| Calendar.FilledReaches | scripts.js:164-165 | every day number 1 .. `days_in_month` written by a grid appears in some numbered cell |
| Calendar.DayTags | scripts.js:167-177 | the bank-holiday tag is added exactly for bank holidays, with or without a weekend tag; the school-holiday tag is added only to a cell that is not a bank holiday, not tagged weekend and in a holiday period; weekend and empty tags are untouched |
| Calendar.RenderMonth | scripts.js:150-181 | every cell ends as `RenderedCell` says: a cell outside the month is tagged empty, loses the weekend tag and keeps its text; a cell inside shows its day number and has the tags of the cursor's date; the cursor moves on by the number of numbered cells |
| Calendar.Render | scripts.js:148-183 | grid k is rendered with month k from the cursor position `CursorAt(k)`, and the cursor ends after all the grids' numbered cells |
| Calendar.RenderCalendar | scripts.js:137-183 | with the months of `create_academic_year` and the cursor started on 1 September of `year_1`, every grid is rendered as `Render` states |
| Calendar.CursorMonotone | scripts.js:179-180 | the cursor never moves backwards from one grid to the next |
| Calendar.EveryDateVisited | scripts.js:141-180 | every date from the start up to where the cursor stops is the date of some numbered cell |
| Calendar.VisitedInOrder | scripts.js:141-180 | numbered cells have strictly increasing dates along a grid and from grid to grid, so no date is visited twice |
| Calendar.ColumnWeekDay | scripts.js:51-64 | a numbered cell placed `first_day_integer` after column 0 falls on the weekday of its column i mod 7, with 0 for Monday |
| Calendar.AcademicYearLaysOut | scripts.js:62-97 | for any `year_1` and `year_2`, entry k of `create_academic_year` has the length and first column of month (k + 8) mod 12 of its year as the Date constructor reads it, so a year 0..99 lays out 1900..1999 |
| Calendar.AcademicYearLayout | scripts.js:84-114 | `create_academic_year`'s months, with grids that fit them, form the September-to-August layout the theorems below assume |
| Calendar.CursorContinuity | scripts.js:141-180 | the cursor enters each grid on the first of that grid's month |
| Calendar.CursorEnd | scripts.js:141-180 | after the twelve grids the cursor stands on 1 September of `year_2` |
| Calendar.CellDateIsCalendarDate | scripts.js:150-180 | numbered cell i shows d = i − `first_day_integer` + 1, with 1 ≤ d ≤ the month's length, and is checked against day d of its grid's month |
| Calendar.CellCalendarDate | scripts.js:150-180 | the date a numbered cell is checked against has its grid's year and month and the cell's day number |
| Calendar.CellWeekDay | scripts.js:51-64 | every numbered cell falls on the weekday of its column (Monday first) |
| Calendar.AcademicYearCovered | scripts.js:141-180 | every date from 1 September of `year_1` to 31 August of `year_2` is the date of a numbered cell |
| Settings.SettingsOrdered | scripts.js:8-29 | the bank holidays are in strictly increasing date order; every school-holiday period is non-empty and ends before the next one starts |
| Settings.NewYears | scripts.js:5-6 | 1 January 2022 and 2023 are day numbers 18993 and 19358 |
| Settings.Autumn2022Layout | scripts.js:46-64 | September 2022 (30 days) and December 2022 (31 days) both start on a Thursday, column 3 |
| Settings.BoxingDay2022 | scripts.js:8-29 | 26 December 2022 lies in the winter holidays but is a bank holiday, so its cell gets only the bank-holiday tag |
| Settings.HalfTermEnd2022 | scripts.js:20 | 28 October 2022, the last day of the autumn half term, is a school holiday |
| Settings.December2022Cell | scripts.js:150-177 | in the December 2022 grid, entered on 1 December, cell 28 shows 26 and is classified as 26 December |

## Left out

- DOM access is left out. This covers `document.querySelectorAll`,
  `innerHTML` and `classList` (scripts.js:70, 106, 156-174). A grid is an
  `array<Cell>` whose text and tag set the renderer rewrites.
- `add_calendar_year` (scripts.js:69-80) only appends the year to the month
  labels on the page. Its rule that positions below 4 belong to `year_1` is
  `Months.SlotYear`.
- `create_calendar_table_cells` (scripts.js:101-114) is not modelled. The
  grids are an input to `Calendar.RenderCalendar`: twelve distinct arrays in
  September-to-August order, which is the order that function pushes them.
- The weekend tags are an input. The page marks weekend cells before the
  script runs. The script only reads and removes them.
- Parsing of `"MM/DD/YYYY"` strings (scripts.js:9-25, 141) is not modelled.
  `Settings.Date` and the cursor start `MakeDay(year1, 8, 1)` take the
  year, month and day as numbers.
- Time zones, daylight saving and millisecond time values are not
  modelled. The model assumes that every date the script builds is local
  midnight. Under that assumption `getTime()` equality is day-number
  equality and `setDate(getDate() + 1)` adds one to the day number. In a
  time zone whose daylight-saving change skips local midnight, the
  script's dates are not all at midnight, and the model does not cover
  that case.
- ECMA-262's TimeClip bound on valid dates is not modelled: day numbers are
  unbounded integers.
- The string-to-number coercion of `year_1` and `year_2` is not modelled:
  the years are integers.
- `is_bank_holiday` and `is_school_holiday` return `undefined` when nothing
  matches, and the renderer reads that as false. The model returns `false`.
- The per-instance `week_days` object of `Month` is the function
  `Months.WeekDays`, not a field of the record.
- `RenderMonth` writes a cell's text and its tags in one assignment. The
  script writes the text first (scripts.js:164) and then the tags. The only
  read in between, the weekend test at scripts.js:171, looks at the classes,
  which the text write leaves unchanged.
- `Calendar.Render` requires at least as many months as grids. The script
  would fail with a `TypeError` on `academic_year[index]` otherwise.
  `create_academic_year` always supplies twelve.
- `Calendar.CursorContinuity`, `CellDateIsCalendarDate`, `CellCalendarDate`,
  `CellWeekDay` and `AcademicYearCovered` assume three things the script
  never checks: `year_2` is `year_1 + 1`, each grid has a cell for every day
  of its month, and, through `AcademicYearLayout`, `year_1` is at least 100.
  The last one means the Date constructor's 0..99 rule does not apply.
  `AcademicYearLaysOut` itself holds for every year.
