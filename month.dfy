/** Month metadata (the `Month` class of scripts.js) and the ordered list of
    the twelve months of an academic year, September to August. */
module Months {
  import opened EcmaDate

  /** One month's layout: its lower-case English name, its length and the
      Monday-first column (0 = Monday ... 6 = Sunday) of its first day. */
  datatype Month = Month(name: string, daysInMonth: int, firstDayInteger: int)

  const MonthNames: seq<string> := ["january", "february", "march", "april", "may", "june",
    "july", "august", "september", "october", "november", "december"]

  /** The `months` table names the twelve month indices 0 (January) to 11
      (December), each with a different name. */
  lemma MonthNamesTable()
    ensures |MonthNames| == 12
    ensures MonthNames[0] == "january" && MonthNames[8] == "september" && MonthNames[11] == "december"
    ensures forall i, j :: 0 <= i < j < |MonthNames| ==> MonthNames[i] != MonthNames[j]
  {
  }

  /** The `week_days` table: JavaScript's Sunday-first weekday index (0 =
      Sunday) to the calendar's Monday-first column (0 = Monday). */
  function WeekDays(jsDay: int): (c: int)
    requires 0 <= jsDay < 7
    ensures 0 <= c < 7
    ensures c == 6 <==> jsDay == 0
    ensures jsDay != 0 ==> c == jsDay - 1
  {
    if jsDay == 1 then 0
    else if jsDay == 2 then 1
    else if jsDay == 3 then 2
    else if jsDay == 4 then 3
    else if jsDay == 5 then 4
    else if jsDay == 6 then 5
    else 6
  }

  /** The year the Date constructor uses: 0..99 stand for 1900..1999
      (section 21.4.2.1 of ECMA-262). */
  function MakeFullYear(y: int): int {
    if 0 <= y <= 99 then 1900 + y else y
  }

  /** The source's way of finding a month's length: the day of the month of
      "day 0" of the next month, which the Date constructor rolls back to the
      last day of month `month`. */
  function LastDateOfMonth(year: int, month: int): (r: int)
    requires 0 <= month < 12
    ensures 1 <= r <= 31
  {
    var t := MakeDay(MakeFullYear(year), month + 1, 0);
    DateFromDayRange(t);
    DateFromDay(t)
  }

  /** `new Month(year, month)`: the name, the length (`LastDateOfMonth`, which
      `LastDateOfMonthIsLength` proves is the Gregorian length) and the
      Monday-first column of the weekday of day 1, `new Date(year, month, 1)`
      (`FirstOfMonthIsMakeDay`). */
  function NewMonth(year: int, month: int): (r: Month)
    requires 0 <= month < 12
    ensures 28 <= r.daysInMonth <= 31 && 0 <= r.firstDayInteger < 7
    ensures r.daysInMonth == 29 <==> month == 1 && IsLeap(MakeFullYear(year))
  {
    var firstDay := FirstOfMonth(MakeFullYear(year), month);
    Month(MonthNames[month], DaysInMonth(MakeFullYear(year), month), WeekDays(WeekDay(firstDay)))
  }

  /** `this.name = months[month]`: the name is the table entry of the month
      index, whatever the year. */
  lemma NewMonthName(year: int, month: int)
    requires 0 <= month < 12
    ensures NewMonth(year, month).name == MonthNames[month]
    ensures month == 8 ==> NewMonth(year, month).name == "september"
  {
  }

  /** A two-digit year is read as a year of the twentieth century:
      `new Month(22, m)` is month m of 1922, not of 2022. */
  lemma NewMonthTwoDigitYear(year: int, month: int)
    requires 0 <= month < 12
    ensures 0 <= year <= 99 ==> NewMonth(year, month) == NewMonth(1900 + year, month)
  {
  }

  /** The Sunday-first to Monday-first table shifts every index back by one. */
  lemma WeekDaysShift(j: int)
    requires 0 <= j < 7
    ensures WeekDays(j) == (j + 6) % 7
  {
  }

  /** Day 0 of the next month is the last day of this one, so the source's
      `getDate()` trick yields the Gregorian length of the month. */
  lemma LastDateOfMonthIsLength(year: int, month: int)
    requires 0 <= month < 12
    ensures LastDateOfMonth(year, month) == DaysInMonth(MakeFullYear(year), month)
  {
    var y := MakeFullYear(year);
    var n := DaysInMonth(y, month);
    MakeDayNextMonth(y, month, 0);
    assert MakeDay(y, month + 1, 0) == MakeDay(y, month, n);
    DateRoundTrip(y, month, n);
  }

  /** `days_in_month` is the date of the month's last day: 28 to 31, and 29
      for February exactly in leap years. */
  lemma NewMonthDays(year: int, month: int)
    requires 0 <= month < 12
    ensures NewMonth(year, month).daysInMonth == LastDateOfMonth(year, month)
    ensures 28 <= NewMonth(year, month).daysInMonth <= 31
    ensures month == 1 ==> (NewMonth(year, month).daysInMonth == 29 <==> IsLeap(MakeFullYear(year)))
  {
    LastDateOfMonthIsLength(year, month);
  }

  /** `first_day_integer` is the weekday of day 1 counted from Monday: 0 for a
      Monday ... 5 for a Saturday and 6 for a Sunday. */
  lemma NewMonthFirstDay(year: int, month: int)
    requires 0 <= month < 12
    ensures var f := NewMonth(year, month).firstDayInteger;
      var js := WeekDay(MakeDay(MakeFullYear(year), month, 1));
      0 <= f <= 6 && f == (js + 6) % 7 && (f == 0 <==> js == 1) && (f == 6 <==> js == 0)
  {
    var js := WeekDay(MakeDay(MakeFullYear(year), month, 1));
    FirstOfMonthIsMakeDay(MakeFullYear(year), month);
    WeekDaysShift(js);
    assert NewMonth(year, month).firstDayInteger == WeekDays(js);
  }

  /** Calendar month of position `k` of the academic year: position 0 is
      September, position 12 would be the next September. */
  function SlotMonth(k: int): (m: int)
    requires 0 <= k <= 12
    ensures 0 <= m < 12
  {
    if k < 4 then k + 8 else k - 4
  }

  /** The `if` of `SlotMonth` is the arithmetic rule "(k + 8) mod 12". */
  lemma SlotMonthMod(k: int)
    requires 0 <= k < 12
    ensures SlotMonth(k) == (k + 8) % 12
  {
  }

  /** Year of position `k`: September to December belong to `year1`. */
  function SlotYear(year1: int, year2: int, k: int): int {
    if k < 4 then year1 else year2
  }

  /** The positions run through the calendar without gap or repeat: each is
      the month after the previous one, the year changes only between
      December and January, and position 12 is September of `year2`. */
  lemma SlotsContiguous(year1: int, year2: int, k: int)
    requires 0 <= k < 12
    requires year2 == year1 + 1
    ensures SlotMonth(k + 1) == (SlotMonth(k) + 1) % 12
    ensures SlotYear(year1, year2, k + 1) ==
      SlotYear(year1, year2, k) + (if SlotMonth(k) == 11 then 1 else 0)
    ensures SlotMonth(0) == 8 && SlotMonth(11) == 7 && SlotMonth(12) == 8
    ensures SlotYear(year1, year2, 0) == year1 && SlotYear(year1, year2, 12) == year2
    ensures forall j :: 0 <= j < k ==> SlotMonth(j) != SlotMonth(k)
  {
  }

  /** Months `lo` to `hi - 1` of `year`, in order. */
  function MonthsOfYear(year: int, lo: int, hi: int): (r: seq<Month>)
    requires 0 <= lo <= hi <= 12
    ensures |r| == hi - lo
    decreases hi - lo
  {
    if hi == lo then [] else MonthsOfYear(year, lo, hi - 1) + [NewMonth(year, hi - 1)]
  }

  lemma {:induction false} MonthsOfYearAt(year: int, lo: int, hi: int, k: int)
    requires 0 <= lo <= hi <= 12 && 0 <= k < hi - lo
    ensures MonthsOfYear(year, lo, hi)[k] == NewMonth(year, lo + k)
    decreases hi - lo
  {
    if k < hi - lo - 1 {
      MonthsOfYearAt(year, lo, hi - 1, k);
    }
  }

  /** The academic year September `year1` to August `year2`. */
  function AcademicYear(year1: int, year2: int): (r: seq<Month>)
    ensures |r| == 12
  {
    MonthsOfYear(year1, 8, 12) + MonthsOfYear(year2, 0, 8)
  }

  /** Entry `k` of the academic year is the month `SlotMonth(k)` of
      `SlotYear(k)`: September to December of `year1`, then January to August
      of `year2`. */
  lemma AcademicYearAt(year1: int, year2: int, k: int)
    requires 0 <= k < 12
    ensures AcademicYear(year1, year2)[k] == NewMonth(SlotYear(year1, year2, k), SlotMonth(k))
  {
    var a := AcademicYear(year1, year2);
    if k < 4 {
      MonthsOfYearAt(year1, 8, 12, k);
      assert a[k] == MonthsOfYear(year1, 8, 12)[k];
      assert SlotMonth(k) == k + 8 && SlotYear(year1, year2, k) == year1;
    } else {
      MonthsOfYearAt(year2, 0, 8, k - 4);
      assert a[k] == MonthsOfYear(year2, 0, 8)[k - 4];
      assert SlotMonth(k) == k - 4 && SlotYear(year1, year2, k) == year2;
    }
  }

  /** `create_academic_year`: September to December of `year1`, then January
      to August of `year2`, pushed one by one. */
  method CreateAcademicYear(year1: int, year2: int) returns (arr: seq<Month>)
    ensures arr == AcademicYear(year1, year2)
  {
    arr := [];
    var i := 8;
    while i < 12
      invariant 8 <= i <= 12
      invariant arr == MonthsOfYear(year1, 8, i)
    {
      arr := arr + [NewMonth(year1, i)];
      i := i + 1;
    }
    var x := 0;
    while x < 8
      invariant 0 <= x <= 8
      invariant arr == MonthsOfYear(year1, 8, 12) + MonthsOfYear(year2, 0, x)
    {
      arr := arr + [NewMonth(year2, x)];
      x := x + 1;
    }
  }
}
