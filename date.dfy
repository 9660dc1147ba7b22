/** Day arithmetic of the proleptic Gregorian calendar as the ECMAScript Date
    object uses it (section 21.4.1 of ECMA-262). A date is a day number: the
    number of days since 1 January 1970. Months are 0-based (0 = January). */
module EcmaDate {

  /** Gregorian leap-year rule (ECMA-262 DaysInYear). */
  predicate IsLeap(y: int) {
    y % 4 == 0 && (y % 100 != 0 || y % 400 == 0)
  }

  function DaysInYear(y: int): int {
    if IsLeap(y) then 366 else 365
  }

  /** Length of month `m` of year `y`. */
  function DaysInMonth(y: int, m: int): (r: int)
    requires 0 <= m < 12
    ensures 28 <= r <= 31
    ensures m == 1 ==> r == (if IsLeap(y) then 29 else 28)
    ensures m != 1 ==> r == (if m in {3, 5, 8, 10} then 30 else 31)
  {
    if m == 1 then (if IsLeap(y) then 29 else 28)
    else if m == 3 || m == 5 || m == 8 || m == 10 then 30
    else 31
  }

  /** Day number of 1 January of year `y` (ECMA-262 DayFromYear), counted
      year by year from 1970; `DayFromYearFormula` proves the closed form. */
  function DayFromYear(y: int): int
    decreases if y < 1970 then 1970 - y else y - 1970
  {
    if y == 1970 then 0
    else if y > 1970 then DayFromYear(y - 1) + DaysInYear(y - 1)
    else DayFromYear(y + 1) - DaysInYear(y)
  }

  /** The closed form ECMA-262 gives for DayFromYear; `/` is floor division
      here because every divisor is positive. */
  function DayFromYearClosed(y: int): int {
    365 * (y - 1970) + (y - 1969) / 4 - (y - 1901) / 100 + (y - 1601) / 400
  }

  /** Days of year `y` that lie before the first of month `m`. */
  function DaysBeforeMonth(y: int, m: int): int
    requires 0 <= m <= 12
  {
    if m == 0 then 0 else DaysBeforeMonth(y, m - 1) + DaysInMonth(y, m - 1)
  }

  /** The cumulative table ECMA-262 MonthFromTime is written with; the whole
      year adds up to `DaysInYear`. */
  lemma {:induction false} DaysBeforeMonthTable(y: int, m: int)
    requires 0 <= m <= 12
    ensures var leap := if IsLeap(y) then 1 else 0;
      DaysBeforeMonth(y, m) ==
        [0, 31, 59, 90, 120, 151, 181, 212, 243, 273, 304, 334, 365][m] + (if m >= 2 then leap else 0)
    ensures m == 12 ==> DaysBeforeMonth(y, m) == DaysInYear(y)
  {
    if m > 0 {
      DaysBeforeMonthTable(y, m - 1);
    }
  }

  lemma {:induction false} DaysBeforeMonthMonotone(y: int, a: int, b: int)
    requires 0 <= a <= b <= 12
    ensures DaysBeforeMonth(y, a) + 28 * (b - a) <= DaysBeforeMonth(y, b)
    decreases b - a
  {
    if a < b {
      DaysBeforeMonthMonotone(y, a, b - 1);
    }
  }

  /** ECMA-262 MakeDay: the month may lie outside 0..11 and the date outside
      the month; both are normalised by plain arithmetic. */
  function MakeDay(year: int, month: int, date: int): int {
    var ym := year + month / 12;
    var mn := month % 12;
    DayFromYear(ym) + DaysBeforeMonth(ym, mn) + date - 1
  }

  /** `MakeDay` normalises out-of-range parts: twelve months more is the same
      month of the next year, and one date more is the next day. */
  lemma MakeDayNormalises(y: int, m: int, d: int)
    ensures MakeDay(y, m + 12, d) == MakeDay(y + 1, m, d)
    ensures MakeDay(y, m, d + 1) == MakeDay(y, m, d) + 1
  {
    assert (m + 12) / 12 == m / 12 + 1 && (m + 12) % 12 == m % 12;
  }

  /** ECMA-262 WeekDay: 0 = Sunday, ..., 6 = Saturday; day 0 was a Thursday. */
  function WeekDay(t: int): (r: int)
    ensures 0 <= r < 7
  {
    (t + 4) % 7
  }

  /** The years `DayFromYear` starts are `DaysInYear` apart. */
  lemma DayFromYearStep(y: int)
    ensures DayFromYear(y + 1) == DayFromYear(y) + DaysInYear(y)
  {
  }

  /** Floor division by 4, 100 and 400 steps up exactly at the multiples. */
  lemma Floor4(y: int)
    ensures (y - 1968) / 4 == (y - 1969) / 4 + (if y % 4 == 0 then 1 else 0)
  {
  }

  lemma Floor100(y: int)
    ensures (y - 1900) / 100 == (y - 1901) / 100 + (if y % 100 == 0 then 1 else 0)
    ensures y % 100 == 0 ==> y % 4 == 0
  {
  }

  lemma Floor400(y: int)
    ensures (y - 1600) / 400 == (y - 1601) / 400 + (if y % 400 == 0 then 1 else 0)
    ensures y % 400 == 0 ==> y % 100 == 0
  {
  }

  /** The closed form grows by `DaysInYear` from one year to the next. */
  lemma DayFromYearClosedStep(y: int)
    ensures DayFromYearClosed(y + 1) == DayFromYearClosed(y) + DaysInYear(y)
  {
    Floor4(y);
    Floor100(y);
    Floor400(y);
  }

  /** The year-by-year count equals ECMA-262's closed form for every year. */
  lemma {:induction false} DayFromYearFormula(y: int)
    ensures DayFromYear(y) == DayFromYearClosed(y)
    decreases if y < 1970 then 1970 - y else y - 1970
  {
    if y > 1970 {
      DayFromYearFormula(y - 1);
      DayFromYearClosedStep(y - 1);
    } else if y < 1970 {
      DayFromYearFormula(y + 1);
      DayFromYearClosedStep(y);
    }
  }

  lemma {:induction false} DayFromYearMonotone(a: int, b: int)
    requires a <= b
    ensures DayFromYear(a) + 365 * (b - a) <= DayFromYear(b)
    decreases b - a
  {
    if a < b {
      DayFromYearStep(b - 1);
      DayFromYearMonotone(a, b - 1);
    }
  }

  function YearUp(t: int, y: int): (r: int)
    requires DayFromYear(y) <= t
    ensures DayFromYear(r) <= t < DayFromYear(r + 1)
    decreases t - DayFromYear(y)
  {
    if t < DayFromYear(y + 1) then y else YearUp(t, y + 1)
  }

  function YearDown(t: int, y: int): (r: int)
    requires t < DayFromYear(y + 1)
    ensures DayFromYear(r) <= t < DayFromYear(r + 1)
    decreases DayFromYear(y + 1) - t
  {
    if DayFromYear(y) <= t then y else YearDown(t, y - 1)
  }

  /** ECMA-262 YearFromTime, on day numbers: the year whose days contain `t`. */
  function YearFromDay(t: int): (y: int)
    ensures DayFromYear(y) <= t < DayFromYear(y + 1)
  {
    if t >= 0 then YearUp(t, 1970) else YearDown(t, 1969)
  }

  /** The month of year `y` whose days contain day `d` of the year, searched
      upwards from month `m`. */
  function MonthFrom(y: int, d: int, m: int): (r: int)
    requires 0 <= m < 12
    requires DaysBeforeMonth(y, m) <= d < DaysBeforeMonth(y, 12)
    ensures m <= r < 12
    ensures DaysBeforeMonth(y, r) <= d < DaysBeforeMonth(y, r + 1)
    decreases 12 - m
  {
    if m == 11 || d < DaysBeforeMonth(y, m + 1) then m else MonthFrom(y, d, m + 1)
  }

  /** ECMA-262 DayWithinYear. */
  function DayWithinYear(t: int): (d: int)
    ensures 0 <= d
  {
    t - DayFromYear(YearFromDay(t))
  }

  /** ECMA-262 MonthFromTime, on day numbers. */
  function MonthFromDay(t: int): (m: int)
    ensures 0 <= m < 12
  {
    var y := YearFromDay(t);
    DayFromYearStep(y);
    DaysBeforeMonthTable(y, 12);
    MonthFrom(y, DayWithinYear(t), 0)
  }

  /** ECMA-262 DateFromTime, on day numbers: the day of the month, from 1. */
  function DateFromDay(t: int): int {
    DayWithinYear(t) - DaysBeforeMonth(YearFromDay(t), MonthFromDay(t)) + 1
  }

  /** `DateFromDay` is a valid day of the month `MonthFromDay` names. */
  lemma DateFromDayRange(t: int)
    ensures 1 <= DateFromDay(t) <= DaysInMonth(YearFromDay(t), MonthFromDay(t))
  {
    var y, m := YearFromDay(t), MonthFromDay(t);
    DayFromYearStep(y);
    DaysBeforeMonthTable(y, 12);
    assert DaysBeforeMonth(y, m + 1) == DaysBeforeMonth(y, m) + DaysInMonth(y, m);
  }

  /** For an ordinary month `MakeDay` is the plain sum of its parts. */
  lemma MakeDayInYear(y: int, m: int, d: int)
    requires 0 <= m < 12
    ensures MakeDay(y, m, d) == DayFromYear(y) + DaysBeforeMonth(y, m) + d - 1
  {
    assert m / 12 == 0 && m % 12 == m;
  }

  /** Day number of the first of month `m` of year `y`. */
  function FirstOfMonth(y: int, m: int): int
    requires 0 <= m < 12
  {
    DayFromYear(y) + DaysBeforeMonth(y, m)
  }

  /** `FirstOfMonth` is the day `MakeDay(y, m, 1)`, i.e. `new Date(y, m, 1)`. */
  lemma FirstOfMonthIsMakeDay(y: int, m: int)
    requires 0 <= m < 12
    ensures FirstOfMonth(y, m) == MakeDay(y, m, 1)
  {
    MakeDayInYear(y, m, 1);
  }

  /** The day after the last of month `m` is the first of the next month,
      January of the next year after December. */
  lemma FirstOfMonthNext(y: int, m: int)
    requires 0 <= m < 12
    ensures m < 11 ==> FirstOfMonth(y, m) + DaysInMonth(y, m) == FirstOfMonth(y, m + 1)
    ensures m == 11 ==> FirstOfMonth(y, m) + DaysInMonth(y, m) == FirstOfMonth(y + 1, 0)
  {
    if m == 11 {
      DaysBeforeMonthTable(y, 12);
      DayFromYearStep(y);
    }
  }

  /** Every day number is the `MakeDay` of its own year, month and date. */
  lemma DayNumberDecomposes(t: int)
    ensures MakeDay(YearFromDay(t), MonthFromDay(t), DateFromDay(t)) == t
  {
    MakeDayInYear(YearFromDay(t), MonthFromDay(t), DateFromDay(t));
  }

  /** Any day number inside year `y` has `y` as its year. */
  lemma YearFromDayUnique(t: int, y: int)
    requires DayFromYear(y) <= t < DayFromYear(y + 1)
    ensures YearFromDay(t) == y
  {
    var r := YearFromDay(t);
    if r < y {
      DayFromYearMonotone(r + 1, y);
    } else if r > y {
      DayFromYearMonotone(y + 1, r);
    }
  }

  lemma {:induction false} MonthFromUnique(y: int, d: int, m: int, k: int)
    requires 0 <= m <= k < 12
    requires DaysBeforeMonth(y, m) <= d < DaysBeforeMonth(y, 12)
    requires DaysBeforeMonth(y, k) <= d < DaysBeforeMonth(y, k + 1)
    ensures MonthFrom(y, d, m) == k
    decreases 12 - m
  {
    if m < k {
      DaysBeforeMonthMonotone(y, m + 1, k);
      MonthFromUnique(y, d, m + 1, k);
    }
  }

  /** The day `d - 1` days after the first of month `m` of year `y` has
      year `y`, month `m` and date `d`. */
  lemma DayNumberRoundTrip(y: int, m: int, d: int, t: int)
    requires 0 <= m < 12 && 1 <= d <= DaysInMonth(y, m)
    requires t == DayFromYear(y) + DaysBeforeMonth(y, m) + d - 1
    ensures YearFromDay(t) == y && MonthFromDay(t) == m && DateFromDay(t) == d
  {
    DaysBeforeMonthTable(y, 12);
    DaysBeforeMonthMonotone(y, m + 1, 12);
    DaysBeforeMonthMonotone(y, 0, m);
    assert DaysBeforeMonth(y, m + 1) == DaysBeforeMonth(y, m) + DaysInMonth(y, m);
    DayFromYearStep(y);
    YearFromDayUnique(t, y);
    assert DayWithinYear(t) == t - DayFromYear(y);
    MonthFromUnique(y, t - DayFromYear(y), 0, m);
    assert MonthFromDay(t) == m;
  }

  /** A valid calendar date survives the trip to a day number and back. */
  lemma DateRoundTrip(y: int, m: int, d: int)
    requires 0 <= m < 12 && 1 <= d <= DaysInMonth(y, m)
    ensures YearFromDay(MakeDay(y, m, d)) == y
    ensures MonthFromDay(MakeDay(y, m, d)) == m
    ensures DateFromDay(MakeDay(y, m, d)) == d
  {
    MakeDayInYear(y, m, d);
    DayNumberRoundTrip(y, m, d, MakeDay(y, m, d));
  }

  /** Crossing the end of month `m` moves on to the next month; after
      December this is January of the next year. */
  lemma MakeDayNextMonth(y: int, m: int, d: int)
    requires 0 <= m < 12
    ensures MakeDay(y, m + 1, d) == MakeDay(y, m, d) + DaysInMonth(y, m)
  {
    MakeDayInYear(y, m, d);
    if m == 11 {
      DaysBeforeMonthTable(y, 12);
      DayFromYearStep(y);
      assert MakeDay(y, 12, d) == DayFromYear(y + 1) + d - 1;
    } else {
      MakeDayInYear(y, m + 1, d);
    }
  }
}
