/** The settings block at the top of scripts.js, for the 2022/2023 school
    year, and what the model says about a few of its dates. */
module Settings {
  import opened EcmaDate
  import opened Months
  import opened Holidays
  import opened Calendar

  const Year1: int := 2022
  const Year2: int := 2023

  /** A `"MM/DD/YYYY"` date literal of the settings, as a day number. */
  function Date(mm: int, dd: int, yyyy: int): int {
    MakeDay(yyyy, mm - 1, dd)
  }

  const BankHolidays: seq<int> := [
    Date(12, 26, 2022), Date(12, 27, 2022), Date(1, 2, 2023), Date(4, 7, 2023),
    Date(4, 10, 2023), Date(5, 1, 2023), Date(5, 29, 2023), Date(8, 29, 2023)]

  /** `school_hols`: summer 2022, autumn half term, winter, spring half term,
      Easter, summer half term and summer 2023. */
  const SchoolHolidays: seq<Range> := [
    Range(Date(8, 31, 2022), Date(9, 5, 2022)),
    Range(Date(10, 24, 2022), Date(10, 28, 2022)),
    Range(Date(12, 19, 2022), Date(1, 3, 2023)),
    Range(Date(2, 13, 2023), Date(2, 17, 2023)),
    Range(Date(3, 31, 2023), Date(4, 17, 2023)),
    Range(Date(5, 29, 2023), Date(6, 2, 2023)),
    Range(Date(7, 25, 2023), Date(9, 4, 2023))]

  const Config2022: Config := Config(BankHolidays, SchoolHolidays)

  /** The settings are in date order: the bank holidays strictly increase,
      every holiday period is non-empty and each ends before the next begins. */
  lemma SettingsOrdered()
    ensures forall i :: 0 < i < |BankHolidays| ==> BankHolidays[i - 1] < BankHolidays[i]
    ensures forall i :: 0 <= i < |SchoolHolidays| ==> SchoolHolidays[i].start <= SchoolHolidays[i].end
    ensures forall i :: 0 < i < |SchoolHolidays| ==> SchoolHolidays[i - 1].end < SchoolHolidays[i].start
  {
    NewYears();
  }

  /** Day numbers of 1 January 2022 and 2023. */
  lemma NewYears()
    ensures DayFromYear(2022) == 18993 && DayFromYear(2023) == 19358
  {
    DayFromYearFormula(2022);
    DayFromYearFormula(2023);
  }

  /** September and December 2022 both start on a Thursday, column 3. */
  lemma Autumn2022Layout()
    ensures NewMonth(Year1, 8) == Month("september", 30, 3)
    ensures NewMonth(Year1, 11) == Month("december", 31, 3)
  {
    NewYears();
  }

  /** Boxing Day 2022 lies in the winter holidays but is a bank holiday, so
      its cell gets the bank-holiday tag and never the school-holiday tag. */
  lemma BoxingDay2022(tags: set<Tag>)
    requires SchoolHoliday !in tags
    ensures InSchoolHoliday(Date(12, 26, 2022), SchoolHolidays)
    ensures DayTags(tags, Date(12, 26, 2022), Config2022) == tags + {BankHoliday}
  {
    NewYears();
    assert InRange(Date(12, 26, 2022), SchoolHolidays[2]);
    assert Date(12, 26, 2022) == BankHolidays[0];
  }

  /** The end of a holiday period counts: Friday 28 October 2022, the last
      day of the autumn half term, is a school holiday. */
  lemma HalfTermEnd2022()
    ensures InSchoolHoliday(Date(10, 28, 2022), SchoolHolidays)
  {
    NewYears();
    assert InRange(Date(10, 28, 2022), SchoolHolidays[1]);
  }

  /** In the December 2022 grid, entered on 1 December, cell 28 shows 26
      and is checked against 26 December. */
  lemma December2022Cell(c: Cell)
    ensures RenderedCell(c, 28, NewMonth(Year1, 11), Date(12, 1, 2022), Config2022) ==
      Cell(Some(26), DayTags(c.tags, Date(12, 26, 2022), Config2022))
  {
    var m := NewMonth(Year1, 11);
    assert m == Month("december", 31, 3) by { Autumn2022Layout(); }
    assert Filled(28, m) == 25 by { FilledClosedForm(28, m); }
    assert Date(12, 1, 2022) + 25 == Date(12, 26, 2022) by {
      MakeDayInYear(2022, 11, 1);
      MakeDayInYear(2022, 11, 26);
    }
  }
}
