/** The two holiday tests of scripts.js. Dates are day numbers (see
    `EcmaDate`); a school-holiday period is an inclusive pair of dates. */
module Holidays {

  /** One `[range_start, range_end]` pair of the school-holiday list. */
  datatype Range = Range(start: int, end: int)

  /** `date` lies in the period, both ends included. */
  predicate InRange(date: int, r: Range) {
    r.start <= date <= r.end
  }

  /** `date` lies in at least one of the periods. */
  predicate InSchoolHoliday(date: int, ranges: seq<Range>) {
    exists i :: 0 <= i < |ranges| && InRange(date, ranges[i])
  }

  /** `is_bank_holiday`: a linear search for an entry equal to `date`; the
      source falls off the end of the loop (an `undefined`, which the caller
      reads as false) when there is none. */
  method IsBankHoliday(date: int, bankHolidays: seq<int>) returns (b: bool)
    ensures b <==> date in bankHolidays
  {
    var i := 0;
    while i < |bankHolidays|
      invariant 0 <= i <= |bankHolidays|
      invariant date !in bankHolidays[..i]
    {
      if date == bankHolidays[i] {
        return true;
      }
      i := i + 1;
    }
    assert bankHolidays[..i] == bankHolidays;
    return false;
  }

  /** `is_school_holiday`: a linear search for a period that contains `date`. */
  method IsSchoolHoliday(date: int, ranges: seq<Range>) returns (b: bool)
    ensures b <==> InSchoolHoliday(date, ranges)
  {
    var i := 0;
    while i < |ranges|
      invariant 0 <= i <= |ranges|
      invariant forall j :: 0 <= j < i ==> !InRange(date, ranges[j])
    {
      var rangeStart, rangeEnd := ranges[i].start, ranges[i].end;
      if date >= rangeStart && date <= rangeEnd {
        return true;
      }
      i := i + 1;
    }
    return false;
  }

  /** Both ends of a non-empty period are holidays, and the days just outside
      it are not. */
  lemma RangeInclusive(r: Range)
    requires r.start <= r.end
    ensures InSchoolHoliday(r.start, [r]) && InSchoolHoliday(r.end, [r])
    ensures !InSchoolHoliday(r.start - 1, [r]) && !InSchoolHoliday(r.end + 1, [r])
  {
    assert InRange(r.start, [r][0]);
    assert InRange(r.end, [r][0]);
  }

  /** Splitting the list of periods splits the test: the order of the
      periods and how they are grouped do not matter. */
  lemma {:induction false} SchoolHolidayAppend(date: int, a: seq<Range>, b: seq<Range>)
    ensures InSchoolHoliday(date, a + b) <==> InSchoolHoliday(date, a) || InSchoolHoliday(date, b)
  {
    if InSchoolHoliday(date, a + b) {
      var i :| 0 <= i < |a + b| && InRange(date, (a + b)[i]);
      if i < |a| {
        assert InRange(date, a[i]);
      } else {
        assert InRange(date, b[i - |a|]);
      }
    }
    if InSchoolHoliday(date, a) {
      var i :| 0 <= i < |a| && InRange(date, a[i]);
      assert InRange(date, (a + b)[i]);
    }
    if InSchoolHoliday(date, b) {
      var i :| 0 <= i < |b| && InRange(date, b[i]);
      assert InRange(date, (a + b)[|a| + i]);
    }
  }
}
