/** The day count behind certificate dates, against a calendar that counts
    days one by one. */
module Calendar {
  import opened Integers

  /** The Gregorian rule. A zero remainder is zero under every convention, so
      negative years need no care. */
  predicate IsLeap(year: int) {
    year % 4 == 0 && (year % 100 != 0 || year % 400 == 0)
  }

  function DaysInMonth(year: int, month: int): int {
    if month == 2 then if IsLeap(year) then 29 else 28
    else if month == 4 || month == 6 || month == 9 || month == 11 then 30
    else if 1 <= month <= 12 then 31
    else 0
  }

  /** Days from 1970-01-01, with every division rounding toward zero. */
  function DaysFromCivil(year: int, month: int, day: int): int {
    var y := if month <= 2 then year - 1 else year;
    var era := TruncDiv(if y >= 0 then y else y - 399, 400);
    var yearOfEra := y - era * 400;
    var dayOfYear := TruncDiv(153 * (if month > 2 then month - 3 else month + 9) + 2, 5) + day - 1;
    var dayOfEra := yearOfEra * 365 + TruncDiv(yearOfEra, 4) - TruncDiv(yearOfEra, 100) + dayOfYear;
    era * 146_097 + dayOfEra - 719_468
  }

  // ------------------------------------------------- the naive calendar

  datatype Date = Date(year: int, month: int, day: int)

  predicate ValidDate(d: Date) {
    1 <= d.month <= 12 && 1 <= d.day <= DaysInMonth(d.year, d.month)
  }

  function NextDate(d: Date): Date
    requires ValidDate(d)
  {
    if d.day < DaysInMonth(d.year, d.month) then d.(day := d.day + 1)
    else if d.month < 12 then Date(d.year, d.month + 1, 1)
    else Date(d.year + 1, 1, 1)
  }

  function DaysInYear(year: int): int {
    if IsLeap(year) then 366 else 365
  }

  /** Days from the start of 1970 to the start of `year`, year by year. */
  function YearStart(year: int): int
    decreases if year < 1970 then 1970 - year else year - 1970
  {
    if year == 1970 then 0
    else if year > 1970 then YearStart(year - 1) + DaysInYear(year - 1)
    else YearStart(year + 1) - DaysInYear(year)
  }

  /** Days from the start of the year to the start of `month`, month by month. */
  function MonthStart(year: int, month: int): int
    requires 1 <= month <= 13
    decreases month
  {
    if month == 1 then 0 else MonthStart(year, month - 1) + DaysInMonth(year, month - 1)
  }

  function NaiveDays(d: Date): int
    requires ValidDate(d)
  {
    YearStart(d.year) + MonthStart(d.year, d.month) + d.day - 1
  }

  predicate Earlier(a: Date, b: Date) {
    a.year < b.year
    || (a.year == b.year && (a.month < b.month || (a.month == b.month && a.day < b.day)))
  }

  // ------------------------------------------------------------- proofs

  /** Days before March of year `y` of a calendar whose years start in March. */
  function MarchYears(y: int): int {
    365 * y + y / 4 - y / 100 + y / 400
  }

  /** Splitting off whole eras changes nothing, and rounding toward zero after
      the correction by 399 is rounding down. */
  lemma ErasAddUp(y: int)
    ensures var era := TruncDiv(if y >= 0 then y else y - 399, 400);
      var r := y - era * 400;
      0 <= r < 400 && era * 146_097 + r * 365 + TruncDiv(r, 4) - TruncDiv(r, 100) == MarchYears(y)
  {
    var era := TruncDiv(if y >= 0 then y else y - 399, 400);
    var r := y - era * 400;
    assert era == y / 400;
    assert y / 4 == 100 * era + r / 4;
    assert y / 100 == 4 * era + r / 100;
  }

  lemma CivilIsMarchCount(year: int, month: int, day: int)
    requires 1 <= month <= 12
    ensures DaysFromCivil(year, month, day) ==
      (if month <= 2 then MarchYears(year - 1) else MarchYears(year))
      + (153 * (if month > 2 then month - 3 else month + 9) + 2) / 5 + day - 1 - 719_468
  {
    ErasAddUp(if month <= 2 then year - 1 else year);
  }

  lemma MarchYearGrows(y: int)
    ensures MarchYears(y) - MarchYears(y - 1) == DaysInYear(y)
  {
    assert y / 4 - (y - 1) / 4 == if y % 4 == 0 then 1 else 0;
    assert y / 100 - (y - 1) / 100 == if y % 100 == 0 then 1 else 0;
    assert y / 400 - (y - 1) / 400 == if y % 400 == 0 then 1 else 0;
  }

  lemma {:induction false} JanuaryFirst(year: int)
    ensures DaysFromCivil(year, 1, 1) == YearStart(year)
    decreases if year < 1970 then 1970 - year else year - 1970
  {
    CivilIsMarchCount(year, 1, 1);
    if year > 1970 {
      JanuaryFirst(year - 1);
      CivilIsMarchCount(year - 1, 1, 1);
      MarchYearGrows(year - 1);
    } else if year < 1970 {
      JanuaryFirst(year + 1);
      CivilIsMarchCount(year + 1, 1, 1);
      MarchYearGrows(year);
    }
  }

  /** The formula for a month's start in a year that begins in March. */
  lemma MonthFormula(year: int, month: int)
    requires 1 <= month <= 12
    ensures var leap := if IsLeap(year) then 1 else 0;
      (153 * (if month > 2 then month - 3 else month + 9) + 2) / 5
      == MonthStart(year, month) + (if month <= 2 then 306 else -59 - leap)
  {
    MonthStarts(year);
    if month <= 6 {
      assert month == 1 || month == 2 || month == 3 || month == 4 || month == 5 || month == 6;
    } else {
      assert month == 7 || month == 8 || month == 9 || month == 10 || month == 11 || month == 12;
    }
  }

  lemma MonthFirst(year: int, month: int)
    requires 1 <= month <= 12
    ensures DaysFromCivil(year, month, 1) == DaysFromCivil(year, 1, 1) + MonthStart(year, month)
  {
    CivilIsMarchCount(year, 1, 1);
    CivilIsMarchCount(year, month, 1);
    MarchYearGrows(year);
    MonthFormula(year, month);
    MonthFormula(year, 1);
  }

  lemma MonthStarts(year: int)
    ensures var leap := if IsLeap(year) then 1 else 0;
      MonthStart(year, 1) == 0 && MonthStart(year, 2) == 31 && MonthStart(year, 3) == 59 + leap
      && MonthStart(year, 4) == 90 + leap && MonthStart(year, 5) == 120 + leap && MonthStart(year, 6) == 151 + leap
      && MonthStart(year, 7) == 181 + leap && MonthStart(year, 8) == 212 + leap && MonthStart(year, 9) == 243 + leap
      && MonthStart(year, 10) == 273 + leap && MonthStart(year, 11) == 304 + leap
      && MonthStart(year, 12) == 334 + leap && MonthStart(year, 13) == 365 + leap
  {
    assert MonthStart(year, 1) == 0 && MonthStart(year, 2) == 31;
    assert MonthStart(year, 4) == MonthStart(year, 3) + 31;
    assert MonthStart(year, 6) == MonthStart(year, 5) + 31;
    assert MonthStart(year, 8) == MonthStart(year, 7) + 31;
    assert MonthStart(year, 10) == MonthStart(year, 9) + 30;
    assert MonthStart(year, 12) == MonthStart(year, 11) + 30;
  }

  /** The formula is the calendar, for every date of every year. */
  lemma CivilIsNaive(d: Date)
    requires ValidDate(d)
    ensures DaysFromCivil(d.year, d.month, d.day) == NaiveDays(d)
  {
    JanuaryFirst(d.year);
    MonthFirst(d.year, d.month);
    CivilIsMarchCount(d.year, d.month, 1);
    CivilIsMarchCount(d.year, d.month, d.day);
  }

  lemma NaiveNext(d: Date)
    requires ValidDate(d)
    ensures ValidDate(NextDate(d)) && NaiveDays(NextDate(d)) == NaiveDays(d) + 1
  {
    if d.day == DaysInMonth(d.year, d.month) {
      assert MonthStart(d.year, d.month + 1) == MonthStart(d.year, d.month) + d.day;
      if d.month == 12 {
        MonthStarts(d.year);
        YearGrows(d.year);
      }
    }
  }

  /** The epoch is day zero and every next day counts one more. */
  lemma NextDayCountsOneMore(d: Date)
    requires ValidDate(d)
    ensures ValidDate(NextDate(d))
    ensures DaysFromCivil(1970, 1, 1) == 0
    ensures var n := NextDate(d);
      DaysFromCivil(n.year, n.month, n.day) == DaysFromCivil(d.year, d.month, d.day) + 1
  {
    NaiveNext(d);
    CivilIsNaive(d);
    CivilIsNaive(NextDate(d));
    JanuaryFirst(1970);
  }

  lemma YearGrows(year: int)
    ensures YearStart(year + 1) == YearStart(year) + DaysInYear(year)
  {
  }

  lemma {:induction false} YearsApart(y: int, z: int)
    requires y < z
    ensures YearStart(y) + DaysInYear(y) <= YearStart(z)
    decreases z - y
  {
    YearGrows(y);
    if y + 1 < z {
      YearsApart(y + 1, z);
    }
  }

  lemma {:induction false} MonthsApart(year: int, m: int, n: int)
    requires 1 <= m < n <= 13
    ensures MonthStart(year, m) + DaysInMonth(year, m) <= MonthStart(year, n)
    decreases n
  {
    if m < n - 1 {
      MonthsApart(year, m, n - 1);
    }
  }

  /** Dates and day counts are in the same order, both ways round. */
  lemma EarlierIsFewerDays(a: Date, b: Date)
    requires ValidDate(a) && ValidDate(b)
    ensures Earlier(a, b) <==> DaysFromCivil(a.year, a.month, a.day) < DaysFromCivil(b.year, b.month, b.day)
  {
    CivilIsNaive(a);
    CivilIsNaive(b);
    if Earlier(a, b) {
      EarlierCountsLess(a, b);
    } else if a != b {
      EarlierCountsLess(b, a);
    }
  }

  lemma EarlierCountsLess(a: Date, b: Date)
    requires ValidDate(a) && ValidDate(b) && Earlier(a, b)
    ensures NaiveDays(a) < NaiveDays(b)
  {
    MonthStarts(a.year);
    MonthsApart(a.year, a.month, 13);
    if a.year < b.year {
      YearsApart(a.year, b.year);
      MonthStarts(b.year);
    } else if a.month < b.month {
      MonthsApart(a.year, a.month, b.month);
    }
  }
}
