/** Gregorian to Hijri conversion by the tabular (arithmetic) Islamic
    calendar. The conversion starts from the UTC year, month and day of an
    instant, goes through the Julian Day Number, and inverts the 30-year
    tabular cycle of 10631 days. */
module Hijri {
  import opened Text

  datatype HijriDate = HijriDate(year: int, month: int, day: int)

  const HIJRI_MONTHS: seq<string> := [
    "محرم", "صفر", "ربيع الأول", "ربيع الآخر", "جمادى الأولى", "جمادى الآخرة",
    "رجب", "شعبان", "رمضان", "شوال", "ذو القعدة", "ذو الحجة"
  ]

  // ---------------------------------------------------------------------
  // Calendar date to Julian Day Number

  /** January and February count as months 13 and 14 of the year before,
      so that the counting year ends with the leap day. The shift keeps the
      absolute month count and puts the month in 3..14. */
  function ShiftMonths(year: int, month: int): (r: (int, int))
    requires 1 <= month <= 12
    ensures 3 <= r.1 <= 14
    ensures r.0 * 12 + r.1 == year * 12 + month
  {
    if month < 3 then (year - 1, month + 12) else (year, month)
  }

  /** The correction `b` between Julian and Gregorian reckoning, for a
      shifted year and month and a day of the month. */
  function Correction(y: int, m: int, day: int): int {
    var a := y / 100;
    var b := if y < 1583 then 0 else 2 - a + a / 4;
    if y == 1582 && m > 10 then -10
    else if y == 1582 && m == 10 then (if day > 4 then -10 else 0)
    else b
  }

  /** The Julian Day Number of a shifted year, month (3..14) and day.
      `floor(365.25 * k)` is `(1461 * k) / 4` and `floor(30.6001 * k)` is
      `(306001 * k) / 10000`, both exactly. */
  function ShiftedJulianDay(y: int, m: int, day: int): int {
    (1461 * (y + 4716)) / 4 + (306001 * (m + 1)) / 10000 + day + Correction(y, m, day) - 1524
  }

  /** The Julian Day Number that `toHijri` computes for a UTC date. */
  function JulianDay(year: int, month: int, day: int): int
    requires 1 <= month <= 12
  {
    var shifted := ShiftMonths(year, month);
    ShiftedJulianDay(shifted.0, shifted.1, day)
  }

  /** No correction before the reform; in the shifted year 1582 none up to
      4 October and ten days from 5 October on (January and February 1583
      included); from 1583 on the Gregorian century rule, which drops the
      century years not divisible by 400. */
  lemma CorrectionCases(y: int, m: int, day: int)
    ensures y < 1582 ==> Correction(y, m, day) == 0
    ensures y == 1582 ==> Correction(y, m, day) == if m > 10 || (m == 10 && day > 4) then -10 else 0
    ensures y >= 1583 ==> Correction(y, m, day) == 2 - y / 100 + y / 400
  {
    if y >= 1583 {
      assert (y / 100) / 4 == y / 400;
    }
  }

  /** Leap years as the formula reckons them: Julian up to 1582, Gregorian
      from 1583. */
  predicate IsLeapYear(year: int) {
    if year <= 1582 then year % 4 == 0
    else year % 4 == 0 && (year % 100 != 0 || year % 400 == 0)
  }

  function DaysInMonth(year: int, month: int): int
    requires 1 <= month <= 12
  {
    if month == 2 then (if IsLeapYear(year) then 29 else 28)
    else if month == 4 || month == 6 || month == 9 || month == 11 then 30
    else 31
  }

  /** Within a month the day number grows by one a day, except that
      5 October 1582 follows 4 October 1582 directly. */
  lemma NextDay(year: int, month: int, day: int)
    requires 1 <= month <= 12
    ensures JulianDay(year, month, day + 1) ==
      JulianDay(year, month, day) + (if year == 1582 && month == 10 && day == 4 then -9 else 1)
  {
    var shifted := ShiftMonths(year, month);
    var y, m := shifted.0, shifted.1;
    if y != 1582 || m != 10 {
      assert Correction(y, m, day + 1) == Correction(y, m, day);
    }
  }

  /** The ten dropped days: 15 October 1582 is the day after 4 October 1582. */
  lemma Cutover()
    ensures JulianDay(1582, 10, 15) == JulianDay(1582, 10, 4) + 1
  {
    CorrectionCases(1582, 10, 15);
    CorrectionCases(1582, 10, 4);
  }

  /** The ten dropped dates are still read: 5 to 14 October 1582 get the
      day numbers of 25 September to 4 October, so two dates share each. */
  lemma ReformGap(day: int)
    requires 5 <= day <= 14
    ensures JulianDay(1582, 10, day) == JulianDay(1582, 10, 4) + day - 14
  {
    CorrectionCases(1582, 10, day);
    CorrectionCases(1582, 10, 4);
  }

  /** The first day of the next month is the first day of this month plus
      the month's length, except that October 1582 has 21 days. */
  lemma MonthLength(year: int, month: int)
    requires 1 <= month <= 12
    ensures var next := if month == 12 then JulianDay(year + 1, 1, 1) else JulianDay(year, month + 1, 1);
      next - JulianDay(year, month, 1) ==
        if year == 1582 && month == 10 then 21 else DaysInMonth(year, month)
  {
    if month == 2 {
      FebruaryLength(year);
    } else if month == 12 {
      assert Correction(year, 13, 1) == Correction(year, 12, 1);
    } else {
      OtherMonthLength(year, month);
    }
  }

  /** A month other than February and December: the shifted year is the
      same on both sides and only the month term changes. */
  lemma OtherMonthLength(year: int, month: int)
    requires 1 <= month <= 11 && month != 2
    ensures JulianDay(year, month + 1, 1) - JulianDay(year, month, 1) ==
      if year == 1582 && month == 10 then 21 else DaysInMonth(year, month)
  {
    var y, m := if month < 3 then year - 1 else year, if month < 3 then month + 12 else month;
    assert JulianDay(year, month, 1) == ShiftedJulianDay(y, m, 1);
    assert JulianDay(year, month + 1, 1) == ShiftedJulianDay(y, m + 1, 1);
    MonthTerm(m);
    if !(year == 1582 && month == 10) {
      assert Correction(y, m + 1, 1) == Correction(y, m, 1);
    }
  }

  /** The month term grows by the length of the month it passes. */
  lemma MonthTerm(m: int)
    requires 3 <= m <= 13
    ensures (306001 * (m + 2)) / 10000 - (306001 * (m + 1)) / 10000 ==
      if m == 4 || m == 6 || m == 9 || m == 11 then 30 else 31
  {
  }

  /** February ends the shifted year: the year term grows by 365 or 366
      days, the month term falls by the 337 days from March to February,
      and the correction changes only on a Gregorian century year. */
  lemma FebruaryLength(year: int)
    ensures JulianDay(year, 3, 1) - JulianDay(year, 2, 1) == DaysInMonth(year, 2)
  {
    var before := Correction(year - 1, 14, 1);
    var after := Correction(year, 3, 1);
    assert JulianDay(year, 3, 1) - JulianDay(year, 2, 1) ==
      (1461 * (year + 4716)) / 4 - (1461 * (year - 1 + 4716)) / 4 - 337 + after - before;
    YearTerm(year);
    FebruaryCorrection(year);
  }

  /** Across February the correction drops a day exactly on a Gregorian
      century year that is not a multiple of 400. */
  lemma FebruaryCorrection(year: int)
    ensures Correction(year, 3, 1) - Correction(year - 1, 14, 1) ==
      if IsLeapYear(year) == (year % 4 == 0) then 0 else -1
  {
    CorrectionCases(year - 1, 14, 1);
    CorrectionCases(year, 3, 1);
    if year >= 1584 {
      CenturyStep(year);
    }
  }

  /** The year term grows by 366 days into a year divisible by four and by
      365 otherwise. */
  lemma YearTerm(year: int)
    ensures (1461 * (year + 4716)) / 4 - (1461 * (year - 1 + 4716)) / 4 ==
      if year % 4 == 0 then 366 else 365
  {
  }

  /** Between consecutive years the Gregorian correction loses a day on each
      century year that is not a multiple of 400. */
  lemma CenturyStep(year: int)
    ensures (2 - year / 100 + year / 400) - (2 - (year - 1) / 100 + (year - 1) / 400) ==
      if year % 100 == 0 && year % 400 != 0 then -1 else 0
  {
    CenturyQuotientStep(year);
    QuadricentennialQuotientStep(year);
    assert year % 400 == 0 ==> year % 100 == 0;
  }

  /** The count of centuries grows by one exactly on a century year. */
  lemma CenturyQuotientStep(year: int)
    ensures year / 100 - (year - 1) / 100 == if year % 100 == 0 then 1 else 0
  {
  }

  /** The count of 400-year periods grows by one exactly on their first year. */
  lemma QuadricentennialQuotientStep(year: int)
    ensures year / 400 - (year - 1) / 400 == if year % 400 == 0 then 1 else 0
  {
  }

  // ---------------------------------------------------------------------
  // Julian Day Number to tabular Hijri date

  /** The year within the 30-year cycle of the day `l1` (355..10985) of the
      cycle: the first factor of each product is 1 or 0 and selects the
      rule for the first or the second half of the cycle. */
  function CycleYear(l1: int): int {
    ((10985 - l1) / 5316) * ((50 * l1) / 17719) + (l1 / 5670) * ((43 * l1) / 15238)
  }

  /** The days of the cycle before year `j1`, offset as in the formula. */
  function CycleYearStart(j1: int): int {
    ((30 - j1) / 15) * ((17719 * j1) / 50) + (j1 / 16) * ((15238 * j1) / 43)
  }

  /** `toHijri` from the Julian Day Number on: epoch JD 1948440 and cycles
      of 10631 days. */
  function TabularFromJulianDay(jd: int): HijriDate {
    var l := jd - 1948440 + 10632;
    var n := (l - 1) / 10631;
    var l1 := l - 10631 * n + 354;
    var j1 := CycleYear(l1);
    var l2 := l1 - CycleYearStart(j1) + 29;
    var m1 := (24 * l2) / 709;
    var d1 := l2 - (709 * m1) / 24;
    HijriDate(30 * n + j1 - 30, m1, d1)
  }

  /** The days of the Hijri years before `year`: 354 days a year plus 11
      leap days in every 30 years, the leap days falling where
      `(3 + 11 * year) / 30` steps up. */
  function YearStart(year: int): int {
    354 * (year - 1) + (3 + 11 * year) / 30
  }

  /** The days of the months before `month`: 30 and 29 days in turn. */
  function MonthStart(month: int): int {
    (59 * (month - 1) + 1) / 2
  }

  /** The forward tabular rule: the day, the days of the months and years
      before it, and the epoch. */
  function HijriToJulianDay(h: HijriDate): int {
    h.day + MonthStart(h.month) + YearStart(h.year) + 1948439
  }

  /** The leap years of the tabular rule: years 2, 5, 7, 10, 13, 16, 18,
      21, 24, 26 and 29 of every 30-year cycle. */
  predicate IsHijriLeapYear(year: int) {
    (14 + 11 * year) % 30 < 11
  }

  /** Odd months have 30 days and even months 29, except that the last
      month has 30 in a leap year. */
  function HijriMonthLength(year: int, month: int): int {
    if month % 2 == 1 || (month == 12 && IsHijriLeapYear(year)) then 30 else 29
  }

  /** A day of one of the twelve months, within the month's length. */
  predicate IsValidHijriDate(h: HijriDate) {
    1 <= h.month <= 12 && 1 <= h.day <= HijriMonthLength(h.year, h.month)
  }

  /** A year has 355 days exactly when it is a leap year, else 354. */
  lemma YearLength(year: int)
    ensures YearStart(year + 1) - YearStart(year) == if IsHijriLeapYear(year) then 355 else 354
  {
    var q, r := (3 + 11 * year) / 30, (3 + 11 * year) % 30;
    assert 14 + 11 * year == 30 * q + (r + 11);
    if r + 11 >= 30 {
      assert (14 + 11 * year) / 30 == q + 1 && (14 + 11 * year) % 30 == r - 19;
    } else {
      assert (14 + 11 * year) / 30 == q && (14 + 11 * year) % 30 == r + 11;
    }
  }

  /** Thirty years are 10631 days and keep the leap years in place. */
  lemma ThirtyYears(year: int, k: int)
    ensures YearStart(year + 30 * k) == YearStart(year) + 10631 * k
    ensures IsHijriLeapYear(year + 30 * k) <==> IsHijriLeapYear(year)
  {
    assert 3 + 11 * (year + 30 * k) == (3 + 11 * year) + 30 * (11 * k);
    assert 14 + 11 * (year + 30 * k) == (14 + 11 * year) + 30 * (11 * k);
    ShiftByThirties(3 + 11 * year, 11 * k);
    ShiftByThirties(14 + 11 * year, 11 * k);
  }

  lemma ShiftByThirties(x: int, c: int)
    ensures (x + 30 * c) / 30 == x / 30 + c && (x + 30 * c) % 30 == x % 30
  {
  }

  /** Each month ends where the next begins, and the last where the year
      ends. */
  lemma MonthSpan(year: int, month: int)
    requires 1 <= month <= 12
    ensures MonthStart(month) + HijriMonthLength(year, month) ==
      if month == 12 then YearStart(year + 1) - YearStart(year) else MonthStart(month + 1)
  {
    YearLength(year);
    var t := month / 2;
    if month % 2 == 1 {
      assert MonthStart(month) == 59 * t && MonthStart(month + 1) == 59 * t + 30;
    } else {
      assert MonthStart(month) == 59 * t - 29 && MonthStart(month + 1) == 59 * t;
    }
  }

  /** The day of the year and the day of the month of a valid date. */
  lemma DayOfYearBounds(h: HijriDate)
    requires IsValidHijriDate(h)
    ensures 1 <= MonthStart(h.month) + h.day <= YearStart(h.year + 1) - YearStart(h.year)
  {
    MonthSpan(h.year, h.month);
    if h.month < 12 {
      MonthSpan(h.year, 12);
      assert MonthStart(h.month + 1) <= MonthStart(12);
    }
  }

  lemma CycleYearCases(l1: int)
    requires 355 <= l1 <= 10985
    ensures CycleYear(l1) == if l1 < 5670 then (50 * l1) / 17719 else (43 * l1) / 15238
    ensures 1 <= CycleYear(l1) <= 30
    ensures CycleYear(l1) <= 15 <==> l1 < 5670
  {
    var first, second := (10985 - l1) / 5316, l1 / 5670;
    if l1 < 5670 {
      assert first == 1 && second == 0;
    } else {
      assert first == 0 && second == 1;
    }
  }

  lemma CycleYearStartCases(j1: int)
    requires 1 <= j1 <= 30
    ensures CycleYearStart(j1) == if j1 <= 15 then (17719 * j1) / 50 else (15238 * j1) / 43
  {
    var first, second := (30 - j1) / 15, j1 / 16;
    if j1 <= 15 {
      assert first == 1 && second == 0;
    } else {
      assert first == 0 && second == 1;
    }
  }

  /** The day of the year: a cycle day lies from 1 to 355 days after the
      start of its year. */
  lemma DayOfYear(l1: int)
    requires 355 <= l1 <= 10985
    ensures 1 <= l1 - CycleYearStart(CycleYear(l1)) <= 355
  {
    var j1 := CycleYear(l1);
    CycleYearCases(l1);
    CycleYearStartCases(j1);
    if l1 < 5670 {
      FirstHalfDay(l1, j1);
    } else {
      SecondHalfDay(l1, j1);
    }
  }

  /** Years 1 to 15 of the cycle: `j1` counts whole years of 17719/50 days,
      a quantity no year number below 50 makes whole. */
  lemma FirstHalfDay(l1: int, j1: int)
    requires 355 <= l1 < 5670 && j1 == (50 * l1) / 17719 && 1 <= j1 <= 15
    ensures 1 <= l1 - (17719 * j1) / 50 <= 355
  {
  }

  /** Years 16 to 30: whole years of 15238/43 days. */
  lemma SecondHalfDay(l1: int, j1: int)
    requires 5670 <= l1 <= 10985 && j1 == (43 * l1) / 15238 && 16 <= j1 <= 30
    ensures 1 <= l1 - (15238 * j1) / 43 <= 355
  {
  }

  /** A cycle day lies within the length of its year: the inverse never
      reads a day past the end of the year it picks. */
  lemma DayOfYearWithinYear(l1: int)
    requires 355 <= l1 <= 10985
    ensures var j1 := CycleYear(l1);
      l1 - CycleYearStart(j1) <= YearStart(j1 + 1) - YearStart(j1)
  {
    var j1 := CycleYear(l1);
    CycleYearCases(l1);
    CycleYearStartTable(j1);
    if l1 < 5670 {
      FirstHalfEnd(l1, j1);
    } else {
      SecondHalfEnd(l1, j1);
    }
  }

  lemma FirstHalfEnd(l1: int, j1: int)
    requires 355 <= l1 < 5670 && j1 == (50 * l1) / 17719 && 1 <= j1 <= 15
    ensures l1 <= YearStart(j1 + 1) + 354
  {
    if j1 < 15 {
      FirstHalfStarts(j1 + 1);
    }
  }

  lemma SecondHalfEnd(l1: int, j1: int)
    requires 5670 <= l1 <= 10985 && j1 == (43 * l1) / 15238 && 16 <= j1 <= 30
    ensures l1 <= YearStart(j1 + 1) + 354
  {
    if j1 < 30 {
      SecondHalfStarts(j1 + 1);
    }
  }

  /** A cycle day after the start of year `j1` and within its length is
      read as a day of year `j1`. */
  lemma CycleYearOf(j1: int, l1: int)
    requires 1 <= j1 <= 30
    requires YearStart(j1) + 354 < l1 <= YearStart(j1 + 1) + 354
    ensures CycleYear(l1) == j1
  {
    assert YearStart(1) == 0 && YearStart(31) == 10631;
    assert YearStart(1) <= YearStart(j1) && YearStart(j1 + 1) <= YearStart(31);
    var k := CycleYear(l1);
    DayOfYear(l1);
    DayOfYearWithinYear(l1);
    CycleYearCases(l1);
    CycleYearStartTable(k);
    assert k == j1;
  }

  /** The year starts of the cycle are those of the forward rule. */
  lemma CycleYearStartTable(j1: int)
    requires 1 <= j1 <= 30
    ensures CycleYearStart(j1) == YearStart(j1) + 354
  {
    CycleYearStartCases(j1);
    if j1 <= 15 {
      FirstHalfStarts(j1);
    } else {
      SecondHalfStarts(j1);
    }
  }

  lemma FirstHalfStarts(j1: int)
    requires 1 <= j1 <= 15
    ensures (17719 * j1) / 50 == 354 * j1 + (3 + 11 * j1) / 30
  {
  }

  lemma SecondHalfStarts(j1: int)
    requires 16 <= j1 <= 30
    ensures (15238 * j1) / 43 == 354 * j1 + (3 + 11 * j1) / 30
  {
  }

  /** The month starts of a year are those of the forward rule. */
  lemma MonthStartTable(m1: int)
    requires 1 <= m1 <= 12
    ensures (709 * m1) / 24 == 29 + MonthStart(m1)
  {
  }

  /** The month and the day of the month, from the day of the year. */
  lemma MonthAndDay(l2: int)
    requires 30 <= l2 <= 384
    ensures 1 <= (24 * l2) / 709 <= 12
    ensures 1 <= l2 - (709 * ((24 * l2) / 709)) / 24 <= 30
  {
  }

  /** Day `doy` of a year lies in month `(24 * (doy + 29)) / 709`, on a
      day within that month's length. */
  lemma MonthOfDay(year: int, doy: int)
    requires 1 <= doy <= YearStart(year + 1) - YearStart(year)
    ensures var l2 := doy + 29;
      var m1 := (24 * l2) / 709;
      var d1 := l2 - (709 * m1) / 24;
      1 <= m1 <= 12 && 1 <= d1 <= HijriMonthLength(year, m1) && MonthStart(m1) + d1 == doy
  {
    YearLength(year);
    var l2 := doy + 29;
    var m1 := (24 * l2) / 709;
    MonthAndDay(l2);
    MonthStartTable(m1);
    MonthSpan(year, m1);
    if m1 < 12 {
      MonthStartTable(m1 + 1);
    }
  }

  /** Every Julian Day Number yields a valid date: a month in 1..12 and a
      day within that month's length. */
  lemma TabularRange(jd: int)
    ensures 1 <= TabularFromJulianDay(jd).month <= 12
    ensures 1 <= TabularFromJulianDay(jd).day <= 30
    ensures IsValidHijriDate(TabularFromJulianDay(jd))
  {
    var l := jd - 1948440 + 10632;
    var n := (l - 1) / 10631;
    var l1 := l - 10631 * n + 354;
    var j1 := CycleYear(l1);
    var year := 30 * n + j1 - 30;
    var doy := l1 - CycleYearStart(j1);
    assert 1 <= doy <= YearStart(year + 1) - YearStart(year) by {
      DayOfYear(l1);
      DayOfYearWithinYear(l1);
      assert year == j1 + 30 * (n - 1);
      SameYearLength(j1, n - 1);
    }
    var m1 := (24 * (doy + 29)) / 709;
    var d1 := doy + 29 - (709 * m1) / 24;
    assert TabularFromJulianDay(jd) == HijriDate(year, m1, d1);
    assert IsValidHijriDate(HijriDate(year, m1, d1)) by {
      MonthOfDay(year, doy);
    }
  }

  /** Years thirty apart have the same length. */
  lemma SameYearLength(year: int, k: int)
    ensures YearStart(year + 30 * k + 1) - YearStart(year + 30 * k) == YearStart(year + 1) - YearStart(year)
  {
    ThirtyYears(year, k);
    ThirtyYears(year + 1, k);
    assert year + 1 + 30 * k == year + 30 * k + 1;
  }

  /** The tabular rule undoes itself: the forward rule gives back the
      Julian Day Number of every date the inverse produces. */
  lemma TabularRoundTrip(jd: int)
    ensures HijriToJulianDay(TabularFromJulianDay(jd)) == jd
  {
    var l := jd - 1948440 + 10632;
    var n := (l - 1) / 10631;
    var l1 := l - 10631 * n + 354;
    var j1 := CycleYear(l1);
    var l2 := l1 - CycleYearStart(j1) + 29;
    var m1 := (24 * l2) / 709;
    var d1 := l2 - (709 * m1) / 24;
    var h := HijriDate(30 * n + j1 - 30, m1, d1);
    assert TabularFromJulianDay(jd) == h;
    DayOfYear(l1);
    CycleYearCases(l1);
    MonthAndDay(l2);
    CycleYearStartTable(j1);
    MonthStartTable(m1);
    ThirtyYears(j1, n - 1);
    assert h.year == j1 + 30 * (n - 1);
  }

  /** The converse round trip: the inverse reads the day number of every
      valid date as that date. */
  lemma TabularFromHijri(h: HijriDate)
    requires IsValidHijriDate(h)
    ensures TabularFromJulianDay(HijriToJulianDay(h)) == h
  {
    var doy := MonthStart(h.month) + h.day;
    var q := (h.year - 1) / 30;
    var j1 := h.year - 30 * q;
    CycleDayOf(h);
    CycleYearOf(j1, YearStart(j1) + doy + 354);
    CycleYearStartTable(j1);
    MonthOfDate(h);
  }

  /** The inverse finds the cycle and the day of the cycle of a valid date. */
  lemma CycleDayOf(h: HijriDate)
    requires IsValidHijriDate(h)
    ensures var q := (h.year - 1) / 30;
      var j1 := h.year - 30 * q;
      var l := HijriToJulianDay(h) - 1948440 + 10632;
      1 <= j1 <= 30 && (l - 1) / 10631 == q + 1 && 30 * (q + 1) + j1 - 30 == h.year &&
      l - 10631 * (q + 1) + 354 == YearStart(j1) + MonthStart(h.month) + h.day + 354 &&
      YearStart(j1) + 354 < YearStart(j1) + MonthStart(h.month) + h.day + 354 <= YearStart(j1 + 1) + 354
  {
    var doy := MonthStart(h.month) + h.day;
    DayOfYearBounds(h);
    var q := (h.year - 1) / 30;
    var j1 := h.year - 30 * q;
    ThirtyYears(j1, q);
    YearLength(j1);
    YearLength(h.year);
    assert YearStart(1) == 0 && YearStart(31) == 10631;
    assert YearStart(1) <= YearStart(j1) && YearStart(j1 + 1) <= YearStart(31);
    var l := HijriToJulianDay(h) - 1948440 + 10632;
    assert l == 10631 * (q + 1) + YearStart(j1) + doy;
  }

  /** The inverse finds the month and the day of a valid date from its day
      of the year. */
  lemma MonthOfDate(h: HijriDate)
    requires IsValidHijriDate(h)
    ensures var l2 := MonthStart(h.month) + h.day + 29;
      (24 * l2) / 709 == h.month && l2 - (709 * h.month) / 24 == h.day
  {
    var l2 := MonthStart(h.month) + h.day + 29;
    MonthStartTable(h.month);
    MonthSpan(h.year, h.month);
    if h.month < 12 {
      MonthStartTable(h.month + 1);
      assert (709 * (h.month + 1)) % 24 != 0;
    }
    assert 709 * h.month <= 24 * l2 < 709 * (h.month + 1);
  }

  /** Distinct valid dates have distinct day numbers. */
  lemma HijriToJulianDayInjective(g: HijriDate, h: HijriDate)
    requires IsValidHijriDate(g) && IsValidHijriDate(h)
    requires HijriToJulianDay(g) == HijriToJulianDay(h)
    ensures g == h
  {
    TabularFromHijri(g);
    TabularFromHijri(h);
  }

  /** A whole cycle of 10631 days adds exactly 30 years and keeps the
      month and the day. */
  lemma Cycle(jd: int)
    ensures var h := TabularFromJulianDay(jd);
      TabularFromJulianDay(jd + 10631) == HijriDate(h.year + 30, h.month, h.day)
  {
    var l := jd - 1948440 + 10632;
    assert (l + 10631 - 1) / 10631 == (l - 1) / 10631 + 1;
  }

  // ---------------------------------------------------------------------
  // toHijri and formatHijri

  /** `toHijri` of an instant whose UTC date is `year`-`month`-`day`: the
      valid Hijri date whose day number is the day number of that date,
      which no other valid date shares. */
  function ToHijri(year: int, month: int, day: int): (h: HijriDate)
    requires 1 <= month <= 12
    ensures 1 <= h.month <= 12 && 1 <= h.day <= 30
    ensures IsValidHijriDate(h)
    ensures HijriToJulianDay(h) == JulianDay(year, month, day)
  {
    var jd := JulianDay(year, month, day);
    TabularRange(jd);
    TabularRoundTrip(jd);
    TabularFromJulianDay(jd)
  }

  /** The month name, or the text a template literal shows for the missing
      entry of a month outside 1..12. */
  function MonthName(month: int): string {
    if 1 <= month <= 12 then HIJRI_MONTHS[month - 1] else "undefined"
  }

  /** `formatHijri`: day, month name and year, separated by spaces. */
  function FormatHijri(h: HijriDate): string {
    IntToString(h.day) + " " + MonthName(h.month) + " " + IntToString(h.year)
  }

  /** The twelve month names are distinct. */
  lemma MonthNamesDistinct(m: int, k: int)
    requires 1 <= m <= 12 && 1 <= k <= 12 && m != k
    ensures MonthName(m) != MonthName(k)
  {
  }

  /** For months in 1..12 the formatted text determines the date. */
  lemma FormatHijriInjective(g: HijriDate, h: HijriDate)
    requires 1 <= g.month <= 12 && 1 <= h.month <= 12
    requires FormatHijri(g) == FormatHijri(h)
    ensures g == h
  {
    IntToStringHasNoSpace(g.day);
    IntToStringHasNoSpace(h.day);
    IntToStringHasNoSpace(g.year);
    IntToStringHasNoSpace(h.year);
    var gd, gm, gy := IntToString(g.day), MonthName(g.month), IntToString(g.year);
    var hd, hm, hy := IntToString(h.day), MonthName(h.month), IntToString(h.year);
    SplitLastField(gd + " " + gm, gy, hd + " " + hm, hy);
    SplitFirstField(gd, gm, hd, hm);
    IntToStringInjective(g.day, h.day);
    IntToStringInjective(g.year, h.year);
    if g.month != h.month {
      MonthNamesDistinct(g.month, h.month);
    }
  }
}

