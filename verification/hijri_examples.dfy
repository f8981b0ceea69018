/** Worked conversions and formatting of the tabular Hijri calendar, each
    taken through its Julian Day Number. */
module HijriExamples {
  import opened Text
  import opened Hijri

  /** A conversion is settled by its day number and that number's date. */
  lemma ConvertsVia(year: int, month: int, day: int, jd: int, h: HijriDate)
    requires 1 <= month <= 12
    requires JulianDay(year, month, day) == jd && TabularFromJulianDay(jd) == h
    ensures ToHijri(year, month, day) == h
  {
  }

  /** 23 March 2023 is 1 Ramadan 1444. */
  lemma FirstOfRamadan1444()
    ensures ToHijri(2023, 3, 23) == HijriDate(1444, 9, 1)
  {
    DayNumberOf2023_03_23();
    DateOfDay2460027();
    ConvertsVia(2023, 3, 23, 2460027, HijriDate(1444, 9, 1));
  }

  lemma DayNumberOf2023_03_23()
    ensures JulianDay(2023, 3, 23) == 2460027
  {
  }

  lemma DateOfDay2460027()
    ensures TabularFromJulianDay(2460027) == HijriDate(1444, 9, 1)
  {
    assert (2460027 - 1948440 + 10632 - 1) / 10631 == 49;
    assert CycleYear(1654) == 4;
    assert CycleYearStart(4) == 1417;
  }

  /** 15 March 2024 is 5 Ramadan 1445. */
  lemma FifthOfRamadan1445()
    ensures ToHijri(2024, 3, 15) == HijriDate(1445, 9, 5)
  {
    DayNumberOf2024_03_15();
    DateOfDay2460385();
    ConvertsVia(2024, 3, 15, 2460385, HijriDate(1445, 9, 5));
  }

  lemma DayNumberOf2024_03_15()
    ensures JulianDay(2024, 3, 15) == 2460385
  {
  }

  lemma DateOfDay2460385()
    ensures TabularFromJulianDay(2460385) == HijriDate(1445, 9, 5)
  {
    assert (2460385 - 1948440 + 10632 - 1) / 10631 == 49;
    assert CycleYear(2012) == 5;
    assert CycleYearStart(5) == 1771;
  }

  /** 6 February 2026, a date of the shifted year 2025, is 18 Shaban 1447. */
  lemma EighteenthOfShaban1447()
    ensures ToHijri(2026, 2, 6) == HijriDate(1447, 8, 18)
  {
    DayNumberOf2026_02_06();
    DateOfDay2461078();
    ConvertsVia(2026, 2, 6, 2461078, HijriDate(1447, 8, 18));
  }

  lemma DayNumberOf2026_02_06()
    ensures JulianDay(2026, 2, 6) == 2461078
  {
  }

  lemma DateOfDay2461078()
    ensures TabularFromJulianDay(2461078) == HijriDate(1447, 8, 18)
  {
    assert (2461078 - 1948440 + 10632 - 1) / 10631 == 49;
    assert CycleYear(2705) == 7;
    assert CycleYearStart(7) == 2480;
  }

  /** The epoch: 16 July 622 of the Julian calendar is 1 Muharram 1. */
  lemma Epoch()
    ensures ToHijri(622, 7, 16) == HijriDate(1, 1, 1)
  {
    DayNumberOfEpoch();
    DateOfEpoch();
    ConvertsVia(622, 7, 16, 1948440, HijriDate(1, 1, 1));
  }

  lemma DayNumberOfEpoch()
    ensures JulianDay(622, 7, 16) == 1948440
  {
  }

  lemma DateOfEpoch()
    ensures TabularFromJulianDay(1948440) == HijriDate(1, 1, 1)
  {
    assert (1948440 - 1948440 + 10632 - 1) / 10631 == 1;
    assert CycleYear(355) == 1;
    assert CycleYearStart(1) == 354;
  }

  /** Formatting puts the day first, then the month name, then the year. */
  lemma FormatsRamadan()
    ensures FormatHijri(HijriDate(1445, 9, 1)) == "1 رمضان 1445"
  {
    assert IntToString(1) == "1";
    assert IntToString(1445) == "1445";
    assert MonthName(9) == "رمضان";
  }
}
