/** Worked relative-time phrases, each derived from the bucket of its
    distance. */
module RelativeExamples {
  import opened Text
  import opened Digits
  import opened Relative

  /** A distance of zero is not in the future: "just now". */
  lemma JustNow()
    ensures RelativeTime(0, Ar) == "منذ لحظات"
    ensures RelativeTime(0, En) == "just now"
  {
    RelativeTimeSpec(0, Ar);
    RelativeTimeSpec(0, En);
  }

  /** Five minutes ago. */
  lemma FiveMinutesAgo()
    ensures RelativeTime(-300000, Ar) == "منذ ٥ دقيقة"
  {
    FiveMinutesAgoWords();
    FiveMinutesAgoText();
  }

  lemma FiveMinutesAgoWords()
    ensures RelativeTime(-300000, Ar) == FormatArabicRelative(PAST_PREFIX, 5, ArabicUnit(Minute))
  {
    RelativeTimeSpec(-300000, Ar);
  }

  lemma FiveMinutesAgoText()
    ensures FormatArabicRelative(PAST_PREFIX, 5, ArabicUnit(Minute)) == "منذ ٥ دقيقة"
  {
    assert NatToString(5) == "5";
  }

  /** In thirty seconds, in English, with the plural unit. */
  lemma InThirtySeconds()
    ensures RelativeTime(30000, En) == "in 30 seconds"
  {
    RelativeTimeSpec(30000, En);
    assert NatToString(30) == "30";
  }

  /** A test takes its instant a little before `relativeTime` reads the
      clock, so the distance it sees is short by the elapsed time: from one
      millisecond to a second late, the thirty-second fixture reads one
      second less. */
  lemma ElapsedMillisecond(e: int)
    requires 1 <= e <= 1000
    ensures RelativeTime(30000 - e, En) == "in 29 seconds"
  {
    RelativeTimeSpec(30000 - e, En);
    assert AbsoluteSeconds(30000 - e) == 29;
    assert NatToString(29) == "29";
  }

  /** In five minutes. */
  lemma InFiveMinutes()
    ensures RelativeTime(300000, Ar) == "بعد ٥ دقيقة"
  {
    InFiveMinutesWords();
    InFiveMinutesText();
  }

  lemma InFiveMinutesWords()
    ensures RelativeTime(300000, Ar) == FormatArabicRelative(FUTURE_PREFIX, 5, ArabicUnit(Minute))
  {
    RelativeTimeSpec(300000, Ar);
  }

  lemma InFiveMinutesText()
    ensures FormatArabicRelative(FUTURE_PREFIX, 5, ArabicUnit(Minute)) == "بعد ٥ دقيقة"
  {
    assert NatToString(5) == "5";
  }

  /** In two hours, in English. */
  lemma InTwoHours()
    ensures RelativeTime(7200000, En) == "in 2 hours"
  {
    RelativeTimeSpec(7200000, En);
    assert NatToString(2) == "2";
  }

  /** One minute ago, in English, with the singular unit. */
  lemma OneMinuteAgo()
    ensures RelativeTime(-60000, En) == "1 minute ago"
  {
    RelativeTimeSpec(-60000, En);
    assert NatToString(1) == "1";
  }

  /** In three days. */
  lemma InThreeDays()
    ensures RelativeTime(259200000, Ar) == "بعد ٣ يوم"
  {
    InThreeDaysWords();
    InThreeDaysText();
  }

  lemma InThreeDaysWords()
    ensures RelativeTime(259200000, Ar) == FormatArabicRelative(FUTURE_PREFIX, 3, ArabicUnit(Day))
  {
    RelativeTimeSpec(259200000, Ar);
  }

  lemma InThreeDaysText()
    ensures FormatArabicRelative(FUTURE_PREFIX, 3, ArabicUnit(Day)) == "بعد ٣ يوم"
  {
    assert NatToString(3) == "3";
  }
}
