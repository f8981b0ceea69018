/** Relative time phrases ("منذ ٥ دقيقة", "in 2 hours") from the signed
    distance in milliseconds between an instant and now. */
module Relative {
  import opened Text
  import opened Digits

  datatype Locale = Ar | En

  const PAST_PREFIX := "منذ"
  const FUTURE_PREFIX := "بعد"
  const JUST_NOW_AR := "منذ لحظات"
  const JUST_NOW_EN := "just now"

  /** `pluralizeEnglish`: the unit alone for exactly one, else with "s". */
  function PluralizeEnglish(value: int, unit: string): (r: string)
    ensures r == unit <==> value == 1
    ensures value != 1 ==> r == unit + "s"
  {
    if value == 1 then unit else unit + "s"
  }

  /** `formatArabicRelative`: the prefix, the value in Eastern Arabic
      digits and the unit word, separated by spaces. */
  function FormatArabicRelative(prefix: string, value: nat, unit: string): string {
    prefix + " " + ToArabicDigits(NatToString(value)) + " " + unit
  }

  /** `relativeTime`, with the clock read lifted into `diffMs`, the instant
      minus now in milliseconds. */
  function RelativeTime(diffMs: int, locale: Locale): string {
    var isFuture := diffMs > 0;
    var absoluteSeconds := (if diffMs < 0 then -diffMs else diffMs) / 1000;
    if absoluteSeconds < 60 then
      if !isFuture then (if locale == Ar then JUST_NOW_AR else JUST_NOW_EN)
      else if locale == Ar then FormatArabicRelative(FUTURE_PREFIX, absoluteSeconds, "ثانية")
      else "in " + NatToString(absoluteSeconds) + " " + PluralizeEnglish(absoluteSeconds, "second")
    else
      var minutes := absoluteSeconds / 60;
      if minutes < 60 then
        if locale == Ar then
          FormatArabicRelative(if isFuture then FUTURE_PREFIX else PAST_PREFIX, minutes, "دقيقة")
        else if isFuture then "in " + NatToString(minutes) + " " + PluralizeEnglish(minutes, "minute")
        else NatToString(minutes) + " " + PluralizeEnglish(minutes, "minute") + " ago"
      else
        var hours := minutes / 60;
        if hours < 24 then
          if locale == Ar then
            FormatArabicRelative(if isFuture then FUTURE_PREFIX else PAST_PREFIX, hours, "ساعة")
          else if isFuture then "in " + NatToString(hours) + " " + PluralizeEnglish(hours, "hour")
          else NatToString(hours) + " " + PluralizeEnglish(hours, "hour") + " ago"
        else
          var days := hours / 24;
          if locale == Ar then
            FormatArabicRelative(if isFuture then FUTURE_PREFIX else PAST_PREFIX, days, "يوم")
          else if isFuture then "in " + NatToString(days) + " " + PluralizeEnglish(days, "day")
          else NatToString(days) + " " + PluralizeEnglish(days, "day") + " ago"
  }

  // ---------------------------------------------------------------------
  // The phrase, stated from the whole seconds directly

  datatype TimeUnit = Second | Minute | Hour | Day

  /** The unit a distance of `seconds` is told in, and the count of that
      unit: under a minute in seconds, under an hour in minutes, under a
      day in hours, and in days from there on. */
  function Bucket(seconds: nat): (r: (TimeUnit, nat))
    ensures r.0 == Second ==> r.1 == seconds < 60
    ensures r.0 == Minute ==> 1 <= r.1 < 60 && r.1 * 60 <= seconds < (r.1 + 1) * 60
    ensures r.0 == Hour ==> 1 <= r.1 < 24 && r.1 * 3600 <= seconds < (r.1 + 1) * 3600
    ensures r.0 == Day ==> 1 <= r.1 && r.1 * 86400 <= seconds < (r.1 + 1) * 86400
  {
    if seconds < 60 then (Second, seconds)
    else if seconds < 3600 then (Minute, seconds / 60)
    else if seconds < 86400 then (Hour, seconds / 3600)
    else (Day, seconds / 86400)
  }

  function ArabicUnit(unit: TimeUnit): string {
    match unit
    case Second => "ثانية"
    case Minute => "دقيقة"
    case Hour => "ساعة"
    case Day => "يوم"
  }

  function EnglishUnit(unit: TimeUnit): string {
    match unit
    case Second => "second"
    case Minute => "minute"
    case Hour => "hour"
    case Day => "day"
  }

  /** The phrase for a count of a unit, past or future. */
  function Phrase(locale: Locale, future: bool, unit: TimeUnit, value: nat): string {
    if locale == Ar then FormatArabicRelative(if future then FUTURE_PREFIX else PAST_PREFIX, value, ArabicUnit(unit))
    else if future then "in " + NatToString(value) + " " + PluralizeEnglish(value, EnglishUnit(unit))
    else NatToString(value) + " " + PluralizeEnglish(value, EnglishUnit(unit)) + " ago"
  }

  /** The whole seconds between the instant and now, rounded down. */
  function AbsoluteSeconds(diffMs: int): nat {
    (if diffMs < 0 then -diffMs else diffMs) / 1000
  }

  /** The cascade of floor divisions lands where the thresholds in seconds
      put it: the minutes are below 60 exactly below an hour, the hours
      below 24 exactly below a day, and each count is the seconds divided
      by the unit's length. */
  lemma Cascade(seconds: nat)
    ensures seconds / 60 < 60 <==> seconds < 3600
    ensures seconds / 60 / 60 == seconds / 3600
    ensures seconds / 60 / 60 < 24 <==> seconds < 86400
    ensures seconds / 60 / 60 / 24 == seconds / 86400
  {
    assert seconds / 60 / 60 == seconds / 3600;
    assert seconds / 3600 / 24 == seconds / 86400;
  }

  /** `relativeTime` says "just now" for less than a minute that is not in
      the future (zero included), and otherwise tells the bucket of the
      whole seconds, in the future exactly when `diffMs` is positive. */
  lemma RelativeTimeSpec(diffMs: int, locale: Locale)
    ensures var bucket := Bucket(AbsoluteSeconds(diffMs));
      RelativeTime(diffMs, locale) ==
        if bucket.0 == Second && diffMs <= 0 then (if locale == Ar then JUST_NOW_AR else JUST_NOW_EN)
        else Phrase(locale, diffMs > 0, bucket.0, bucket.1)
  {
    Cascade(AbsoluteSeconds(diffMs));
  }

  // ---------------------------------------------------------------------
  // Properties of the phrases

  /** An Arabic phrase holds no Western digits. */
  lemma ArabicHasNoWesternDigits(diffMs: int)
    ensures NoEnglishDigits(RelativeTime(diffMs, Ar))
  {
    var bucket := Bucket(AbsoluteSeconds(diffMs));
    RelativeTimeSpec(diffMs, Ar);
    if !(bucket.0 == Second && diffMs <= 0) {
      var prefix := if diffMs > 0 then FUTURE_PREFIX else PAST_PREFIX;
      assert NoEnglishDigits(prefix) && NoEnglishDigits(ArabicUnit(bucket.0)) by {
        ArabicWordsHaveNoDigits();
      }
      ArabicPhraseHasNoWesternDigits(prefix, bucket.1, ArabicUnit(bucket.0));
    } else {
      ArabicWordsHaveNoDigits();
    }
  }

  lemma ArabicWordsHaveNoDigits()
    ensures NoEnglishDigits(PAST_PREFIX) && NoEnglishDigits(FUTURE_PREFIX) && NoEnglishDigits(JUST_NOW_AR)
    ensures forall unit :: NoEnglishDigits(ArabicUnit(unit))
  {
  }

  /** Words without Western digits around a count in Eastern digits. */
  lemma ArabicPhraseHasNoWesternDigits(prefix: string, value: nat, unit: string)
    requires NoEnglishDigits(prefix) && NoEnglishDigits(unit)
    ensures NoEnglishDigits(FormatArabicRelative(prefix, value, unit))
  {
    var digits := ToArabicDigits(NatToString(value));
    ToArabicLeavesNoEnglishDigits(NatToString(value));
    NoEnglishDigitsConcat(prefix, " ");
    NoEnglishDigitsConcat(prefix + " ", digits);
    NoEnglishDigitsConcat(prefix + " " + digits, " ");
    NoEnglishDigitsConcat(prefix + " " + digits + " ", unit);
  }

  lemma NoEnglishDigitsConcat(a: string, b: string)
    requires NoEnglishDigits(a) && NoEnglishDigits(b)
    ensures NoEnglishDigits(a + b)
  {
    assert forall i :: 0 <= i < |b| ==> (a + b)[|a| + i] == b[i];
  }

  /** The Eastern digits of an Arabic phrase convert back to the decimal
      rendering of the count, which reads back as the count. */
  lemma ArabicCountReadsBack(value: nat)
    ensures ToEnglishDigits(ToArabicDigits(NatToString(value))) == NatToString(value)
    ensures ParseDecimal(NatToString(value)) == value
  {
    var s := NatToString(value);
    assert NoArabicDigits(s);
    EnglishRoundTrip(s);
    ParseNatToString(value);
  }
}
