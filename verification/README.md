# huroof core, modelled in Dafny

This project models four small, stateless parts of the huroof Arabic formatting library and proves properties about them:

- **Tafgeet** (`tafgeet.dfy`). It spells an integer as Arabic cardinal words. `normalizeInput` validates a string or number input and fails with one of four distinct messages. `convertThreeDigits` spells a count of 0 to 999 from the ones, teens, tens and hundreds tables. `tafgeet` answers zero and negative numbers directly. For a positive number it walks the trillion, billion, million, thousand and unit tiers. Each tier's count picks the singular, dual, plural or accusative word, and the tier texts are joined by the conjunction " و".
  - The tier walk is a method with a `for` loop, proved equal to a declarative specification. In that specification, tier `i` has count `(n / value_i) % 1000`, and the top tier has no bound.
  - A table lookup `T[i] || ''` is modelled by `At`, which gives the empty string outside the table. A safe integer can have up to 9007 trillions, and that count reaches past the hundreds table.
- **Hijri** (`hijri.dfy`). `toHijri` works from the UTC year, month and day:
  - it shifts January and February to months 13 and 14 of the previous year;
  - it computes the Julian Day Number, with the 1582 Julian-to-Gregorian correction;
  - it inverts the tabular Islamic calendar: 30-year cycles of 10631 days, epoch JD 1948440.

  The inverse is proved against an independent forward rule (`HijriToJulianDay`), in both directions, on the valid dates: a month from 1 to 12 and a day within that month's length (`HijriMonthLength`). `formatHijri` renders day, month name and year.
- **Digits** (`digits.dfy`). `toArabicDigits` and `toEnglishDigits` map characters between `0`–`9` and the Eastern Arabic digits `٠`–`٩` (U+0660–U+0669).
- **Relative time** (`relative.dfy`). `relativeTime` picks "just now", seconds, minutes, hours or days from the signed distance `diffMs` in milliseconds. It uses the past prefix "منذ" or the future prefix "بعد", English plurals, and Eastern digits for the Arabic count.

`text.dfy` holds the string helpers these share:
- `Array.prototype.join`;
- the whitespace set of `String.prototype.trim`;
- decimal rendering and reading of integers.

The `*_examples.dfy` files derive the fixtures of the library's tests from the general lemmas.

Every division these functions floor has an integer dividend below 2^53 in magnitude and a small positive integer divisor. tafgeet's own dividends reach 2^53−1, and the date formulas stay far below that. A double holds every such dividend exactly, and the floor of such a quotient is the exact integer quotient, for negative values too. So the model uses unbounded `int` and Dafny's `/` on positive divisors. The two decimal factors of the Julian Day formula are read as exact rationals. `Math.floor(365.25 * k)` is `(1461 * k) / 4`, since 365.25 is exact in binary. `Math.floor(30.6001 * k)` is `(306001 * k) / 10000` for the only factors the code forms, `k = m + 1` from 4 to 15: there the product of the double nearest 30.6001 and `k` floors to the same integer as the exact product.

## Model

| member | source | states |
|---|---|---|
| Tafgeet.MessagesDistinct | src/numbers/tafgeet.ts:44-65 | the four validation failures carry four different messages |
| Tafgeet.At | src/numbers/tafgeet.ts:85-95 | a table lookup that falls back to the empty string, in `convertThreeDigits` and for the tier words (also lines 132-138): the entry inside the table and the empty string past it; `Tafgeet.OversizedCount` states what that does to a count of 1000 or more |
| Tafgeet.NumericValue | src/numbers/tafgeet.ts:47 | `Number(trimmed)` on a numeric string, as its exact signed value; `Tafgeet.StringValidation` and `Tafgeet.StringRoundTrip` state that it reads every rendered safe integer back |
| Tafgeet.NormalizeInput | src/numbers/tafgeet.ts:39-69 | an accepted input is a safe integer; a safe integral number is accepted as itself |
| Tafgeet.NumberValidation | src/numbers/tafgeet.ts:56-68 | a number fails as not finite iff NaN or infinite, as not an integer iff fractional, as unsafe iff integral beyond 2^53−1, and is accepted otherwise |
| Tafgeet.StringValidation | src/numbers/tafgeet.ts:40-54 | a string fails as not numeric iff its trim does not match `[+-]?\d+`; it is accepted iff it matches and its value is safe, and then yields that value; a string never fails as not finite or not an integer |
| Tafgeet.StringRoundTrip | src/numbers/tafgeet.ts:40-54 | the decimal rendering of every safe integer is accepted and read back as that integer |
| Tafgeet.PaddedString | src/numbers/tafgeet.ts:41 | whitespace around a string does not change how it validates |
| Tafgeet.NegativeZeroString | src/numbers/tafgeet.ts:40-53 | the string "-0" is accepted as zero |
| Tafgeet.ConvertThreeDigits | src/numbers/tafgeet.ts:74-100 | zero renders as the empty string, and every count from 1 to 999 renders non-empty |
| Tafgeet.ThreeDigitsOnes | src/numbers/tafgeet.ts:88-90 | 1 to 9 render as `ONES[n]` |
| Tafgeet.ThreeDigitsTeens | src/numbers/tafgeet.ts:91-92 | 11 to 19 render as `TEENS[n-10]` |
| Tafgeet.ThreeDigitsTens | src/numbers/tafgeet.ts:93-96 | a multiple of ten renders as its tens word alone, 10 included |
| Tafgeet.ThreeDigitsCompound | src/numbers/tafgeet.ts:93-99 | 21 to 99 with a non-zero ones digit render as the ones word, the conjunction, then the tens word |
| Tafgeet.ThreeDigitsHundredsFirst | src/numbers/tafgeet.ts:84-99 | from 100 on, the hundreds word (empty past the table) comes first, followed by the conjunction and the remainder's text if the remainder is not zero |
| Tafgeet.OversizedCount | src/numbers/tafgeet.ts:85 | a count of 1000 or more has no hundreds word, so its text is the conjunction and the remainder's text, or empty |
| Tafgeet.SegmentPhrase | src/numbers/tafgeet.ts:128-139 | one tier's text for a count; its cases are stated by `Tafgeet.TierForms` and its non-emptiness by `Tafgeet.SegmentPhraseNonEmpty` |
| Tafgeet.TierForms | src/numbers/tafgeet.ts:131-139 | a non-unit tier reads as its singular for 1 and its dual for 2; from 3 to 10 it reads as the count's text, a space, then the plural; from 11 on, the count's text, a space, then the accusative |
| Tafgeet.SegmentPhraseNonEmpty | src/numbers/tafgeet.ts:128-139 | every tier with a non-zero count contributes a non-empty text |
| Tafgeet.SegmentValues | src/numbers/tafgeet.ts:114-120 | the tier values are 10^12, 10^9, 10^6, 10^3 and 1 |
| Tafgeet.TierStep | src/numbers/tafgeet.ts:126-141 | dividing what remains after the tier above by this tier's value gives this tier's count, and the remainder is `n` modulo this tier's value |
| Tafgeet.LoopStep | src/numbers/tafgeet.ts:125-142 | at each tier, what remains is `n` modulo the value of the tier above; its quotient is the tier count; `remaining %= value` leaves `n` modulo this tier's value, and skipping a zero count leaves the same |
| Tafgeet.TierDecomposition | src/numbers/tafgeet.ts:122-143 | the tiers' counts times their values add up to `n` |
| Tafgeet.TierCountBounds | src/numbers/tafgeet.ts:126 | every tier below the top counts at most 999; the top tier of a safe integer counts at most 9007, reached by 2^53−1 |
| Tafgeet.SpelledPartsNonEmpty | src/numbers/tafgeet.ts:145 | no tier text is empty, so `filter(Boolean)` removes nothing |
| Tafgeet.WordsJoinTiers | src/numbers/tafgeet.ts:125-145 | the words of `n` are the texts of its non-zero tiers, largest first, joined by the conjunction |
| Tafgeet.SingleTierCounts | src/numbers/tafgeet.ts:125-142 | `count * value_i` has count `count` in tier `i` and zero in every other tier |
| Tafgeet.WordsSingleTier | src/numbers/tafgeet.ts:125-145 | a number with one non-zero tier reads as that tier's text alone |
| Tafgeet.WordsBelowThousand | src/numbers/tafgeet.ts:129-130 | a number from 1 to 999 reads as its three-digit text |
| Tafgeet.WordsThousands | src/numbers/tafgeet.ts:125-145 | a number from 1000 to 999999 that is not a whole number of thousands reads as the thousands text, the conjunction, then the text of the last three digits |
| Tafgeet.PositiveSpelling | src/numbers/tafgeet.ts:107-145 | a positive safe integer is answered with its tier words |
| Tafgeet.NegativeSpelling | src/numbers/tafgeet.ts:112 | a negative safe integer is answered with the negative word, a space, and the answer for its magnitude |
| Tafgeet.SpellPositive | src/numbers/tafgeet.ts:114-145 | the tier loop returns the tier words of the number |
| Tafgeet.Tafgeet | src/numbers/tafgeet.ts:107-146 | `tafgeet` returns the validation error or the spelling of the validated integer |
| Tafgeet.SpellInteger | src/numbers/tafgeet.ts:110-145 | zero is "صفر", a negative number is the negative word before the spelling of its magnitude, and a positive number is its tier words |
| TafgeetExamples.SpellsZero | src/numbers/tafgeet.test.ts:5-7 | 0 and "-0" both give "صفر" |
| TafgeetExamples.SpellsOne | src/numbers/tafgeet.test.ts:10 | 1 gives "واحد" |
| TafgeetExamples.SpellsFive | src/numbers/tafgeet.test.ts:11 | 5 gives "خمسة" |
| TafgeetExamples.SpellsEleven | src/numbers/tafgeet.test.ts:15 | 11 gives "أحد عشر" |
| TafgeetExamples.SpellsFifteen | src/numbers/tafgeet.test.ts:16 | 15 gives "خمسة عشر" |
| TafgeetExamples.SpellsTwenty | src/numbers/tafgeet.test.ts:20 | 20 gives "عشرون" |
| TafgeetExamples.SpellsTwentyOne | src/numbers/tafgeet.test.ts:21 | 21 gives "واحد وعشرون" |
| TafgeetExamples.SpellsHundred | src/numbers/tafgeet.test.ts:25 | 100 gives "مائة" |
| TafgeetExamples.SpellsTwoHundred | src/numbers/tafgeet.test.ts:26 | 200 gives the irregular dual "مائتان" |
| TafgeetExamples.SpellsHundredFifty | src/numbers/tafgeet.test.ts:27 | 150 gives "مائة وخمسون" |
| TafgeetExamples.SpellsThousand | src/numbers/tafgeet.test.ts:31-32 | 1000 gives "ألف" and 2000 gives "ألفان" |
| TafgeetExamples.SpellsThreeThousand | src/numbers/tafgeet.test.ts:33 | 3000 gives "ثلاثة آلاف" |
| TafgeetExamples.SpellsFifteenThousand | src/numbers/tafgeet.test.ts:34 | 15000 gives "خمسة عشر ألفًا" |
| TafgeetExamples.SpellsThousandTwoHundredThirtyFour | src/numbers/tafgeet.test.ts:38 | 1234 gives "ألف ومائتان وأربعة وثلاثون" |
| TafgeetExamples.SpellsMillionAndTrillion | src/numbers/tafgeet.test.ts:39-63 | 10^6 gives "مليون" and 10^12 gives "تريليون" |
| TafgeetExamples.SpellsMinusFifty | src/numbers/tafgeet.test.ts:43 | -50 gives "سالب خمسون" |
| TafgeetExamples.RejectsInvalid | src/numbers/tafgeet.test.ts:46-60 | "12abc" fails as not numeric, a fraction as not an integer, and NaN and Infinity as not finite |
| TafgeetExamples.OversizedTrillions | src/numbers/tafgeet.ts:85 | 2^53−1 has 9007 trillions, and their text is " وسبعة تريليونًا": it has no nine thousand and it starts with the conjunction |
| Hijri.ShiftMonths | src/dates/hijri.ts:44-50 | the shifted month is in 3..14 and denotes the same month (`12*y + m` is unchanged) |
| Hijri.Correction | src/dates/hijri.ts:52-62 | the Gregorian correction `b`; `Hijri.CorrectionCases` states its cases |
| Hijri.JulianDay | src/dates/hijri.ts:44-64 | the Julian Day Number of a calendar date; `Hijri.NextDay`, `Hijri.MonthLength`, `Hijri.FebruaryLength` and `Hijri.ReformGap` state that it counts days |
| Hijri.CorrectionCases | src/dates/hijri.ts:52-62 | the correction is 0 before 1582; in 1582 it is −10 from 5 October on (and for the shifted January and February of 1583) and 0 before; from 1583 on it is `2 − y/100 + y/400` |
| Hijri.NextDay | src/dates/hijri.ts:52-64 | within a month, the next day has the next day number, except that 5 October 1582 falls nine days before 4 October |
| Hijri.Cutover | src/dates/hijri.ts:56-64 | the day number of 15 October 1582 is one more than that of 4 October 1582 |
| Hijri.ReformGap | src/dates/hijri.ts:56-64 | 5 to 14 October 1582 get the day numbers of 25 September to 4 October |
| Hijri.MonthLength | src/dates/hijri.ts:44-64 | consecutive first days of months are a month's length apart (Julian leap years to 1582, Gregorian from 1583), except that October 1582 spans 21 |
| Hijri.FebruaryLength | src/dates/hijri.ts:44-64 | February has 29 days in a leap year and 28 otherwise |
| Hijri.TabularFromJulianDay | src/dates/hijri.ts:70-84 | the inverse of the tabular calendar; `Hijri.TabularRange`, `Hijri.TabularRoundTrip` and `Hijri.TabularFromHijri` state that it is the inverse of `HijriToJulianDay` on valid dates |
| Hijri.YearLength | src/dates/hijri.ts:70-78 | a tabular year has 355 days in the leap years 2, 5, 7, 10, 13, 16, 18, 21, 24, 26 and 29 of the cycle, and 354 otherwise |
| Hijri.ThirtyYears | src/dates/hijri.ts:71-72 | thirty years are 10631 days and have the same leap years |
| Hijri.MonthSpan | src/dates/hijri.ts:76-77 | each month starts where the one before ends: odd months have 30 days, even months 29, and the last month 30 in a leap year |
| Hijri.DayOfYearWithinYear | src/dates/hijri.ts:73-74 | the day of the cycle year that the inverse reads never passes the end of that year |
| Hijri.CycleYearOf | src/dates/hijri.ts:73 | a day of the cycle that falls within year `j` of the cycle is read as year `j` |
| Hijri.MonthOfDay | src/dates/hijri.ts:76-77 | every day of a year is read as a month in 1..12 and a day within that month's length, which add back up to the day of the year |
| Hijri.CycleYearCases | src/dates/hijri.ts:73 | the year within the cycle is 1 to 30, taken from the first formula below day 5670 of the cycle and from the second from there on |
| Hijri.CycleYearStartTable | src/dates/hijri.ts:74 | the days before cycle year `j` are `354j + (3 + 11j)/30` |
| Hijri.MonthStartTable | src/dates/hijri.ts:76-77 | the days before month `m` are those of alternating 30- and 29-day months |
| Hijri.TabularRange | src/dates/hijri.ts:70-84 | every day number gives a valid date: a month in 1..12 and a day from 1 to that month's length (30 or 29, and 30 for the last month of a leap year) |
| Hijri.TabularRoundTrip | src/dates/hijri.ts:70-84 | the forward tabular rule maps the computed Hijri date back to the day number it came from |
| Hijri.TabularFromHijri | src/dates/hijri.ts:70-84 | the inverse reads the day number of every valid date back as that date |
| Hijri.HijriToJulianDayInjective | src/dates/hijri.ts:70-84 | two valid dates with the same day number are equal, so no day is read as two dates |
| Hijri.Cycle | src/dates/hijri.ts:70-78 | 10631 days later is 30 Hijri years later, on the same month and day |
| Hijri.ToHijri | src/dates/hijri.ts:33-85 | the result is a valid date (a month in 1..12 and a day within that month's length) whose day number under the tabular rule is the day number of the input; with `Hijri.HijriToJulianDayInjective` it is the only such date |
| Hijri.FormatHijri | src/dates/hijri.ts:92-96 | day, month name and year joined by spaces; `Hijri.FormatHijriInjective` and `HijriExamples.FormatsRamadan` state it |
| Hijri.FormatHijriInjective | src/dates/hijri.ts:92-96 | two dates with valid months that format alike are equal |
| Hijri.MonthNamesDistinct | src/dates/hijri.ts:12-25 | the twelve month names are distinct |
| HijriExamples.FirstOfRamadan1444 | src/dates/hijri.test.ts:6-10 | 23 March 2023 is 1 Ramadan 1444 |
| HijriExamples.FifthOfRamadan1445 | src/dates/hijri.test.ts:12-16 | 15 March 2024 is 5 Ramadan 1445 |
| HijriExamples.EighteenthOfShaban1447 | src/dates/hijri.test.ts:18-22 | 6 February 2026 is 18 Shaban 1447 |
| HijriExamples.Epoch | src/dates/hijri.ts:68-70 | 16 July 622 (Julian) is 1 Muharram 1 |
| HijriExamples.FormatsRamadan | src/dates/hijri.test.ts:51-54 | (1445, 9, 1) formats as "1 رمضان 1445" |
| Digits.TablesAreRanges | src/numbers/digits.ts:5-11 | both tables list their ten digits in code-point order, matching the regex ranges |
| Digits.IndexOf | src/numbers/digits.ts:32 | `indexOf` gives the first position of the character, or −1 exactly when it is absent |
| Digits.ArabicChar | src/numbers/digits.ts:20 | a Western digit becomes the Eastern digit of its value; any other character is kept; the fallback never fires |
| Digits.EnglishChar | src/numbers/digits.ts:31-34 | an Eastern digit becomes the Western digit of its value; any other character is kept; neither fallback fires |
| Digits.ToArabicDigits | src/numbers/digits.ts:18-21 | the length is kept and each character is converted in place |
| Digits.ToEnglishDigits | src/numbers/digits.ts:29-35 | the length is kept and each character is converted in place |
| Digits.ToArabicLeavesNoEnglishDigits | src/numbers/digits.ts:20 | the output of `toArabicDigits` holds no Western digit |
| Digits.ToEnglishLeavesNoArabicDigits | src/numbers/digits.ts:31 | the output of `toEnglishDigits` holds no Eastern digit |
| Digits.ToArabicKeepsText | src/numbers/digits.ts:20 | text without Western digits is left as it is by `toArabicDigits` |
| Digits.ToEnglishKeepsText | src/numbers/digits.ts:31 | text without Eastern digits is left as it is by `toEnglishDigits` |
| Digits.ToArabicIdempotent | src/numbers/digits.ts:18-21 | converting to Eastern digits twice is the same as once |
| Digits.ToEnglishIdempotent | src/numbers/digits.ts:29-35 | converting to Western digits twice is the same as once |
| Digits.EnglishRoundTrip | src/numbers/digits.ts:18-35 | a string without Eastern digits survives a trip to Eastern digits and back |
| Digits.ArabicRoundTrip | src/numbers/digits.ts:18-35 | a string without Western digits survives a trip to Western digits and back |
| Digits.ToArabicConcat | src/numbers/digits.ts:20 | `toArabicDigits` distributes over concatenation |
| Digits.ToEnglishConcat | src/numbers/digits.ts:31 | `toEnglishDigits` distributes over concatenation |
| DigitsExamples.ConvertsOneTwoThree | src/numbers/digits.test.ts:10-12 | "123" becomes "١٢٣" |
| DigitsExamples.KeepsOtherCharacters | src/numbers/digits.test.ts:15 | "Order #456" becomes "Order #٤٥٦" |
| DigitsExamples.ConvertsMixedContent | src/numbers/digits.test.ts:19 | "User 1: 50% off" becomes "User ١: ٥٠% off" |
| DigitsExamples.ArabicBetween | src/numbers/digits.ts:20 | in text whose other pieces have no Western digit, only the runs of digits change |
| DigitsExamples.ConvertsBack | src/numbers/digits.test.ts:25 | "١٢٣" becomes "123" |
| DigitsExamples.KeepsWesternDigits | src/numbers/digits.test.ts:33 | "123" is left as it is by `toEnglishDigits` |
| DigitsExamples.ConvertsMixedContentBack | src/numbers/digits.test.ts:29 | "السعر: ٥٠ ريال" becomes "السعر: 50 ريال" |
| DigitsExamples.EnglishBetween | src/numbers/digits.ts:31 | in text whose other pieces have no Eastern digit, only the run of digits changes |
| Relative.PluralizeEnglish | src/dates/relative.ts:3-5 | the unit is returned unchanged iff the value is 1, and otherwise with "s" appended |
| Relative.FormatArabicRelative | src/dates/relative.ts:7-9 | the prefix, the count in Eastern digits and the unit; `Relative.ArabicPhraseHasNoWesternDigits` and `Relative.ArabicCountReadsBack` state that the count is written in Eastern digits only and reads back as the value |
| Relative.RelativeTime | src/dates/relative.ts:14-63 | the phrase for a distance in milliseconds; `Relative.RelativeTimeSpec` states it |
| Relative.Bucket | src/dates/relative.ts:21-62 | under a minute the count is the seconds; otherwise minutes from 1 to 59, hours from 1 to 23, or days from 1, each with the seconds between count and count+1 units |
| Relative.Cascade | src/dates/relative.ts:33-55 | minutes are below 60 iff under an hour; hours are below 24 iff under a day; the chained floor divisions equal single divisions by the unit length |
| Relative.RelativeTimeSpec | src/dates/relative.ts:14-63 | zero or a past distance under a minute gives "just now"; otherwise the phrase gives the unit and count of the whole seconds, in the future iff `diffMs > 0` |
| Relative.ArabicHasNoWesternDigits | src/dates/relative.ts:7-9 | no Arabic phrase holds a Western digit |
| Relative.ArabicPhraseHasNoWesternDigits | src/dates/relative.ts:7-9 | a prefix and a unit without Western digits around a count in Eastern digits hold no Western digit |
| Relative.ArabicCountReadsBack | src/dates/relative.ts:8 | the Eastern count converts back to the decimal rendering of the value, which reads back as the value |
| RelativeExamples.JustNow | src/dates/date-utils.test.ts:22-25 | a zero distance gives "منذ لحظات" and "just now" |
| RelativeExamples.FiveMinutesAgo | src/dates/date-utils.test.ts:27-30 | five minutes ago gives "منذ ٥ دقيقة" |
| RelativeExamples.InThirtySeconds | src/dates/date-utils.test.ts:32-35 | thirty seconds ahead gives "in 30 seconds" |
| RelativeExamples.ElapsedMillisecond | src/dates/date-utils.test.ts:32-35 | when 1 to 1000 milliseconds pass between the test taking its instant and `relativeTime` reading the clock, thirty seconds ahead reads as "in 29 seconds" |
| RelativeExamples.InFiveMinutes | src/dates/date-utils.test.ts:37-40 | five minutes ahead gives "بعد ٥ دقيقة" |
| RelativeExamples.InTwoHours | src/dates/date-utils.test.ts:42-45 | two hours ahead gives "in 2 hours" |
| RelativeExamples.OneMinuteAgo | src/dates/relative.ts:3-5 | one minute ago gives "1 minute ago", in the singular |
| RelativeExamples.InThreeDays | src/dates/date-utils.test.ts:47-50 | three days ahead gives "بعد ٣ يوم" |
| Text.Join | src/numbers/tafgeet.ts:99 | `join` of no parts is empty and of one part is that part (also line 145); `Text.JoinAppend` states the separator between neighbours |
| Text.JoinAppend | src/numbers/tafgeet.ts:145 | joining two non-empty lists is joining each, with the separator between |
| Text.NonEmpty | src/numbers/tafgeet.ts:145 | `filter(Boolean)` keeps only non-empty strings, and it keeps a list without empty strings whole |
| Text.TrimStart | src/numbers/tafgeet.ts:41 | leading whitespace is removed and the result does not start with whitespace |
| Text.TrimEnd | src/numbers/tafgeet.ts:41 | trailing whitespace is removed and the result does not end with whitespace |
| Text.Trim | src/numbers/tafgeet.ts:41 | `trim`, stated by `Text.TrimStart`, `Text.TrimEnd`, `Text.TrimIdentity` and `Text.TrimPadded` |
| Text.TrimIdentity | src/numbers/tafgeet.ts:41 | a string that neither starts nor ends with whitespace is its own trim |
| Text.TrimPadded | src/numbers/tafgeet.ts:41 | trimming a padded string gives the string back |
| Text.ParseNatToString | src/numbers/tafgeet.ts:47 | reading a decimal rendering back gives the number |
| Text.IntToStringInjective | src/dates/hijri.ts:95 | distinct integers render differently |

## Left out

- Date parsing by `new Date(...)` and the `Invalid Date` error (src/dates/hijri.ts:34-38). `ToHijri` takes the UTC year, month and day read at src/dates/hijri.ts:40-42. The result therefore depends on the UTC calendar date only, never on the time of day or the host timezone, by construction.
- The clock read of `relativeTime` (src/dates/relative.ts:15-17). `RelativeTime` takes the difference `diffMs` in whole milliseconds. An invalid date, which makes the difference NaN, is not modelled.
- IEEE-754 numbers. A tafgeet number input is abstracted to NaN, an infinity, a fractional value or an integral value. `Number(t)` of a string matching `[+-]?\d+` is modelled as its exact value. That is exact for every safe value, and rounding keeps any other value outside the safe range.
- `String.prototype.trim` is modelled with the fixed ECMAScript whitespace and line-terminator set.
- The number inputs of `toArabicDigits` and `toEnglishDigits`: the model converts strings. `String(value)` of the non-negative integers `relativeTime` passes is their decimal rendering, `NatToString`.
- src/dates/formatter.ts: formatting glue that reads host-local date parts.
- src/numbers/currency.ts: it relies on `Intl.NumberFormat` and `toLocaleString`.
- The build configuration and the test harnesses. The `*_examples.dfy` files restate, as lemmas, the fixtures of:
  - src/numbers/tafgeet.test.ts;
  - src/dates/hijri.test.ts:5-22 and 51-54;
  - the string inputs of src/numbers/digits.test.ts;
  - src/dates/date-utils.test.ts:22-50.

  The timezone test, src/dates/hijri.test.ts:25-49, holds by construction (see the first line). src/dates/date-utils.test.ts:8-20 tests src/dates/formatter.ts. The number input at src/numbers/digits.test.ts:7 is left out with the number inputs of the digit conversions.
- The default argument `locale = 'ar'` of `relativeTime` (src/dates/relative.ts:14). `RelativeTime` always takes the locale, so a call without one is `RelativeTime(diffMs, Ar)`.
- Hijri.FormatHijri: a month outside 1..12 renders as "undefined", because `HIJRI_MONTHS[month - 1]` is undefined there and the template writes it out. The model keeps that behaviour rather than an error.
- Hijri.JulianDay: JavaScript dates are proleptic Gregorian, but the formula reads every date before 15 October 1582 as a Julian calendar date. Earlier dates, and the ten dates 5 to 14 October 1582 (see `Hijri.ReformGap`), are modelled as the code computes them.
- Tafgeet.SpellPositive: the top tier's count is not capped at 999. For a safe integer it can reach 9007, whose hundreds lookup falls back to the empty string (see `TafgeetExamples.OversizedTrillions`). The model reproduces the code; it does not spell thousands of trillions.
