/** Tafgeet: spelling out a safe integer as Arabic cardinal-number words.
    The input is validated, zero and negative numbers are special-cased, and
    a positive number is split into trillion, billion, million, thousand and
    unit tiers, each rendered with the grammatical form its count calls for. */
module Tafgeet {
  import opened Text

  // Word tables, indexed by digit or by grammatical form.
  const ONES: seq<string> := ["", "واحد", "اثنان", "ثلاثة", "أربعة", "خمسة", "ستة", "سبعة", "ثمانية", "تسعة"]
  const TEENS: seq<string> := ["عشرة", "أحد عشر", "اثنا عشر", "ثلاثة عشر", "أربعة عشر", "خمسة عشر",
                               "ستة عشر", "سبعة عشر", "ثمانية عشر", "تسعة عشر"]
  const TENS: seq<string> := ["", "عشرة", "عشرون", "ثلاثون", "أربعون", "خمسون", "ستون", "سبعون", "ثمانون", "تسعون"]
  const HUNDREDS: seq<string> := ["", "مائة", "مائتان", "ثلاثمائة", "أربعمائة", "خمسمائة", "ستمائة", "سبعمائة",
                                  "ثمانمائة", "تسعمائة"]
  // Tier suffixes: [unused, singular, dual, plural for 3..10, accusative for 11 and more].
  const THOUSANDS: seq<string> := ["", "ألف", "ألفان", "آلاف", "ألفًا"]
  const MILLIONS: seq<string> := ["", "مليون", "مليونان", "ملايين", "مليونًا"]
  const BILLIONS: seq<string> := ["", "مليار", "ملياران", "مليارات", "مليارًا"]
  const TRILLIONS: seq<string> := ["", "تريليون", "تريليونان", "تريليونات", "تريليونًا"]

  const ZERO_WORD: string := "صفر"
  const NEGATIVE_WORD: string := "سالب"
  /** The conjunction placed before every segment but the first. */
  const AND: string := " و"

  /** `Number.MAX_SAFE_INTEGER`, 2^53 - 1. */
  const MAX_SAFE_INTEGER: int := 9007199254740991

  /** `table[i] || ''`: the entry, or the empty string past the table's end. */
  function At(table: seq<string>, i: int): string {
    if 0 <= i < |table| then table[i] else ""
  }

  // ---------------------------------------------------------------------
  // Input validation

  /** A JavaScript number, abstracted to what validation distinguishes. */
  datatype JsNumber =
    | NaN
    | Infinity(negative: bool)
    | Fractional             // finite, with a non-zero fractional part
    | Integral(value: int)   // finite and integral, of any magnitude

  datatype Input = StringInput(s: string) | NumberInput(n: JsNumber)

  datatype TafgeetError = NotNumericString | NotFinite | NotInteger | NotSafeInteger

  datatype Result<T> = Ok(value: T) | Err(error: TafgeetError)

  /** The message each validation failure is thrown with. */
  function Message(e: TafgeetError): string {
    match e
    case NotNumericString => "tafgeet expects a numeric string"
    case NotFinite => "tafgeet expects a finite number"
    case NotInteger => "tafgeet expects an integer value"
    case NotSafeInteger => "tafgeet expects a safe integer value"
  }

  /** The four failures are told apart by their messages. */
  lemma MessagesDistinct(e1: TafgeetError, e2: TafgeetError)
    requires e1 != e2
    ensures Message(e1) != Message(e2)
  {
    assert Message(e1)[18] != Message(e2)[18];
  }

  /** `Number.isSafeInteger` of an integral value. */
  predicate IsSafeInteger(v: int) {
    -MAX_SAFE_INTEGER <= v <= MAX_SAFE_INTEGER
  }

  /** The regular expression `^[+-]?\d+$`. */
  predicate IsNumericString(t: string) {
    if |t| > 0 && (t[0] == '+' || t[0] == '-') then |t| > 1 && AllDigits(t[1..])
    else |t| > 0 && AllDigits(t)
  }

  /** `Number(t)` of a string matching `^[+-]?\d+$`, as an exact integer;
      `Number` is exact on every such string whose value is safe, and any
      other value stays outside the safe range after rounding. */
  function NumericValue(t: string): int
    requires IsNumericString(t)
  {
    if t[0] == '-' then -(ParseDecimal(t[1..]) as int)
    else if t[0] == '+' then ParseDecimal(t[1..])
    else ParseDecimal(t)
  }

  /** `normalizeInput`: the checks in the order `normalizeInput` makes them. A
      string is trimmed and must be numeric, then safe; a number must be
      finite, then integral, then safe. */
  function NormalizeInput(input: Input): (r: Result<int>)
    ensures r.Ok? ==> IsSafeInteger(r.value)
    ensures input.NumberInput? && input.n.Integral? && IsSafeInteger(input.n.value) ==> r == Ok(input.n.value)
  {
    match input
    case StringInput(s) =>
      var trimmed := Trim(s);
      if !IsNumericString(trimmed) then Err(NotNumericString)
      else
        var parsed := NumericValue(trimmed);
        if !IsSafeInteger(parsed) then Err(NotSafeInteger) else Ok(parsed)
    case NumberInput(n) =>
      match n
      case NaN => Err(NotFinite)
      case Infinity(_) => Err(NotFinite)
      case Fractional => Err(NotInteger)
      case Integral(v) => if !IsSafeInteger(v) then Err(NotSafeInteger) else Ok(v)
  }

  /** A number is rejected first for not being finite, then for not being
      an integer, then for not being safe, and accepted exactly when it is
      a safe integer. */
  lemma NumberValidation(n: JsNumber)
    ensures NormalizeInput(NumberInput(n)) == Err(NotFinite) <==> n.NaN? || n.Infinity?
    ensures NormalizeInput(NumberInput(n)) == Err(NotInteger) <==> n.Fractional?
    ensures NormalizeInput(NumberInput(n)) == Err(NotSafeInteger) <==> n.Integral? && !IsSafeInteger(n.value)
    ensures NormalizeInput(NumberInput(n)).Ok? <==> n.Integral? && IsSafeInteger(n.value)
  {
  }

  /** A string is accepted exactly when its trimmed form matches
      `^[+-]?\d+$` and denotes a safe integer, and then yields that
      integer; strings never fail for finiteness or integrality. */
  lemma StringValidation(s: string)
    ensures NormalizeInput(StringInput(s)) == Err(NotNumericString) <==> !IsNumericString(Trim(s))
    ensures NormalizeInput(StringInput(s)).Ok? <==>
      IsNumericString(Trim(s)) && IsSafeInteger(NumericValue(Trim(s)))
    ensures NormalizeInput(StringInput(s)).Ok? ==> NormalizeInput(StringInput(s)).value == NumericValue(Trim(s))
    ensures NormalizeInput(StringInput(s)) != Err(NotFinite) && NormalizeInput(StringInput(s)) != Err(NotInteger)
  {
  }

  /** The decimal rendering of every safe integer is accepted and read back
      as that integer. */
  lemma StringRoundTrip(i: int)
    requires IsSafeInteger(i)
    ensures NormalizeInput(StringInput(IntToString(i))) == Ok(i)
  {
    var t := IntToString(i);
    assert IsNumericString(t) && NumericValue(t) == i by {
      if i < 0 {
        assert t[1..] == NatToString(-i);
        ParseNatToString(-i);
      } else {
        ParseNatToString(i);
      }
    }
    assert Trim(t) == t by {
      if i < 0 {
        var u := NatToString(-i);
        assert t[|t| - 1] == u[|u| - 1];
      }
      TrimIdentity(t);
    }
  }

  /** Whitespace around a numeric string does not change how it reads. */
  lemma PaddedString(s: string, lead: string, trail: string)
    requires s != [] && !IsJsWhitespace(s[0]) && !IsJsWhitespace(s[|s| - 1])
    requires forall k :: 0 <= k < |lead| ==> IsJsWhitespace(lead[k])
    requires forall k :: 0 <= k < |trail| ==> IsJsWhitespace(trail[k])
    ensures NormalizeInput(StringInput(lead + s + trail)) == NormalizeInput(StringInput(s))
  {
    TrimPadded(s, lead, trail);
    TrimIdentity(s);
  }

  /** The string `"-0"` reads as zero. */
  lemma NegativeZeroString()
    ensures NormalizeInput(StringInput("-0")) == Ok(0)
  {
    assert Trim("-0") == "-0" by {
      TrimIdentity("-0");
    }
    assert "-0"[1..] == "0";
  }

  // ---------------------------------------------------------------------
  // Three-digit renderer

  /** The words `convertThreeDigits` collects for the last two digits:
      a ones word, a teens word, or the ones word (if any) followed by the
      tens word; ten falls to the tens table. */
  function RemainderParts(remainder: nat): seq<string>
    requires remainder < 100
  {
    var ones, tens := remainder % 10, remainder / 10;
    if remainder == 0 then []
    else if remainder < 10 then [At(ONES, remainder)]
    else if 11 <= remainder <= 19 then [At(TEENS, remainder - 10)]
    else (if ones > 0 then [At(ONES, ones)] else []) + (if tens > 0 then [At(TENS, tens)] else [])
  }

  /** The words `convertThreeDigits` collects for `n`: the hundreds word,
      then the words of the remainder. Counts of a thousand and more look
      up past the end of HUNDREDS. */
  function ThreeDigitParts(n: nat): seq<string> {
    var hundreds := n / 100;
    (if hundreds > 0 then [At(HUNDREDS, hundreds)] else []) + RemainderParts(n % 100)
  }

  /** `convertThreeDigits`: zero renders as nothing and every count from
      1 to 999 as a non-empty phrase. */
  function ConvertThreeDigits(n: nat): (r: string)
    ensures n == 0 ==> r == ""
    ensures 1 <= n <= 999 ==> r != ""
  {
    if n == 0 then "" else Join(ThreeDigitParts(n), AND)
  }

  /** One to nine: the ones word. */
  lemma ThreeDigitsOnes(n: nat)
    requires 1 <= n <= 9
    ensures ConvertThreeDigits(n) == ONES[n]
  {
    assert ThreeDigitParts(n) == [ONES[n]] by {
      assert n / 100 == 0 && n % 100 == n;
      assert RemainderParts(n) == [ONES[n]];
    }
  }

  /** Eleven to nineteen: the teens word. */
  lemma ThreeDigitsTeens(n: nat)
    requires 11 <= n <= 19
    ensures ConvertThreeDigits(n) == TEENS[n - 10]
  {
    assert ThreeDigitParts(n) == [TEENS[n - 10]] by {
      assert n / 100 == 0 && n % 100 == n;
      assert RemainderParts(n) == [TEENS[n - 10]];
    }
  }

  /** A multiple of ten below a hundred, ten included: the tens word. */
  lemma ThreeDigitsTens(n: nat)
    requires 10 <= n <= 90 && n % 10 == 0
    ensures ConvertThreeDigits(n) == TENS[n / 10]
  {
    assert ThreeDigitParts(n) == [TENS[n / 10]] by {
      assert n / 100 == 0 && n % 100 == n;
      assert RemainderParts(n) == [TENS[n / 10]];
    }
  }

  /** Other numbers from 21 to 99: the ones word, the conjunction, then the
      tens word ("واحد وعشرون" for 21). */
  lemma ThreeDigitsCompound(n: nat)
    requires 21 <= n <= 99 && n % 10 != 0
    ensures ConvertThreeDigits(n) == ONES[n % 10] + AND + TENS[n / 10]
  {
    var ones, tens := ONES[n % 10], TENS[n / 10];
    assert ThreeDigitParts(n) == [ones, tens] by {
      assert n / 100 == 0 && n % 100 == n;
      assert RemainderParts(n) == [ones, tens];
    }
    assert Join([ones, tens], AND) == ones + AND + Join([tens], AND);
  }

  /** From a hundred on: the hundreds word (empty past the table's end)
      comes first and is joined to the rendering of a non-zero remainder by
      the conjunction. */
  lemma ThreeDigitsHundredsFirst(n: nat)
    requires n >= 100
    ensures ConvertThreeDigits(n) ==
      At(HUNDREDS, n / 100) + (if n % 100 == 0 then "" else AND + ConvertThreeDigits(n % 100))
  {
    var remainder := n % 100;
    var head, tail := [At(HUNDREDS, n / 100)], RemainderParts(remainder);
    assert ThreeDigitParts(n) == head + tail;
    assert ThreeDigitParts(remainder) == tail by {
      assert remainder / 100 == 0 && remainder % 100 == remainder;
    }
    if remainder != 0 {
      assert tail != [];
      JoinAppend(head, tail, AND);
    }
  }

  /** A count of a thousand or more has no hundreds word: what remains is
      either nothing or the rendering of the last two digits after a
      leading conjunction. */
  lemma OversizedCount(n: nat)
    requires n >= 1000
    ensures ConvertThreeDigits(n) == if n % 100 == 0 then "" else AND + ConvertThreeDigits(n % 100)
  {
    var rest := if n % 100 == 0 then "" else AND + ConvertThreeDigits(n % 100);
    ThreeDigitsHundredsFirst(n);
    assert At(HUNDREDS, n / 100) == "" by {
      assert n / 100 >= 10;
    }
    assert "" + rest == rest;
  }

  // ---------------------------------------------------------------------
  // Tiers

  datatype Segment = Segment(value: nat, suffix: seq<string>)

  /** The tiers, largest first; the unit tier has no suffix words. */
  const SEGMENTS: seq<Segment> := [
    Segment(1000000000000, TRILLIONS),
    Segment(1000000000, BILLIONS),
    Segment(1000000, MILLIONS),
    Segment(1000, THOUSANDS),
    Segment(1, [])
  ]

  /** The text a tier with a non-zero `count` contributes: the unit tier is
      the bare three-digit rendering; a larger tier is its singular word for
      one, its dual word for two, and otherwise the count followed by the
      plural (3..10) or accusative (11 and more) word. */
  function SegmentPhrase(segment: Segment, count: nat): string {
    if segment.value == 1 then ConvertThreeDigits(count)
    else if count == 1 then At(segment.suffix, 1)
    else if count == 2 then At(segment.suffix, 2)
    else if 3 <= count <= 10 then ConvertThreeDigits(count) + " " + At(segment.suffix, 3)
    else ConvertThreeDigits(count) + " " + At(segment.suffix, 4)
  }

  /** The grammatical form of a non-unit tier, by count. */
  lemma TierForms(i: nat, count: nat)
    requires i < 4 && count >= 1
    ensures count == 1 ==> SegmentPhrase(SEGMENTS[i], count) == SEGMENTS[i].suffix[1]
    ensures count == 2 ==> SegmentPhrase(SEGMENTS[i], count) == SEGMENTS[i].suffix[2]
    ensures 3 <= count <= 10 ==>
      SegmentPhrase(SEGMENTS[i], count) == ConvertThreeDigits(count) + " " + SEGMENTS[i].suffix[3]
    ensures count >= 11 ==>
      SegmentPhrase(SEGMENTS[i], count) == ConvertThreeDigits(count) + " " + SEGMENTS[i].suffix[4]
  {
  }

  /** No tier ever contributes an empty text. */
  lemma SegmentPhraseNonEmpty(i: nat, count: nat)
    requires i < 5 && 1 <= count && (i == 4 ==> count <= 999)
    ensures SegmentPhrase(SEGMENTS[i], count) != ""
  {
  }

  /** The count of tier `i` in `n`: everything above a trillion for the top
      tier, and the matching group of three decimal digits below it. */
  function TierCount(n: nat, i: nat): nat
    requires i < |SEGMENTS|
  {
    if i == 0 then n / SEGMENTS[0].value else (n / SEGMENTS[i].value) % 1000
  }

  /** The text tier `i` contributes to `n`, if its count is not zero. */
  function TierPart(n: nat, i: nat): seq<string>
    requires i < |SEGMENTS|
  {
    var count := TierCount(n, i);
    if count > 0 then [SegmentPhrase(SEGMENTS[i], count)] else []
  }

  /** The texts of the first `k` tiers whose count is not zero, in order. */
  function SpelledParts(n: nat, k: nat): seq<string>
    requires k <= |SEGMENTS|
  {
    if k == 0 then [] else SpelledParts(n, k - 1) + TierPart(n, k - 1)
  }

  /** The words of a positive number: the non-empty tier texts, largest
      tier first, joined by the conjunction. */
  function Words(n: nat): string {
    Join(NonEmpty(SpelledParts(n, |SEGMENTS|)), AND)
  }

  /** What `tafgeet` returns or throws, stated on the tier decomposition. */
  function TafgeetSpec(input: Input): Result<string> {
    Spelled(NormalizeInput(input))
  }

  /** The answer for a validated value: an error passes through, zero and
      negative values are special-cased, and a positive value is spelled
      by its tiers. */
  function Spelled(normalized: Result<int>): Result<string> {
    match normalized
    case Err(e) => Err(e)
    case Ok(v) =>
      if v == 0 then Ok(ZERO_WORD)
      else if v < 0 then Ok(NEGATIVE_WORD + " " + Words(-v))
      else Ok(Words(v))
  }

  /** The tier values: each is a thousand times the next. */
  lemma SegmentValues()
    ensures SEGMENTS[0].value == 1000000000000 && SEGMENTS[1].value == 1000000000
    ensures SEGMENTS[2].value == 1000000 && SEGMENTS[3].value == 1000 && SEGMENTS[4].value == 1
  {
  }

  /** Moving from one tier to the next: the count of tier `i` is what is
      left after the larger tiers, divided by the tier's value, and what
      is then left is `n` modulo the tier's value. */
  lemma TierStep(n: nat, i: nat)
    requires 1 <= i < |SEGMENTS|
    ensures (n % SEGMENTS[i - 1].value) / SEGMENTS[i].value == TierCount(n, i)
    ensures (n % SEGMENTS[i - 1].value) % SEGMENTS[i].value == n % SEGMENTS[i].value
  {
    SegmentValues();
    if i == 1 {
      BillionsGroup(n);
    } else if i == 2 {
      MillionsGroup(n);
    } else if i == 3 {
      ThousandsGroup(n);
    }
  }

  /** Below a trillion, the billions are digits 10 to 12 of `n`. */
  lemma BillionsGroup(n: nat)
    ensures (n % 1000000000000) / 1000000000 == (n / 1000000000) % 1000
    ensures (n % 1000000000000) % 1000000000 == n % 1000000000
  {
  }

  /** Below a billion, the millions are digits 7 to 9 of `n`. */
  lemma MillionsGroup(n: nat)
    ensures (n % 1000000000) / 1000000 == (n / 1000000) % 1000
    ensures (n % 1000000000) % 1000000 == n % 1000000
  {
  }

  /** Below a million, the thousands are digits 4 to 6 of `n`. */
  lemma ThousandsGroup(n: nat)
    ensures (n % 1000000) / 1000 == (n / 1000) % 1000
    ensures (n % 1000000) % 1000 == n % 1000
  {
  }

  /** One turn of the tier loop: with `remaining` what the larger tiers
      left of `n`, its quotient by the tier's value is the tier's count,
      and what is left afterwards is `n` modulo the tier's value. */
  lemma LoopStep(n: nat, i: nat, remaining: nat)
    requires i < |SEGMENTS|
    requires remaining == if i == 0 then n else n % SEGMENTS[i - 1].value
    ensures remaining / SEGMENTS[i].value == TierCount(n, i)
    ensures remaining % SEGMENTS[i].value == n % SEGMENTS[i].value
    ensures remaining / SEGMENTS[i].value == 0 ==> remaining == n % SEGMENTS[i].value
    ensures remaining / SEGMENTS[i].value * SEGMENTS[i].value + remaining % SEGMENTS[i].value == remaining
  {
    SegmentValues();
    if i > 0 {
      TierStep(n, i);
    }
    var v := SEGMENTS[i].value;
    if i == 0 {
      assert remaining / 1000000000000 * 1000000000000 + remaining % 1000000000000 == remaining;
    } else if i == 1 {
      assert remaining / 1000000000 * 1000000000 + remaining % 1000000000 == remaining;
    } else if i == 2 {
      assert remaining / 1000000 * 1000000 + remaining % 1000000 == remaining;
    } else if i == 3 {
      assert remaining / 1000 * 1000 + remaining % 1000 == remaining;
    }
  }

  /** The sum of count times value over the first `k` tiers. */
  function TierTotal(n: nat, k: nat): nat
    requires k <= |SEGMENTS|
  {
    if k == 0 then 0 else TierTotal(n, k - 1) + TierCount(n, k - 1) * SEGMENTS[k - 1].value
  }

  /** The tiers decompose the number exactly: the first `k` tiers account
      for everything but `n` modulo the value of tier `k - 1`, and all five
      account for `n`. */
  lemma {:induction false} TierDecomposition(n: nat, k: nat)
    requires 1 <= k <= |SEGMENTS|
    ensures TierTotal(n, k) + n % SEGMENTS[k - 1].value == n
    ensures k == |SEGMENTS| ==> TierTotal(n, k) == n
  {
    SegmentValues();
    if k > 1 {
      TierDecomposition(n, k - 1);
      LoopStep(n, k - 1, n % SEGMENTS[k - 2].value);
    }
  }

  /** Below the top tier a count is one group of three digits; the top
      tier's count reaches 9007 for the largest safe integer. */
  lemma TierCountBounds(n: nat, i: nat)
    requires i < |SEGMENTS|
    ensures 1 <= i ==> TierCount(n, i) <= 999
    ensures i == 0 && n <= MAX_SAFE_INTEGER ==> TierCount(n, i) <= 9007
    ensures TierCount(MAX_SAFE_INTEGER, 0) == 9007
  {
  }

  /** Every tier text is non-empty, so filtering out empty strings before
      the join never removes anything. */
  lemma {:induction false} SpelledPartsNonEmpty(n: nat, k: nat)
    requires k <= |SEGMENTS|
    ensures NonEmpty(SpelledParts(n, k)) == SpelledParts(n, k)
    ensures forall j :: 0 <= j < |SpelledParts(n, k)| ==> SpelledParts(n, k)[j] != ""
  {
    if k > 0 {
      SpelledPartsNonEmpty(n, k - 1);
      if TierCount(n, k - 1) > 0 {
        SegmentPhraseNonEmpty(k - 1, TierCount(n, k - 1));
      }
    }
  }

  /** The five tiers, written out in order. */
  lemma SpelledPartsUnrolled(n: nat)
    ensures SpelledParts(n, 5) ==
      TierPart(n, 0) + TierPart(n, 1) + TierPart(n, 2) + TierPart(n, 3) + TierPart(n, 4)
  {
    assert SpelledParts(n, 1) == TierPart(n, 0);
    assert SpelledParts(n, 2) == TierPart(n, 0) + TierPart(n, 1);
    assert SpelledParts(n, 3) == TierPart(n, 0) + TierPart(n, 1) + TierPart(n, 2);
    assert SpelledParts(n, 4) == TierPart(n, 0) + TierPart(n, 1) + TierPart(n, 2) + TierPart(n, 3);
  }

  /** The words of a positive number are its tier texts joined by the
      conjunction. */
  lemma WordsJoinTiers(n: nat)
    ensures Words(n) ==
      Join(TierPart(n, 0) + TierPart(n, 1) + TierPart(n, 2) + TierPart(n, 3) + TierPart(n, 4), AND)
  {
    SpelledPartsUnrolled(n);
    SpelledPartsNonEmpty(n, 5);
  }

  /** The tier counts of `count` times the value of tier `i`: `count` at
      tier `i` and zero elsewhere. */
  lemma SingleTierCounts(i: nat, count: nat)
    requires i < |SEGMENTS| && (i > 0 ==> count <= 999)
    ensures forall j :: 0 <= j < |SEGMENTS| ==>
      TierCount(count * SEGMENTS[i].value, j) == if j == i then count else 0
  {
    SegmentValues();
    if i == 0 {
      TrillionsOnly(count);
    } else if i == 1 {
      BillionsOnly(count);
    } else if i == 2 {
      MillionsOnly(count);
    } else if i == 3 {
      ThousandsOnly(count);
    } else {
      UnitsOnly(count);
    }
  }

  lemma TrillionsOnly(count: nat)
    ensures TierCount(count * 1000000000000, 0) == count
    ensures TierCount(count * 1000000000000, 1) == 0 && TierCount(count * 1000000000000, 2) == 0
    ensures TierCount(count * 1000000000000, 3) == 0 && TierCount(count * 1000000000000, 4) == 0
  {
    var n := count * 1000000000000;
    assert n / 1000000000 == count * 1000;
    assert n / 1000000 == count * 1000000;
    assert n / 1000 == count * 1000000000;
  }

  lemma BillionsOnly(count: nat)
    requires count <= 999
    ensures TierCount(count * 1000000000, 1) == count
    ensures TierCount(count * 1000000000, 0) == 0 && TierCount(count * 1000000000, 2) == 0
    ensures TierCount(count * 1000000000, 3) == 0 && TierCount(count * 1000000000, 4) == 0
  {
    var n := count * 1000000000;
    assert TierCount(n, 0) == 0 by {
      assert n < 1000000000000;
    }
    assert TierCount(n, 2) == 0 by {
      assert n / 1000000 == count * 1000;
    }
    assert TierCount(n, 3) == 0 by {
      assert n / 1000 == count * 1000000;
    }
  }

  lemma MillionsOnly(count: nat)
    requires count <= 999
    ensures TierCount(count * 1000000, 2) == count
    ensures TierCount(count * 1000000, 0) == 0 && TierCount(count * 1000000, 1) == 0
    ensures TierCount(count * 1000000, 3) == 0 && TierCount(count * 1000000, 4) == 0
  {
    var n := count * 1000000;
    assert n / 1000 == count * 1000;
  }

  lemma ThousandsOnly(count: nat)
    requires count <= 999
    ensures TierCount(count * 1000, 3) == count
    ensures TierCount(count * 1000, 0) == 0 && TierCount(count * 1000, 1) == 0
    ensures TierCount(count * 1000, 2) == 0 && TierCount(count * 1000, 4) == 0
  {
  }

  lemma UnitsOnly(count: nat)
    requires count <= 999
    ensures TierCount(count, 4) == count
    ensures TierCount(count, 0) == 0 && TierCount(count, 1) == 0
    ensures TierCount(count, 2) == 0 && TierCount(count, 3) == 0
  {
  }

  /** A number whose only non-zero tier is tier `i` is spelled by that
      tier's text alone ("مليون" for a million, "تريليون" for a trillion). */
  lemma WordsSingleTier(i: nat, count: nat)
    requires i < |SEGMENTS| && 1 <= count && (i > 0 ==> count <= 999)
    ensures Words(count * SEGMENTS[i].value) == SegmentPhrase(SEGMENTS[i], count)
  {
    var n := count * SEGMENTS[i].value;
    SingleTierCounts(i, count);
    WordsJoinTiers(n);
    var parts := TierPart(n, 0) + TierPart(n, 1) + TierPart(n, 2) + TierPart(n, 3) + TierPart(n, 4);
    assert parts == [SegmentPhrase(SEGMENTS[i], count)];
  }

  /** Below a thousand, a number is spelled by `convertThreeDigits` alone. */
  lemma WordsBelowThousand(n: nat)
    requires 1 <= n <= 999
    ensures Words(n) == ConvertThreeDigits(n)
  {
    SegmentValues();
    WordsSingleTier(4, n);
    assert n * SEGMENTS[4].value == n;
  }

  /** Thousands followed by a non-zero unit tier: the thousands text, the
      conjunction, then the three-digit rendering of the units. */
  lemma WordsThousands(n: nat)
    requires 1000 <= n <= 999999 && n % 1000 != 0
    ensures Words(n) == SegmentPhrase(SEGMENTS[3], n / 1000) + AND + ConvertThreeDigits(n % 1000)
  {
    ThousandsAndUnitsCounts(n);
    TwoTiers(n, SegmentPhrase(SEGMENTS[3], n / 1000), ConvertThreeDigits(n % 1000));
  }

  /** A number with only a thousands and a unit tier is spelled as the two
      tier texts joined by the conjunction. */
  lemma TwoTiers(n: nat, head: string, tail: string)
    requires TierPart(n, 0) == [] && TierPart(n, 1) == [] && TierPart(n, 2) == []
    requires TierPart(n, 3) == [head] && TierPart(n, 4) == [tail]
    ensures Words(n) == head + AND + tail
  {
    WordsJoinTiers(n);
    var parts := TierPart(n, 0) + TierPart(n, 1) + TierPart(n, 2) + TierPart(n, 3) + TierPart(n, 4);
    assert parts == [head, tail];
    assert Join([head, tail], AND) == head + AND + Join([tail], AND);
  }

  lemma ThousandsAndUnitsCounts(n: nat)
    requires 1000 <= n <= 999999 && n % 1000 != 0
    ensures TierPart(n, 0) == [] && TierPart(n, 1) == [] && TierPart(n, 2) == []
    ensures TierPart(n, 3) == [SegmentPhrase(SEGMENTS[3], n / 1000)]
    ensures TierPart(n, 4) == [ConvertThreeDigits(n % 1000)]
  {
    assert TierCount(n, 0) == 0 && TierCount(n, 1) == 0 && TierCount(n, 2) == 0;
    assert TierCount(n, 3) == n / 1000 && TierCount(n, 4) == n % 1000;
  }

  // ---------------------------------------------------------------------
  // tafgeet

  /** A positive safe number is spelled by its tiers alone: the argument of
      the sign-stripping call never reaches that call again, so the
      recursion is one level deep. */
  lemma PositiveSpelling(v: int)
    requires 0 < v <= MAX_SAFE_INTEGER
    ensures TafgeetSpec(NumberInput(Integral(v))) == Ok(Words(v))
  {
    assert NormalizeInput(NumberInput(Integral(v))) == Ok(v);
  }

  /** A negative number is spelled as the negative word, a space, and the
      spelling of its magnitude. */
  lemma NegativeSpelling(num: int)
    requires -MAX_SAFE_INTEGER <= num < 0
    ensures TafgeetSpec(NumberInput(Integral(num))) ==
      Ok(NEGATIVE_WORD + " " + TafgeetSpec(NumberInput(Integral(-num))).value)
  {
    PositiveSpelling(-num);
  }

  /** The tier walk of `tafgeet` for a positive number: from the largest
      tier down, the text of each tier with a non-zero count is collected
      and the count's share taken off what remains; the texts are then
      joined by the conjunction. */
  method SpellPositive(num: nat) returns (words: string)
    requires num > 0
    ensures words == Words(num)
  {
    var remaining: nat := num;
    var parts: seq<string> := [];
    ghost var counted: nat := 0;
    for i := 0 to |SEGMENTS|
      invariant remaining == if i == 0 then num else num % SEGMENTS[i - 1].value
      invariant counted == TierTotal(num, i)
      invariant parts == SpelledParts(num, i)
    {
      var segment := SEGMENTS[i];
      var count := remaining / segment.value;
      LoopStep(num, i, remaining);
      if count > 0 {
        parts := parts + [SegmentPhrase(segment, count)];
        counted := counted + count * segment.value;
        remaining := remaining % segment.value;
      }
    }
    words := Join(NonEmpty(parts), AND);
  }

  /** `tafgeet`: validate the input, then spell the integer it denotes. */
  method Tafgeet(input: Input) returns (r: Result<string>)
    ensures r == TafgeetSpec(input)
    decreases if input.NumberInput? && input.n.Integral? && input.n.value >= 0 then 0 else 1, 1
  {
    var normalized := NormalizeInput(input);
    if normalized.Err? {
      return Err(normalized.error);
    }
    r := SpellInteger(normalized.value);
  }

  /** The body of `tafgeet` after validation: zero is answered directly, a
      negative number is spelled as the negative word before `tafgeet` of
      its magnitude, and a positive number tier by tier. */
  method SpellInteger(num: int) returns (r: Result<string>)
    requires IsSafeInteger(num)
    ensures r == Spelled(Ok(num))
    decreases if num >= 0 then 0 else 1, 0
  {
    if num == 0 {
      return Ok(ZERO_WORD);
    }
    if num < 0 {
      var magnitude := Tafgeet(NumberInput(Integral(-num)));
      PositiveSpelling(-num);
      return Ok(NEGATIVE_WORD + " " + magnitude.value);
    }
    var words := SpellPositive(num);
    return Ok(words);
  }
}
