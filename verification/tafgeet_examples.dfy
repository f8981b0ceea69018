/** Worked examples of `tafgeet`, each derived from the general lemmas of
    the Tafgeet module: first the text of a tier, then the whole answer. */
module TafgeetExamples {
  import opened Text
  import opened Tafgeet

  /** A number below a thousand is answered with its three-digit text. */
  lemma SpellsBelowThousand(n: nat, words: string)
    requires 1 <= n <= 999 && ConvertThreeDigits(n) == words
    ensures TafgeetSpec(NumberInput(Integral(n))) == Ok(words)
  {
    PositiveSpelling(n);
    WordsBelowThousand(n);
  }

  /** A number with a single non-zero tier above the units is answered with
      that tier's text. */
  lemma SpellsSingleTier(n: nat, i: nat, count: nat, words: string)
    requires i < 4 && 1 <= count <= 999 && n == count * SEGMENTS[i].value
    requires SegmentPhrase(SEGMENTS[i], count) == words
    ensures TafgeetSpec(NumberInput(Integral(n))) == Ok(words)
  {
    SegmentValues();
    assert n <= 999 * 1000000000000;
    PositiveSpelling(n);
    WordsSingleTier(i, count);
  }

  /** Zero is "صفر", whether given as a number or as the string "-0". */
  lemma SpellsZero()
    ensures TafgeetSpec(NumberInput(Integral(0))) == Ok("صفر")
    ensures TafgeetSpec(StringInput("-0")) == Ok("صفر")
  {
    NegativeZeroString();
  }

  lemma SpellsOne()
    ensures TafgeetSpec(NumberInput(Integral(1))) == Ok("واحد")
  {
    ThreeDigitsOnes(1);
    SpellsBelowThousand(1, "واحد");
  }

  lemma SpellsFive()
    ensures TafgeetSpec(NumberInput(Integral(5))) == Ok("خمسة")
  {
    ThreeDigitsOnes(5);
    SpellsBelowThousand(5, "خمسة");
  }

  lemma SpellsEleven()
    ensures TafgeetSpec(NumberInput(Integral(11))) == Ok("أحد عشر")
  {
    ThreeDigitsTeens(11);
    SpellsBelowThousand(11, "أحد عشر");
  }

  lemma SpellsFifteen()
    ensures TafgeetSpec(NumberInput(Integral(15))) == Ok("خمسة عشر")
  {
    ThreeDigitsTeens(15);
    SpellsBelowThousand(15, "خمسة عشر");
  }

  lemma SpellsTwenty()
    ensures TafgeetSpec(NumberInput(Integral(20))) == Ok("عشرون")
  {
    ThreeDigitsTens(20);
    SpellsBelowThousand(20, "عشرون");
  }

  /** The ones word comes before the tens word. */
  lemma SpellsTwentyOne()
    ensures TafgeetSpec(NumberInput(Integral(21))) == Ok("واحد وعشرون")
  {
    TwentyOneText();
    SpellsBelowThousand(21, "واحد وعشرون");
  }

  lemma TwentyOneText()
    ensures ConvertThreeDigits(21) == "واحد وعشرون"
  {
    ThreeDigitsCompound(21);
    assert ONES[1] + AND + TENS[2] == "واحد وعشرون";
  }

  lemma SpellsHundred()
    ensures TafgeetSpec(NumberInput(Integral(100))) == Ok("مائة")
  {
    ThreeDigitsHundredsFirst(100);
    SpellsBelowThousand(100, "مائة");
  }

  /** The irregular dual "مائتان" comes from the table. */
  lemma SpellsTwoHundred()
    ensures TafgeetSpec(NumberInput(Integral(200))) == Ok("مائتان")
  {
    ThreeDigitsHundredsFirst(200);
    SpellsBelowThousand(200, "مائتان");
  }

  lemma SpellsHundredFifty()
    ensures TafgeetSpec(NumberInput(Integral(150))) == Ok("مائة وخمسون")
  {
    HundredFiftyText();
    SpellsBelowThousand(150, "مائة وخمسون");
  }

  lemma HundredFiftyText()
    ensures ConvertThreeDigits(150) == "مائة وخمسون"
  {
    ThreeDigitsHundredsFirst(150);
    ThreeDigitsTens(50);
    assert HUNDREDS[1] + (AND + TENS[5]) == "مائة وخمسون";
  }

  /** The singular and dual of a tier are its table words alone. */
  lemma SpellsThousand()
    ensures TafgeetSpec(NumberInput(Integral(1000))) == Ok("ألف")
    ensures TafgeetSpec(NumberInput(Integral(2000))) == Ok("ألفان")
  {
    TierForms(3, 1);
    TierForms(3, 2);
    SpellsSingleTier(1000, 3, 1, "ألف");
    SpellsSingleTier(2000, 3, 2, "ألفان");
  }

  /** Three to ten take the plural word. */
  lemma SpellsThreeThousand()
    ensures TafgeetSpec(NumberInput(Integral(3000))) == Ok("ثلاثة آلاف")
  {
    ThreeThousandWords();
    assert ONES[3] + " " + THOUSANDS[3] == "ثلاثة آلاف";
  }

  lemma ThreeThousandWords()
    ensures TafgeetSpec(NumberInput(Integral(3000))) == Ok(ONES[3] + " " + THOUSANDS[3])
  {
    TierForms(3, 3);
    ThreeDigitsOnes(3);
    SpellsSingleTier(3000, 3, 3, ONES[3] + " " + THOUSANDS[3]);
  }

  /** Eleven and more take the accusative word. */
  lemma SpellsFifteenThousand()
    ensures TafgeetSpec(NumberInput(Integral(15000))) == Ok("خمسة عشر ألفًا")
  {
    FifteenThousandWords();
    FifteenThousandText();
  }

  lemma FifteenThousandText()
    ensures TEENS[5] + " " + THOUSANDS[4] == "خمسة عشر ألفًا"
  {
  }

  lemma FifteenThousandWords()
    ensures TafgeetSpec(NumberInput(Integral(15000))) == Ok(TEENS[5] + " " + THOUSANDS[4])
  {
    TierForms(3, 15);
    ThreeDigitsTeens(15);
    SpellsSingleTier(15000, 3, 15, TEENS[5] + " " + THOUSANDS[4]);
  }

  /** A number with a thousands tier and a unit tier is answered with the
      two tier texts joined by the conjunction. */
  lemma SpellsThousandsAndUnits(n: nat, head: string, tail: string)
    requires 1000 <= n <= 999999 && n % 1000 != 0
    requires SegmentPhrase(SEGMENTS[3], n / 1000) == head && ConvertThreeDigits(n % 1000) == tail
    ensures TafgeetSpec(NumberInput(Integral(n))) == Ok(head + AND + tail)
  {
    PositiveSpelling(n);
    WordsThousands(n);
  }

  /** A count from 100 to 999 with a non-zero remainder: the hundreds word,
      the conjunction, then the remainder's text. */
  lemma HundredsAndRemainder(n: nat, head: string, rest: string)
    requires 100 <= n <= 999 && n % 100 != 0
    requires HUNDREDS[n / 100] == head && ConvertThreeDigits(n % 100) == rest
    ensures ConvertThreeDigits(n) == head + AND + rest
  {
    assert At(HUNDREDS, n / 100) == head by {
      assert 1 <= n / 100 <= 9;
    }
    ThreeDigitsHundredsFirst(n);
    assert head + (AND + rest) == head + AND + rest;
  }

  /** Tiers are joined by the conjunction, largest first. */
  lemma SpellsThousandTwoHundredThirtyFour()
    ensures TafgeetSpec(NumberInput(Integral(1234))) == Ok("ألف ومائتان وأربعة وثلاثون")
  {
    ThousandTwoHundredThirtyFourWords();
    ThousandTwoHundredThirtyFourText();
  }

  lemma ThousandTwoHundredThirtyFourText()
    ensures THOUSANDS[1] + AND + (HUNDREDS[2] + AND + (ONES[4] + AND + TENS[3]))
      == "ألف ومائتان وأربعة وثلاثون"
  {
  }

  /** 1234 in table words: one thousand, then two hundred, four and thirty. */
  lemma ThousandTwoHundredThirtyFourWords()
    ensures TafgeetSpec(NumberInput(Integral(1234)))
      == Ok(THOUSANDS[1] + AND + (HUNDREDS[2] + AND + (ONES[4] + AND + TENS[3])))
  {
    TierForms(3, 1);
    TwoHundredThirtyFourWords();
    SpellsThousandsAndUnits(1234, THOUSANDS[1], HUNDREDS[2] + AND + (ONES[4] + AND + TENS[3]));
  }

  lemma TwoHundredThirtyFourWords()
    ensures ConvertThreeDigits(234) == HUNDREDS[2] + AND + (ONES[4] + AND + TENS[3])
  {
    ThreeDigitsCompound(34);
    HundredsAndRemainder(234, HUNDREDS[2], ONES[4] + AND + TENS[3]);
  }

  lemma SpellsMillionAndTrillion()
    ensures TafgeetSpec(NumberInput(Integral(1000000))) == Ok("مليون")
    ensures TafgeetSpec(NumberInput(Integral(1000000000000))) == Ok("تريليون")
  {
    TierForms(2, 1);
    TierForms(0, 1);
    SpellsSingleTier(1000000, 2, 1, "مليون");
    SpellsSingleTier(1000000000000, 0, 1, "تريليون");
  }

  /** A negative number carries the negative word. */
  lemma SpellsMinusFifty()
    ensures TafgeetSpec(NumberInput(Integral(-50))) == Ok("سالب خمسون")
  {
    NegativeSpelling(-50);
    assert -(-50) == 50;
    ThreeDigitsTens(50);
    SpellsBelowThousand(50, "خمسون");
    assert NEGATIVE_WORD + " " + "خمسون" == "سالب خمسون";
  }

  /** The validation failures of the examples. */
  lemma RejectsInvalid()
    ensures TafgeetSpec(StringInput("12abc")) == Err(NotNumericString)
    ensures TafgeetSpec(NumberInput(Fractional)) == Err(NotInteger)
    ensures TafgeetSpec(NumberInput(NaN)) == Err(NotFinite)
    ensures TafgeetSpec(NumberInput(Infinity(false))) == Err(NotFinite)
  {
    assert !IsNumericString("12abc") by {
      assert !IsDigit("12abc"[2]);
    }
    assert Trim("12abc") == "12abc" by {
      TrimIdentity("12abc");
    }
  }

  /** The largest safe integer has 9007 trillions. Its trillion text has
      no hundreds word, so it starts with the conjunction, and the nine
      thousand trillions are not spelled. */
  lemma OversizedTrillions()
    ensures TierCount(MAX_SAFE_INTEGER, 0) == 9007
    ensures SegmentPhrase(SEGMENTS[0], 9007) == " وسبعة تريليونًا"
  {
    OversizedTrillionWords();
    OversizedTrillionText();
  }

  lemma OversizedTrillionText()
    ensures AND + ONES[7] + " " + TRILLIONS[4] == " وسبعة تريليونًا"
  {
  }

  lemma OversizedTrillionWords()
    ensures TierCount(MAX_SAFE_INTEGER, 0) == 9007
    ensures SegmentPhrase(SEGMENTS[0], 9007) == AND + ONES[7] + " " + TRILLIONS[4]
  {
    TierCountBounds(MAX_SAFE_INTEGER, 0);
    assert ConvertThreeDigits(9007) == AND + ONES[7] by {
      assert 9007 % 100 == 7;
      OversizedCount(9007);
      ThreeDigitsOnes(7);
    }
    TierForms(0, 9007);
  }
}
