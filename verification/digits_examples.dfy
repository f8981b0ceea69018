/** Worked examples of the digit conversions, one character at a time. */
module DigitsExamples {
  import opened Text
  import opened Digits

  /** Each Western digit goes to the Eastern glyph of the same value. */
  lemma ArabicGlyphs()
    ensures ArabicChar('1') == '١' && ArabicChar('2') == '٢' && ArabicChar('3') == '٣'
    ensures ArabicChar('4') == '٤' && ArabicChar('5') == '٥' && ArabicChar('6') == '٦'
    ensures ArabicChar('0') == '٠'
  {
  }

  lemma ConvertsOneTwoThree()
    ensures ToArabicDigits("123") == "١٢٣"
  {
    ArabicGlyphs();
  }

  /** Characters outside `[0-9]` are left as they are. */
  lemma KeepsOtherCharacters()
    ensures ToArabicDigits("Order #456") == "Order #٤٥٦"
  {
    OrderParts();
    ArabicGlyphs();
    ArabicBetween("Order #", "456", "", "", "", "٤٥٦", "");
  }

  lemma OrderParts()
    ensures "Order #456" == "Order #" + "456" + "" + "" + ""
    ensures "Order #٤٥٦" == "Order #" + "٤٥٦" + "" + "" + ""
  {
  }

  lemma ConvertsBack()
    ensures ToEnglishDigits("١٢٣") == "123"
  {
    assert "123" == ToEnglishDigits(ToArabicDigits("123")) by {
      EnglishRoundTrip("123");
    }
    ConvertsOneTwoThree();
  }

  /** Western digits are not Eastern digits, so they pass through. */
  lemma KeepsWesternDigits()
    ensures ToEnglishDigits("123") == "123"
  {
    ToEnglishKeepsText("123");
  }

  /** Digits inside text are converted one by one. */
  lemma ConvertsMixedContent()
    ensures ToArabicDigits("User 1: 50% off") == "User ١: ٥٠% off"
  {
    MixedContentParts();
    ArabicGlyphs();
    ArabicBetween("User ", "1", ": ", "50", "% off", "١", "٥٠");
  }

  lemma MixedContentParts()
    ensures "User 1: 50% off" == "User " + "1" + ": " + "50" + "% off"
    ensures "User ١: ٥٠% off" == "User " + "١" + ": " + "٥٠" + "% off"
  {
  }

  /** Two runs of digits between three pieces of digit-free text: only the runs change. */
  lemma ArabicBetween(a: string, b: string, c: string, d: string, e: string, b': string, d': string)
    requires NoEnglishDigits(a) && NoEnglishDigits(c) && NoEnglishDigits(e)
    requires ToArabicDigits(b) == b' && ToArabicDigits(d) == d'
    ensures ToArabicDigits(a + b + c + d + e) == a + b' + c + d' + e
  {
    ToArabicConcat(a + b + c + d, e);
    ToArabicConcat(a + b + c, d);
    ToArabicConcat(a + b, c);
    ToArabicConcat(a, b);
    ToArabicKeepsText(a);
    ToArabicKeepsText(c);
    ToArabicKeepsText(e);
  }

  /** Eastern digits inside Arabic text become Western digits. */
  lemma ConvertsMixedContentBack()
    ensures ToEnglishDigits("السعر: ٥٠ ريال") == "السعر: 50 ريال"
  {
    PriceParts();
    EnglishBetween("السعر: ", "٥٠", " ريال", "50");
  }

  lemma PriceParts()
    ensures "السعر: ٥٠ ريال" == "السعر: " + "٥٠" + " ريال"
    ensures "السعر: 50 ريال" == "السعر: " + "50" + " ريال"
  {
  }

  /** One run of digits between two pieces of text without Eastern digits: only the run changes. */
  lemma EnglishBetween(a: string, b: string, c: string, b': string)
    requires NoArabicDigits(a) && NoArabicDigits(c) && ToEnglishDigits(b) == b'
    ensures ToEnglishDigits(a + b + c) == a + b' + c
  {
    ToEnglishConcat(a + b, c);
    ToEnglishConcat(a, b);
    ToEnglishKeepsText(a);
    ToEnglishKeepsText(c);
  }
}
