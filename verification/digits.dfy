/** Digit transcoding between Western digits `0`..`9` and Eastern Arabic
    digits `٠`..`٩` (U+0660..U+0669), character by character. */
module Digits {
  import opened Text

  /** The Eastern Arabic digits, indexed by value: ٠ ١ ٢ ٣ ٤ ٥ ٦ ٧ ٨ ٩. */
  const ARABIC_DIGITS: seq<char> := ['\U{0660}', '\U{0661}', '\U{0662}', '\U{0663}', '\U{0664}',
                                     '\U{0665}', '\U{0666}', '\U{0667}', '\U{0668}', '\U{0669}']

  /** The Western digits, indexed by value. */
  const ENGLISH_DIGITS: seq<char> := ['0', '1', '2', '3', '4', '5', '6', '7', '8', '9']

  /** The class `[٠-٩]`. */
  predicate IsArabicDigit(c: char) {
    '\U{0660}' <= c <= '\U{0669}'
  }

  /** Both tables list their digit range in code-point order, so the regex
      ranges and the tables agree entry by entry. */
  lemma TablesAreRanges()
    ensures |ARABIC_DIGITS| == 10 && |ENGLISH_DIGITS| == 10
    ensures forall k :: 0 <= k < 10 ==> ARABIC_DIGITS[k] as int == '\U{0660}' as int + k
    ensures forall k :: 0 <= k < 10 ==> ENGLISH_DIGITS[k] == DigitChar(k)
  {
  }

  /** The replacement callback of `toArabicDigits` for a matched Western
      digit: the table entry at its value, or the digit itself if the
      entry were missing. */
  function ArabicDigitFor(d: char): char
    requires IsDigit(d)
  {
    var i := DigitValue(d);
    if i < |ARABIC_DIGITS| then ARABIC_DIGITS[i] else d
  }

  /** `table.indexOf(c)`: the first position holding `c`, or -1. */
  function IndexOf(table: seq<char>, c: char): (i: int)
    ensures -1 <= i < |table|
    ensures i == -1 <==> c !in table
    ensures i >= 0 ==> table[i] == c && forall j :: 0 <= j < i ==> table[j] != c
  {
    if table == [] then -1
    else if table[0] == c then 0
    else
      var k := IndexOf(table[1..], c);
      if k == -1 then -1 else k + 1
  }

  /** The replacement callback of `toEnglishDigits` for a matched Eastern
      digit: its position in ARABIC_DIGITS, mapped through ENGLISH_DIGITS,
      falling back to the digit itself. */
  function EnglishDigitFor(d: char): char
    requires IsArabicDigit(d)
  {
    var index := IndexOf(ARABIC_DIGITS, d);
    if index != -1 then (if index < |ENGLISH_DIGITS| then ENGLISH_DIGITS[index] else d) else d
  }

  /** The replacement `toArabicDigits` makes at one character: only
      characters of the class `[0-9]` are replaced, and the fallback of
      the callback never fires. */
  function ArabicChar(c: char): (r: char)
    ensures r == if IsDigit(c) then ARABIC_DIGITS[DigitValue(c)] else c
  {
    if IsDigit(c) then ArabicDigitFor(c) else c
  }

  /** `ARABIC_DIGITS.indexOf(c)` of an Eastern digit is its value. */
  lemma IndexOfArabicDigit(c: char)
    requires IsArabicDigit(c)
    ensures IndexOf(ARABIC_DIGITS, c) == c as int - '\U{0660}' as int
  {
    TablesAreRanges();
    var k := c as int - '\U{0660}' as int;
    assert ARABIC_DIGITS[k] == c;
    var i := IndexOf(ARABIC_DIGITS, c);
    assert ARABIC_DIGITS[i] as int == '\U{0660}' as int + i;
  }

  /** The replacement `toEnglishDigits` makes at one character: only
      characters of the class `[٠-٩]` are replaced, by the Western digit of
      the same value; neither fallback of the callback fires. */
  function EnglishChar(c: char): (r: char)
    ensures r == if IsArabicDigit(c) then DigitChar(c as int - '\U{0660}' as int) else c
  {
    if IsArabicDigit(c) then
      IndexOfArabicDigit(c);
      TablesAreRanges();
      EnglishDigitFor(c)
    else c
  }

  /** `toArabicDigits`: every Western digit replaced by its Eastern glyph. */
  function ToArabicDigits(s: string): (r: string)
    ensures |r| == |s|
    ensures forall i :: 0 <= i < |s| ==> r[i] == ArabicChar(s[i])
  {
    if s == [] then [] else [ArabicChar(s[0])] + ToArabicDigits(s[1..])
  }

  /** `toEnglishDigits`: every Eastern digit replaced by its Western digit. */
  function ToEnglishDigits(s: string): (r: string)
    ensures |r| == |s|
    ensures forall i :: 0 <= i < |s| ==> r[i] == EnglishChar(s[i])
  {
    if s == [] then [] else [EnglishChar(s[0])] + ToEnglishDigits(s[1..])
  }

  predicate NoEnglishDigits(s: string) {
    forall i :: 0 <= i < |s| ==> !IsDigit(s[i])
  }

  predicate NoArabicDigits(s: string) {
    forall i :: 0 <= i < |s| ==> !IsArabicDigit(s[i])
  }

  /** The output of `toArabicDigits` holds only Eastern digits. */
  lemma ToArabicLeavesNoEnglishDigits(s: string)
    ensures NoEnglishDigits(ToArabicDigits(s))
  {
    TablesAreRanges();
  }

  /** The output of `toEnglishDigits` holds only Western digits. */
  lemma ToEnglishLeavesNoArabicDigits(s: string)
    ensures NoArabicDigits(ToEnglishDigits(s))
  {
  }

  /** Text without Western digits is left as it is by `toArabicDigits`. */
  lemma ToArabicKeepsText(s: string)
    requires NoEnglishDigits(s)
    ensures ToArabicDigits(s) == s
  {
  }

  /** Text without Eastern digits is left as it is by `toEnglishDigits`. */
  lemma ToEnglishKeepsText(s: string)
    requires NoArabicDigits(s)
    ensures ToEnglishDigits(s) == s
  {
  }

  /** Converting to Eastern digits twice is converting once. */
  lemma ToArabicIdempotent(s: string)
    ensures ToArabicDigits(ToArabicDigits(s)) == ToArabicDigits(s)
  {
    ToArabicLeavesNoEnglishDigits(s);
  }

  /** Converting to Western digits twice is converting once. */
  lemma ToEnglishIdempotent(s: string)
    ensures ToEnglishDigits(ToEnglishDigits(s)) == ToEnglishDigits(s)
  {
    ToEnglishLeavesNoArabicDigits(s);
  }

  /** A string without Eastern digits comes back unchanged from a trip
      through Eastern digits. */
  lemma EnglishRoundTrip(s: string)
    requires NoArabicDigits(s)
    ensures ToEnglishDigits(ToArabicDigits(s)) == s
  {
    TablesAreRanges();
  }

  /** A string without Western digits comes back unchanged from a trip
      through Western digits. */
  lemma ArabicRoundTrip(s: string)
    requires NoEnglishDigits(s)
    ensures ToArabicDigits(ToEnglishDigits(s)) == s
  {
    TablesAreRanges();
  }

  /** `toArabicDigits` works character by character, so it distributes
      over concatenation. */
  lemma ToArabicConcat(a: string, b: string)
    ensures ToArabicDigits(a + b) == ToArabicDigits(a) + ToArabicDigits(b)
  {
    var l, r := ToArabicDigits(a + b), ToArabicDigits(a) + ToArabicDigits(b);
    forall i | 0 <= i < |l| ensures l[i] == r[i] {
      if i < |a| { assert (a + b)[i] == a[i]; } else { assert (a + b)[i] == b[i - |a|]; }
    }
  }

  /** `toEnglishDigits` works character by character, so it distributes
      over concatenation. */
  lemma ToEnglishConcat(a: string, b: string)
    ensures ToEnglishDigits(a + b) == ToEnglishDigits(a) + ToEnglishDigits(b)
  {
    var l, r := ToEnglishDigits(a + b), ToEnglishDigits(a) + ToEnglishDigits(b);
    forall i | 0 <= i < |l| ensures l[i] == r[i] {
      if i < |a| { assert (a + b)[i] == a[i]; } else { assert (a + b)[i] == b[i - |a|]; }
    }
  }
}
