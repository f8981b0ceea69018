/** Small string helpers shared by the formatters: JavaScript's
    `Array.prototype.join`, `String.prototype.trim`, and the decimal
    rendering (`String(n)`, template interpolation) and parsing of integers. */
module Text {

  /** `parts.join(sep)`: the parts in order with `sep` between neighbours. */
  function Join(parts: seq<string>, sep: string): (r: string)
    ensures parts == [] ==> r == ""
    ensures |parts| == 1 ==> r == parts[0]
  {
    if |parts| == 0 then ""
    else if |parts| == 1 then parts[0]
    else parts[0] + sep + Join(parts[1..], sep)
  }

  /** Joining two non-empty lists puts exactly one separator between them. */
  lemma {:induction false} JoinAppend(a: seq<string>, b: seq<string>, sep: string)
    requires |a| > 0 && |b| > 0
    ensures Join(a + b, sep) == Join(a, sep) + sep + Join(b, sep)
  {
    if |a| == 1 {
      assert (a + b)[1..] == b;
    } else {
      assert (a + b)[1..] == a[1..] + b;
      JoinAppend(a[1..], b, sep);
    }
  }

  /** `parts.filter(Boolean)`: the parts that are not the empty string. */
  function NonEmpty(parts: seq<string>): (r: seq<string>)
    ensures |r| <= |parts|
    ensures forall i :: 0 <= i < |r| ==> r[i] != ""
    ensures (forall i :: 0 <= i < |parts| ==> parts[i] != "") ==> r == parts
  {
    if parts == [] then []
    else if parts[0] == "" then NonEmpty(parts[1..])
    else [parts[0]] + NonEmpty(parts[1..])
  }

  /** The characters ECMAScript's `trim` removes: WhiteSpace (TAB, VT, FF,
      ZWNBSP and every space separator of category Zs) and LineTerminator
      (LF, CR, LS, PS). */
  predicate IsJsWhitespace(c: char) {
    c == '\t' || c == '\n' || c == '\U{000B}' || c == '\U{000C}' || c == '\r' || c == ' '
    || c == '\U{00A0}' || c == '\U{1680}' || ('\U{2000}' <= c <= '\U{200A}')
    || c == '\U{2028}' || c == '\U{2029}' || c == '\U{202F}' || c == '\U{205F}'
    || c == '\U{3000}' || c == '\U{FEFF}'
  }

  /** `s` with its leading whitespace removed. */
  function TrimStart(s: string): (r: string)
    ensures |r| <= |s| && r == s[|s| - |r|..]
    ensures forall i :: 0 <= i < |s| - |r| ==> IsJsWhitespace(s[i])
    ensures r != [] ==> !IsJsWhitespace(r[0])
  {
    if s != [] && IsJsWhitespace(s[0]) then TrimStart(s[1..]) else s
  }

  /** `s` with its trailing whitespace removed. */
  function TrimEnd(s: string): (r: string)
    ensures |r| <= |s| && r == s[..|r|]
    ensures forall i :: |r| <= i < |s| ==> IsJsWhitespace(s[i])
    ensures r != [] ==> !IsJsWhitespace(r[|r| - 1])
  {
    if s != [] && IsJsWhitespace(s[|s| - 1]) then TrimEnd(s[..|s| - 1]) else s
  }

  /** `s.trim()`. */
  function Trim(s: string): string {
    TrimEnd(TrimStart(s))
  }

  /** A string that neither starts nor ends with whitespace is its own trim. */
  lemma TrimIdentity(s: string)
    requires s != [] ==> !IsJsWhitespace(s[0]) && !IsJsWhitespace(s[|s| - 1])
    ensures Trim(s) == s
  {
    var t := TrimStart(s);
    if |t| < |s| {
      assert IsJsWhitespace(s[0]);
    }
    assert t == s;
  }

  /** Trimming whitespace around a string that neither starts nor ends with
      whitespace gives the string back. */
  lemma TrimPadded(s: string, lead: string, trail: string)
    requires s != [] && !IsJsWhitespace(s[0]) && !IsJsWhitespace(s[|s| - 1])
    requires forall k :: 0 <= k < |lead| ==> IsJsWhitespace(lead[k])
    requires forall k :: 0 <= k < |trail| ==> IsJsWhitespace(trail[k])
    ensures Trim(lead + s + trail) == s
  {
    var p := lead + s + trail;
    assert p == lead + (s + trail);
    var u := TrimStart(p);
    assert forall i :: 0 <= i < |lead| ==> p[i] == lead[i];
    assert p[|lead|] == s[0];
    assert u == s + trail;
    assert forall i :: 0 <= i < |trail| ==> u[|s| + i] == trail[i];
    assert u[|s| - 1] == s[|s| - 1];
    assert TrimEnd(u) == s;
  }

  /** The decimal digits `0`..`9` (the class `\d` of a non-Unicode regex). */
  predicate IsDigit(c: char) {
    '0' <= c <= '9'
  }

  predicate AllDigits(s: string) {
    forall i :: 0 <= i < |s| ==> IsDigit(s[i])
  }

  function DigitChar(d: nat): (c: char)
    requires d < 10
    ensures IsDigit(c)
  {
    ('0' as int + d) as char
  }

  function DigitValue(c: char): (d: nat)
    requires IsDigit(c)
    ensures d < 10 && DigitChar(d) == c
  {
    c as int - '0' as int
  }

  /** The shortest decimal rendering of `n`, as `String(n)` gives it. */
  function NatToString(n: nat): (r: string)
    ensures |r| >= 1 && AllDigits(r)
    ensures r[0] == '0' ==> n == 0
  {
    if n < 10 then [DigitChar(n)] else NatToString(n / 10) + [DigitChar(n % 10)]
  }

  /** The value of a string of decimal digits (leading zeros allowed). */
  function ParseDecimal(s: string): nat
    requires AllDigits(s)
  {
    if s == [] then 0 else ParseDecimal(s[..|s| - 1]) * 10 + DigitValue(s[|s| - 1])
  }

  /** Rendering a natural number and reading it back gives the number. */
  lemma {:induction false} ParseNatToString(n: nat)
    ensures ParseDecimal(NatToString(n)) == n
  {
    var s := NatToString(n);
    if n >= 10 {
      assert s[..|s| - 1] == NatToString(n / 10);
      ParseNatToString(n / 10);
    }
  }

  /** Template-literal rendering of an integer: a minus sign before the
      magnitude of a negative number. */
  function IntToString(i: int): (r: string)
    ensures |r| >= 1
    ensures i >= 0 ==> AllDigits(r)
    ensures i < 0 <==> r[0] == '-'
  {
    if i < 0 then "-" + NatToString(-i) else NatToString(i)
  }

  /** Distinct integers have distinct renderings. */
  lemma IntToStringInjective(i: int, j: int)
    requires IntToString(i) == IntToString(j)
    ensures i == j
  {
    var s := IntToString(i);
    assert (i < 0) == (j < 0);
    if i < 0 {
      assert s[1..] == NatToString(-i);
      assert s[1..] == NatToString(-j);
      NatToStringInjective(-i, -j);
    } else {
      NatToStringInjective(i, j);
    }
  }

  lemma NatToStringInjective(m: nat, n: nat)
    requires NatToString(m) == NatToString(n)
    ensures m == n
  {
    ParseNatToString(m);
    ParseNatToString(n);
  }

  /** A rendered integer holds no space. */
  lemma IntToStringHasNoSpace(i: int)
    ensures ' ' !in IntToString(i)
  {
    var s := IntToString(i);
    if i < 0 {
      assert s == "-" + NatToString(-i);
      assert forall k :: 1 <= k < |s| ==> IsDigit(s[k]);
    }
  }

  /** The length of the text before the first space (all of it when there
      is none). */
  function FieldBeforeSpace(s: string): (r: nat)
    ensures r <= |s|
  {
    if s == [] || s[0] == ' ' then 0 else 1 + FieldBeforeSpace(s[1..])
  }

  /** The length of the text after the last space. */
  function FieldAfterSpace(s: string): (r: nat)
    ensures r <= |s|
  {
    if s == [] || s[|s| - 1] == ' ' then 0 else 1 + FieldAfterSpace(s[..|s| - 1])
  }

  lemma {:induction false} FirstField(a: string, b: string)
    requires ' ' !in a
    ensures FieldBeforeSpace(a + " " + b) == |a|
  {
    if a != [] {
      assert (a + " " + b)[1..] == a[1..] + " " + b;
      FirstField(a[1..], b);
    }
  }

  lemma {:induction false} LastField(a: string, b: string)
    requires ' ' !in b
    ensures FieldAfterSpace(a + " " + b) == |b|
  {
    if b != [] {
      assert (a + " " + b)[..|a + " " + b| - 1] == a + " " + b[..|b| - 1];
      LastField(a, b[..|b| - 1]);
    }
  }

  /** Two fields joined by a space split back when the first has no space. */
  lemma SplitFirstField(a: string, b: string, c: string, d: string)
    requires ' ' !in a && ' ' !in c && a + " " + b == c + " " + d
    ensures a == c && b == d
  {
    var s := a + " " + b;
    FirstField(a, b);
    FirstField(c, d);
    assert a == s[..|a|] && c == s[..|c|];
    assert b == s[|a| + 1..] && d == s[|c| + 1..];
  }

  /** Two fields joined by a space split back when the last has no space. */
  lemma SplitLastField(a: string, b: string, c: string, d: string)
    requires ' ' !in b && ' ' !in d && a + " " + b == c + " " + d
    ensures a == c && b == d
  {
    var s := a + " " + b;
    LastField(a, b);
    LastField(c, d);
    assert a == s[..|a|] && c == s[..|c|];
    assert b == s[|a| + 1..] && d == s[|c| + 1..];
  }
}
