/**
  String helpers shared by the endpoint and the upload client: decimal
  rendering of naturals (Python's `str(int)`), ASCII lower-casing
  (`str.lower`) and suffix tests (`str.endswith`).
 */
module Text {

  predicate IsDigit(c: char) {
    '0' <= c <= '9'
  }

  predicate AllDigits(s: string) {
    forall k :: 0 <= k < |s| ==> IsDigit(s[k])
  }

  function DigitChar(d: nat): (c: char)
    requires d < 10
    ensures IsDigit(c)
  {
    ('0' as int + d) as char
  }

  function DigitValue(c: char): (d: nat)
    requires IsDigit(c)
    ensures d < 10 && DigitChar(d) == c
  {
    c as int - '0' as int
  }

  /** The decimal form of `n`, as Python's `str(n)` writes it. */
  function Decimal(n: nat): (s: string)
    ensures |s| > 0 && AllDigits(s)
    ensures |s| > 1 ==> s[0] != '0'
    ensures n < 10 <==> |s| == 1
  {
    if n < 10 then [DigitChar(n)] else Decimal(n / 10) + [DigitChar(n % 10)]
  }

  /** Reads a string of digits back as a natural number. */
  function ParseDecimal(s: string): nat
    requires AllDigits(s)
  {
    if s == [] then 0 else ParseDecimal(s[..|s| - 1]) * 10 + DigitValue(s[|s| - 1])
  }

  lemma {:induction false} ParseDecimalInvertsDecimal(n: nat)
    ensures ParseDecimal(Decimal(n)) == n
  {
    if n >= 10 {
      var s := Decimal(n);
      assert s[..|s| - 1] == Decimal(n / 10);
      ParseDecimalInvertsDecimal(n / 10);
    }
  }

  /** Different numbers have different decimal forms. */
  lemma DecimalInjective(a: nat, b: nat)
    requires Decimal(a) == Decimal(b)
    ensures a == b
  {
    ParseDecimalInvertsDecimal(a);
    ParseDecimalInvertsDecimal(b);
  }

  /** `str.lower` restricted to ASCII letters. */
  function LowerChar(c: char): char {
    if 'A' <= c <= 'Z' then (c as int + 32) as char else c
  }

  function Lower(s: string): (r: string)
    ensures |r| == |s|
    ensures forall k :: 0 <= k < |s| ==> r[k] == LowerChar(s[k])
  {
    seq(|s|, k requires 0 <= k < |s| => LowerChar(s[k]))
  }

  predicate EndsWith(s: string, suffix: string) {
    |suffix| <= |s| && s[|s| - |suffix|..] == suffix
  }

  /** `c` is `d` itself or, for a lower-case letter `d`, its upper-case form. */
  predicate CaseVariant(c: char, d: char) {
    c == d || ('a' <= d <= 'z' && c as int == d as int - 32)
  }

  /** `s` ends with `suffix` written in any mix of ASCII letter case. */
  predicate EndsWithAnyCase(s: string, suffix: string) {
    |suffix| <= |s| && forall k :: 0 <= k < |suffix| ==> CaseVariant(s[|s| - |suffix| + k], suffix[k])
  }

  /** Every character is a dot or a lower-case ASCII letter. */
  predicate DotsAndLowerLetters(w: string) {
    forall k :: 0 <= k < |w| ==> w[k] == '.' || 'a' <= w[k] <= 'z'
  }

  /** Lower-casing `c` gives the dot or lower-case letter `d` exactly when `c` is a case variant of `d`. */
  lemma LowerCharMatches(c: char, d: char)
    requires d == '.' || 'a' <= d <= 'z'
    ensures LowerChar(c) == d <==> CaseVariant(c, d)
  {
  }

  /**
    Comparing the lower-cased string with a lower-case suffix is comparing
    the string with the suffix in every mix of letter case.
   */
  lemma LowerEndsWithAnyCase(s: string, suffix: string)
    requires DotsAndLowerLetters(suffix)
    ensures EndsWith(Lower(s), suffix) <==> EndsWithAnyCase(s, suffix)
  {
    if |suffix| <= |s| {
      var low, d := Lower(s), |s| - |suffix|;
      forall k | 0 <= k < |suffix|
        ensures low[d..][k] == suffix[k] <==> CaseVariant(s[d + k], suffix[k])
      {
        assert low[d..][k] == LowerChar(s[d + k]);
        LowerCharMatches(s[d + k], suffix[k]);
      }
      if EndsWithAnyCase(s, suffix) {
        assert low[d..] == suffix;
      }
    }
  }

}
