/** Decimal digit strings: the depth literal's syntax `^[1-9]\d*$`, its
    numeric value (the source's unary `+`), and the rendering of a depth
    number inside a `_$k` tag. */
module Decimal {

  predicate IsDigit(c: char) {
    '0' <= c <= '9'
  }

  predicate AllDigits(s: string) {
    forall k :: 0 <= k < |s| ==> IsDigit(s[k])
  }

  /** The literal matches `^[1-9]\d*$` (`\d` is ASCII-only, `$` is the end
      of input since the regex has no `m` flag). */
  predicate IsCanonical(s: string) {
    |s| > 0 && '1' <= s[0] <= '9' && AllDigits(s)
  }

  function DigitValue(c: char): nat
    requires IsDigit(c)
  {
    c as nat - '0' as nat
  }

  function DigitChar(d: nat): char
    requires d < 10
  {
    ('0' as nat + d) as char
  }

  /** The value of a digit string, most significant digit first. */
  function Value(s: string): nat
    requires AllDigits(s)
    decreases |s|
  {
    if |s| == 0 then 0 else 10 * Value(s[..|s| - 1]) + DigitValue(s[|s| - 1])
  }

  /** The shortest decimal rendering of `n` (JavaScript's number-to-string
      for the integers used here). */
  function Show(n: nat): (r: string)
    ensures AllDigits(r) && Value(r) == n
    ensures n > 0 ==> IsCanonical(r)
  {
    if n < 10 then
      [DigitChar(n)]
    else
      var r := Show(n / 10) + [DigitChar(n % 10)];
      assert r[..|r| - 1] == Show(n / 10);
      r
  }

  lemma {:induction false} CanonicalPositive(s: string)
    requires IsCanonical(s)
    ensures Value(s) >= 1
  {
    if |s| > 1 {
      var s' := s[..|s| - 1];
      assert s'[0] == s[0];
      CanonicalPositive(s');
    }
  }

  /** A canonical literal is exactly the rendering of its value: reading and
      rendering are inverse on `^[1-9]\d*$`. */
  lemma {:induction false} ShowValue(s: string)
    requires IsCanonical(s)
    ensures Show(Value(s)) == s
  {
    if |s| == 1 {
      assert Show(Value(s)) == [s[0]];
    } else {
      var s' := s[..|s| - 1];
      assert s'[0] == s[0];
      CanonicalPositive(s');
      ShowValue(s');
      var v := Value(s);
      assert v / 10 == Value(s') && v % 10 == DigitValue(s[|s| - 1]);
      assert s == s' + [s[|s| - 1]];
    }
  }
}
