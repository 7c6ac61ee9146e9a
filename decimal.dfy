/** Decimal rendering of non-negative integers, as a JavaScript template
    literal interpolates a whole number of seconds below 10^21 into a message
    (from 10^21 on JavaScript switches to exponent form), and the reading back
    of such a rendering. */
module Decimal {

  /** A non-empty string of ASCII digits. */
  predicate IsDigits(s: string) {
    |s| > 0 && forall i :: 0 <= i < |s| ==> '0' <= s[i] <= '9'
  }

  /** Digits without a superfluous leading zero: the only form Show produces. */
  predicate IsCanonical(s: string) {
    IsDigits(s) && (s[0] == '0' ==> |s| == 1)
  }

  function DigitChar(d: nat): (c: char)
    requires d < 10
    ensures '0' <= c <= '9'
    ensures (c as int) - ('0' as int) == d
  {
    (('0' as int) + d) as char
  }

  /** The decimal rendering of n, most significant digit first. */
  function Show(n: nat): (s: string)
    ensures IsCanonical(s)
    ensures |s| == 1 <==> n < 10
    decreases n
  {
    if n < 10 then [DigitChar(n)] else Show(n / 10) + [DigitChar(n % 10)]
  }

  /** The number a string of digits denotes. */
  function Value(s: string): nat
    requires forall i :: 0 <= i < |s| ==> '0' <= s[i] <= '9'
    decreases |s|
  {
    if s == [] then 0
    else Value(s[..|s| - 1]) * 10 + ((s[|s| - 1] as int) - ('0' as int))
  }

  /** Reading a rendering back gives the number rendered. */
  lemma {:induction false} ValueOfShow(n: nat)
    ensures Value(Show(n)) == n
  {
    if n >= 10 {
      var s := Show(n);
      assert s == Show(n / 10) + [DigitChar(n % 10)];
      assert s[..|s| - 1] == Show(n / 10);
      ValueOfShow(n / 10);
    }
  }

  /** A string of digits that does not start with '0' denotes a positive number. */
  lemma {:induction false} ValuePositive(s: string)
    requires IsDigits(s) && s[0] != '0'
    ensures Value(s) > 0
  {
    if |s| > 1 {
      var t := s[..|s| - 1];
      assert t[0] == s[0];
      ValuePositive(t);
    }
  }

  /** Rendering the number a canonical digit string denotes gives that string back:
      with ValueOfShow, Show is a bijection from nat onto the canonical strings. */
  lemma {:induction false} ShowOfValue(s: string)
    requires IsCanonical(s)
    ensures Show(Value(s)) == s
    decreases |s|
  {
    var d := (s[|s| - 1] as int) - ('0' as int);
    if |s| == 1 {
      assert Value(s) == Value([]) * 10 + d;
    } else {
      var t := s[..|s| - 1];
      assert t[0] == s[0];
      ValuePositive(t);
      ShowOfValue(t);
      var v := Value(s);
      assert v == Value(t) * 10 + d;
      assert v / 10 == Value(t) && v % 10 == d;
      assert s == t + [s[|s| - 1]];
    }
  }
}
