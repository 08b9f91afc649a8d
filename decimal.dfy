/**
 * `int.ToString()` with '-' as the negative sign: optional '-', then decimal
 * digits without leading zeros.
 */
module Decimal {

  predicate IsDigit(c: char) {
    '0' <= c <= '9'
  }

  predicate AllDigits(s: string) {
    forall i :: 0 <= i < |s| ==> IsDigit(s[i])
  }

  function Digit(d: nat): (c: char)
    requires d < 10
    ensures IsDigit(c) && c as int - '0' as int == d
  {
    ('0' as int + d) as char
  }

  /** The number a string of digits spells. */
  function Value(s: string): nat
    requires AllDigits(s)
    decreases |s|
  {
    if s == [] then 0 else Value(s[..|s| - 1]) * 10 + (s[|s| - 1] as int - '0' as int)
  }

  /** The decimal digits of n, most significant first. */
  function NatString(n: nat): (s: string)
    ensures |s| >= 1 && AllDigits(s)
    ensures n >= 10 ==> |s| >= 2
    decreases n
  {
    if n < 10 then [Digit(n)] else NatString(n / 10) + [Digit(n % 10)]
  }

  /** `n.ToString()`. */
  function IntString(n: int): (s: string)
    ensures |s| >= 1
    ensures forall i :: 0 <= i < |s| ==> IsDigit(s[i]) || s[i] == '-'
    ensures s[0] == '-' <==> n < 0
    ensures n >= 0 ==> AllDigits(s)
    ensures n < 0 ==> AllDigits(s[1..])
  {
    if n < 0 then "-" + NatString(-n) else NatString(n)
  }

  /** The digits read back as the number they were written from. */
  lemma {:induction false} NatStringValue(n: nat)
    ensures Value(NatString(n)) == n
    decreases n
  {
    var s := NatString(n);
    if n >= 10 {
      NatStringValue(n / 10);
      assert s[..|s| - 1] == NatString(n / 10);
      assert s[|s| - 1] == Digit(n % 10);
    }
  }

  /** A number is written without leading zeros. */
  lemma {:induction false} NatStringLeading(n: nat)
    ensures NatString(n)[0] == '0' <==> n == 0
    decreases n
  {
    if n >= 10 {
      NatStringLeading(n / 10);
      assert NatString(n)[0] == NatString(n / 10)[0];
    }
  }

  /** Different natural numbers have different digits. */
  lemma NatStringInjective(m: nat, n: nat)
    requires NatString(m) == NatString(n)
    ensures m == n
  {
    NatStringValue(m);
    NatStringValue(n);
  }

  /** Different numbers are written differently, so the text determines the number. */
  lemma IntStringInjective(a: int, b: int)
    requires IntString(a) == IntString(b)
    ensures a == b
  {
    if a < 0 {
      assert IntString(a)[1..] == NatString(-a);
      assert IntString(b)[1..] == NatString(-b);
      NatStringInjective(-a, -b);
    } else {
      NatStringInjective(a, b);
    }
  }

  /**
   * Two numbers each followed by the same separator-led tail: if the separator's
   * first character is neither a digit nor '-', the texts agree only when the numbers do.
   */
  lemma {:induction false} IntStringPrefixInjective(a: int, b: int, x: string, y: string)
    requires x != [] && y != [] && x[0] == y[0] && !IsDigit(x[0]) && x[0] != '-'
    requires IntString(a) + x == IntString(b) + y
    ensures a == b && x == y
  {
    var s, t := IntString(a), IntString(b);
    var k := if |s| < |t| then |s| else |t|;
    assert (s + x)[k] == (t + y)[k];
    assert |s| == |t|;
    assert s == (s + x)[..|s|] == (t + y)[..|t|] == t;
    IntStringInjective(a, b);
    assert x == (s + x)[|s|..] == (t + y)[|t|..] == y;
  }
}
