/**
 Decimal rendering of integers, as JavaScript's `Number.prototype.toString()`
 produces it for the (safe) integers the scanners work with, and the inverse
 parse of a run of digits (what `\d+` captures).
 */
module Decimal {

  predicate IsDigit(c: char) {
    '0' <= c <= '9'
  }

  predicate AllDigits(s: string) {
    forall i :: 0 <= i < |s| ==> IsDigit(s[i])
  }

  function DigitChar(d: nat): (c: char)
    requires d < 10
    ensures IsDigit(c)
  {
    ['0', '1', '2', '3', '4', '5', '6', '7', '8', '9'][d]
  }

  function DigitValue(c: char): (d: nat)
    requires IsDigit(c)
    ensures d < 10
    ensures DigitChar(d) == c
  {
    (c as int - '0' as int) as nat
  }

  /** The canonical decimal form of a natural number: no sign, no leading zero. */
  function NatToString(n: nat): (s: string)
    ensures |s| > 0
    ensures AllDigits(s)
    ensures s[0] == '0' ==> n == 0
    decreases n
  {
    if n < 10 then [DigitChar(n)] else NatToString(n / 10) + [DigitChar(n % 10)]
  }

  /** `n.toString()` for an integer: a minus sign in front of negative values. */
  function IntToString(i: int): string {
    if i < 0 then "-" + NatToString(-i) else NatToString(i)
  }

  /** The value of a non-empty run of digits, most significant first. */
  function ParseDigits(s: string): nat
    requires AllDigits(s)
    decreases |s|
  {
    if |s| == 0 then 0 else ParseDigits(s[..|s| - 1]) * 10 + DigitValue(s[|s| - 1])
  }

  /** Parsing the rendered digits gives the number back. */
  lemma {:induction false} ParseNatToString(n: nat)
    ensures ParseDigits(NatToString(n)) == n
    decreases n
  {
    var s := NatToString(n);
    if n >= 10 {
      ParseNatToString(n / 10);
      assert s[..|s| - 1] == NatToString(n / 10);
    }
  }

  lemma NatToStringInjective(a: nat, b: nat)
    requires NatToString(a) == NatToString(b)
    ensures a == b
  {
    ParseNatToString(a);
    ParseNatToString(b);
  }

  /** The rendering starts with a minus sign exactly for negative values. */
  lemma IntToStringSign(i: int)
    ensures |IntToString(i)| > 0
    ensures IntToString(i)[0] == '-' <==> i < 0
  {
    if i >= 0 {
      assert IsDigit(NatToString(i)[0]);
    }
  }

  /** Two integers render the same exactly when they are equal. */
  lemma IntToStringInjective(a: int, b: int)
    ensures IntToString(a) == IntToString(b) <==> a == b
  {
    var sa, sb := IntToString(a), IntToString(b);
    IntToStringSign(a);
    IntToStringSign(b);
    if a < 0 && b < 0 {
      if sa == sb {
        assert sa[1..] == NatToString(-a);
        assert sb[1..] == NatToString(-b);
        NatToStringInjective(-a, -b);
      }
    } else if a >= 0 && b >= 0 {
      if sa == sb {
        NatToStringInjective(a, b);
      }
    } else {
      assert sa[0] != sb[0];
    }
  }

  /** A three-digit number renders as exactly three characters. */
  lemma ThreeDigits(n: nat)
    requires 100 <= n <= 999
    ensures |NatToString(n)| == 3
  {
    var a := n / 10;
    assert 10 <= a <= 99;
    var b := a / 10;
    assert 1 <= b <= 9;
    assert |NatToString(a)| == |NatToString(b)| + 1;
    assert |NatToString(n)| == |NatToString(a)| + 1;
  }
}
