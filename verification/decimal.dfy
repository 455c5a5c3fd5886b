/** Decimal rendering and reading of integers, as a JavaScript template
    literal renders an integral number (no leading zeros, a leading '-'
    for negative values). */
module Decimal {

  predicate IsDigit(c: char) {
    '0' <= c <= '9'
  }

  predicate AllDigits(s: string) {
    forall i :: 0 <= i < |s| ==> IsDigit(s[i])
  }

  function DigitValue(c: char): (d: nat)
    requires IsDigit(c)
    ensures d < 10
  {
    (c as int) - ('0' as int)
  }

  function DigitChar(d: nat): (c: char)
    requires d < 10
    ensures IsDigit(c) && DigitValue(c) == d
  {
    (('0' as int) + d) as char
  }

  /** The decimal numeral of `n`: non-empty, digits only, and without a
      leading zero unless `n` is zero itself. */
  function NatToString(n: nat): (s: string)
    ensures |s| > 0 && AllDigits(s)
    ensures s[0] == '0' ==> n == 0
    decreases n
  {
    if n < 10 then [DigitChar(n)] else NatToString(n / 10) + [DigitChar(n % 10)]
  }

  /** The numeral of an arbitrary integer: a minus sign exactly when it is negative. */
  function IntToString(i: int): (s: string)
    ensures |s| > 0
    ensures s[0] == '-' <==> i < 0
  {
    if i < 0 then "-" + NatToString(-i) else NatToString(i)
  }

  /** The value of a string of digits, read most significant digit first. */
  function DigitsValue(s: string): nat
    requires AllDigits(s)
    decreases |s|
  {
    if s == [] then 0 else DigitsValue(s[..|s| - 1]) * 10 + DigitValue(s[|s| - 1])
  }

  /** Length of the longest run of digits at the start of `s`. */
  function DigitRun(s: string): (k: nat)
    ensures k <= |s| && AllDigits(s[..k])
    ensures k < |s| ==> !IsDigit(s[k])
    decreases |s|
  {
    if s == [] || !IsDigit(s[0]) then 0
    else
      var k := 1 + DigitRun(s[1..]);
      assert s[..k] == [s[0]] + s[1..][..k - 1];
      k
  }

  /** Reading back a numeral gives the number it was rendered from. */
  lemma {:induction false} DigitsValueOfNumeral(n: nat)
    ensures DigitsValue(NatToString(n)) == n
    decreases n
  {
    if n >= 10 {
      var s := NatToString(n);
      assert s[..|s| - 1] == NatToString(n / 10);
      DigitsValueOfNumeral(n / 10);
    }
  }

  /** A numeral followed by anything that does not start with a digit is
      read as exactly that numeral. */
  lemma DigitRunOfNumeral(n: nat, t: string)
    requires t == [] || !IsDigit(t[0])
    ensures DigitRun(NatToString(n) + t) == |NatToString(n)|
    ensures (NatToString(n) + t)[..|NatToString(n)|] == NatToString(n)
    ensures (NatToString(n) + t)[|NatToString(n)|..] == t
  {
    var d := NatToString(n);
    var k := DigitRun(d + t);
    assert forall i | 0 <= i < |d| :: (d + t)[i] == d[i];
    assert forall i | 0 <= i < k :: (d + t)[..k][i] == (d + t)[i];
    assert |t| > 0 ==> (d + t)[|d|] == t[0];
  }
}
