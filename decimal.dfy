/** Decimal text for integers, as Python's str() writes them. */
module Decimal {

  predicate IsDigit(c: char) {
    '0' <= c <= '9'
  }

  function DigitChar(d: nat): (c: char)
    requires d < 10
    ensures IsDigit(c)
  {
    ('0' as int + d) as char
  }

  function DigitValue(c: char): (d: nat)
    requires IsDigit(c)
    ensures d < 10 && DigitChar(d) == c
  {
    c as int - '0' as int
  }

  predicate AllDigits(s: string) {
    forall t :: 0 <= t < |s| ==> IsDigit(s[t])
  }

  /** The number a string of decimal digits denotes. */
  function DigitsValue(s: string): nat
    requires AllDigits(s)
  {
    if s == [] then 0 else DigitsValue(s[..|s| - 1]) * 10 + DigitValue(s[|s| - 1])
  }

  /** str(n) for n >= 0: the digits of n, most significant first, no leading zero. */
  function NatToString(n: nat): (s: string)
    ensures s != [] && AllDigits(s)
    decreases n
  {
    if n < 10 then [DigitChar(n)] else NatToString(n / 10) + [DigitChar(n % 10)]
  }

  /** The most decimal digits CPython's int() reads and str() writes (the
      default of sys.get_int_max_str_digits); beyond it both raise ValueError. */
  const MaxStrDigits: nat := 4300

  /** How many decimal digits |n| has. */
  function DigitCount(n: int): nat {
    |NatToString(if n < 0 then -n else n)|
  }

  /** str(n): the digits of |n|, after a minus sign exactly when n is negative. */
  function IntToString(n: int): (s: string)
    ensures s != [] && (s[0] == '-' <==> n < 0)
    ensures n < 0 ==> AllDigits(s[1..]) && DigitsValue(s[1..]) == -n
    ensures n >= 0 ==> AllDigits(s) && DigitsValue(s) == n
    ensures n >= 0 ==> (s[0] == '0' <==> n == 0)
  {
    NatToStringValue(if n < 0 then -n else n);
    if n < 0 then
      var s := "-" + NatToString(-n);
      assert s[1..] == NatToString(-n);
      s
    else NatToString(n)
  }

  /** The digits of n read back give n, and only 0 is written with a leading 0. */
  lemma {:induction false} NatToStringValue(n: nat)
    ensures DigitsValue(NatToString(n)) == n
    ensures NatToString(n)[0] == '0' <==> n == 0
    decreases n
  {
    if n >= 10 {
      var s := NatToString(n);
      NatToStringValue(n / 10);
      assert s[..|s| - 1] == NatToString(n / 10);
      assert s[0] == NatToString(n / 10)[0];
    }
  }

  /** The decimal text of each number. */
  function Strings(ns: seq<int>): (r: seq<string>)
    ensures |r| == |ns| && forall t :: 0 <= t < |ns| ==> r[t] == IntToString(ns[t])
  {
    seq(|ns|, t requires 0 <= t < |ns| => IntToString(ns[t]))
  }
}
