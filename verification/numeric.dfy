/**
 * Reading a numeric token out of a cell's text, as the age rule's coercion
 * does, restricted to optionally signed decimal integers.
 */
module Numeric {
  import opened Cells

  predicate IsDigit(ch: char) {
    '0' <= ch <= '9'
  }

  predicate IsSign(ch: char) {
    ch == '-' || ch == '+'
  }

  predicate AllDigits(s: string) {
    forall k :: 0 <= k < |s| ==> IsDigit(s[k])
  }

  /** The value of a string of decimal digits, most significant first. */
  function DigitsValue(s: string): nat
    requires AllDigits(s)
  {
    if s == [] then 0
    else 10 * DigitsValue(s[..|s| - 1]) + (s[|s| - 1] as int - '0' as int)
  }

  /**
   * The integer a token denotes: an optional sign followed by at least one
   * digit. Every other token is not numeric and yields None.
   */
  function ParseInteger(s: string): Option<int> {
    if |s| >= 2 && IsSign(s[0]) && AllDigits(s[1..]) then
      var v: int := DigitsValue(s[1..]);
      Some(if s[0] == '-' then -v else v)
    else if |s| >= 1 && AllDigits(s) then
      var v: int := DigitsValue(s);
      Some(v)
    else
      None
  }

  function DigitChar(d: nat): (ch: char)
    requires d < 10
    ensures IsDigit(ch) && ch as int - '0' as int == d
  {
    (d + '0' as int) as char
  }

  /** The decimal digits of a natural number, without leading zeros. */
  function NatDigits(k: nat): (s: string)
    ensures |s| >= 1 && AllDigits(s)
  {
    if k < 10 then [DigitChar(k)] else NatDigits(k / 10) + [DigitChar(k % 10)]
  }

  /** The canonical decimal text of an integer. */
  function Decimal(i: int): string {
    if i < 0 then "-" + NatDigits(-i) else NatDigits(i)
  }

  lemma {:induction false} NatDigitsValue(k: nat)
    ensures DigitsValue(NatDigits(k)) == k
  {
    if k >= 10 {
      var s := NatDigits(k / 10);
      var t := s + [DigitChar(k % 10)];
      assert t[..|t| - 1] == s;
      NatDigitsValue(k / 10);
    }
  }

  /** Reading back the decimal text of any integer gives that integer. */
  lemma ParseDecimal(i: int)
    ensures ParseInteger(Decimal(i)) == Some(i)
  {
    var d := NatDigits(if i < 0 then -i else i);
    NatDigitsValue(if i < 0 then -i else i);
    if i < 0 {
      assert Decimal(i)[1..] == d;
    } else {
      assert !IsSign(Decimal(i)[0]);
    }
  }

  /** A token holding a character that is neither a digit nor a sign is not numeric. */
  lemma NonNumericToken(s: string, k: nat)
    requires k < |s| && !IsDigit(s[k]) && !IsSign(s[k])
    ensures ParseInteger(s) == None
  {
    if |s| >= 2 && IsSign(s[0]) {
      assert k >= 1 && s[1..][k - 1] == s[k];
    }
  }
}
