/** Decimal rendering of integers, as Python's `str(n)` and f-string
    interpolation `{n}` produce it. */
module Decimal {

  predicate IsDigit(c: char) {
    '0' <= c <= '9'
  }

  predicate AllDigits(s: string) {
    forall i :: 0 <= i < |s| ==> IsDigit(s[i])
  }

  function DigitChar(d: nat): (c: char)
    requires d < 10
    ensures IsDigit(c) && c as int - '0' as int == d
  {
    ('0' as int + d) as char
  }

  /** The value a string of decimal digits denotes. */
  function Value(s: string): nat
    requires AllDigits(s)
  {
    if s == [] then 0 else Value(s[..|s| - 1]) * 10 + (s[|s| - 1] as int - '0' as int)
  }

  /** `str(n)` for a natural number: digits only, no leading zero. */
  function FromNat(n: nat): (s: string)
    ensures |s| >= 1 && AllDigits(s)
    ensures s[0] == '0' ==> n == 0
  {
    if n < 10 then [DigitChar(n)] else FromNat(n / 10) + [DigitChar(n % 10)]
  }

  /** `str(i)` for any integer: a minus sign before the digits of a
      negative number. */
  function FromInt(i: int): (s: string)
    ensures s != [] && (s[0] == '-' <==> i < 0)
    ensures var digits := if i < 0 then s[1..] else s;
      AllDigits(digits) && Value(digits) == if i < 0 then -i else i
  {
    var digits := FromNat(if i < 0 then -i else i);
    ValueFromNat(if i < 0 then -i else i);
    assert ("-" + digits)[1..] == digits;
    if i < 0 then "-" + digits else digits
  }

  /** Reading back the rendered digits gives the number: rendering loses
      nothing. */
  lemma {:induction false} ValueFromNat(n: nat)
    ensures Value(FromNat(n)) == n
  {
    var s := FromNat(n);
    if n >= 10 {
      ValueFromNat(n / 10);
      assert s[..|s| - 1] == FromNat(n / 10);
    }
  }

  /** A number rendered between a prefix and any text reads back from
      right after the prefix. */
  lemma QuotedAfter(prefix: string, n: nat, rest: string)
    ensures var e, k, d := prefix + FromNat(n) + rest, |prefix|, |FromNat(n)|;
      && prefix <= e && k + d <= |e|
      && AllDigits(e[k..k + d]) && Value(e[k..k + d]) == n
  {
    var e, digits := prefix + FromNat(n) + rest, FromNat(n);
    assert e[|prefix|..|prefix| + |digits|] == digits;
    ValueFromNat(n);
  }

  /** Distinct numbers are rendered differently. */
  lemma FromNatInjective(m: nat, n: nat)
    requires FromNat(m) == FromNat(n)
    ensures m == n
  {
    ValueFromNat(m);
    ValueFromNat(n);
  }
}
