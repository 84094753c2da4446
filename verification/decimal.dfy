/** Decimal notation of integers, as produced by Python's `str(int)`, and the
    inverse reading of a run of digits. */
module Decimal {

  predicate IsDigit(c: char) { '0' <= c <= '9' }

  predicate AllDigits(s: string) {
    forall i :: 0 <= i < |s| ==> IsDigit(s[i])
  }

  function DigitChar(d: nat): (c: char)
    requires d < 10
    ensures IsDigit(c)
  {
    ('0' as int + d) as char
  }

  function DigitValue(c: char): (d: nat)
    requires IsDigit(c)
    ensures d < 10 && DigitChar(d) == c
  {
    c as int - '0' as int
  }

  /** `str(n)` for a non-negative integer: its digits, most significant first,
      without leading zeros. */
  function NatToString(n: nat): (s: string)
    ensures |s| > 0 && AllDigits(s)
    ensures |s| > 1 ==> s[0] != '0'
    decreases n
  {
    if n < 10 then [DigitChar(n)] else NatToString(n / 10) + [DigitChar(n % 10)]
  }

  /** The value of a run of decimal digits (the empty run reads as 0). */
  function ParseDigits(s: string): nat
    requires AllDigits(s)
  {
    if |s| == 0 then 0 else 10 * ParseDigits(s[..|s| - 1]) + DigitValue(s[|s| - 1])
  }

  /** Reading back what `str(n)` wrote gives `n`. */
  lemma {:induction false} ParseNatToString(n: nat)
    ensures ParseDigits(NatToString(n)) == n
    decreases n
  {
    var s := NatToString(n);
    if n >= 10 {
      ParseNatToString(n / 10);
      assert s[..|s| - 1] == NatToString(n / 10);
    }
  }

  lemma NatToStringInjective(a: nat, b: nat)
    requires NatToString(a) == NatToString(b)
    ensures a == b
  {
    ParseNatToString(a);
    ParseNatToString(b);
  }

  /** `str(i)` for any integer: a minus sign before the digits of a negative one. */
  function IntToString(i: int): (s: string)
    ensures |s| > 0
    ensures i >= 0 <==> IsDigit(s[0])
    ensures i < 0 ==> s[0] == '-' && AllDigits(s[1..])
    ensures i >= 0 ==> AllDigits(s)
  {
    if i < 0 then "-" + NatToString(-i) else NatToString(i)
  }

  /** The number of leading digits of `s`. */
  function LeadingDigits(s: string): (n: nat)
    ensures n <= |s| && AllDigits(s[..n])
    ensures n < |s| ==> !IsDigit(s[n])
  {
    if |s| > 0 && IsDigit(s[0]) then
      var r := LeadingDigits(s[1..]);
      assert s[..r + 1] == [s[0]] + s[1..][..r];
      1 + r
    else 0
  }

  lemma {:induction false} LeadingDigitsBeforeMarker(d: string, c: char, x: string)
    requires AllDigits(d) && !IsDigit(c)
    ensures LeadingDigits(d + [c] + x) == |d|
    decreases |d|
  {
    if |d| > 0 {
      assert (d + [c] + x)[1..] == d[1..] + [c] + x;
      LeadingDigitsBeforeMarker(d[1..], c, x);
    }
  }

  /** The number of trailing digits of `s`. */
  function TrailingDigits(s: string): (n: nat)
    ensures n <= |s| && AllDigits(s[|s| - n..])
    ensures n < |s| ==> !IsDigit(s[|s| - n - 1])
  {
    if |s| > 0 && IsDigit(s[|s| - 1]) then
      var init := s[..|s| - 1];
      var r := TrailingDigits(init);
      assert s[|s| - (r + 1)..] == init[|init| - r..] + [s[|s| - 1]];
      assert r < |init| ==> s[|s| - r - 2] == init[|init| - r - 1];
      1 + r
    else 0
  }

  lemma {:induction false} TrailingDigitsAfterMarker(x: string, c: char, d: string)
    requires AllDigits(d) && !IsDigit(c)
    ensures TrailingDigits(x + [c] + d) == |d|
    decreases |d|
  {
    var s := x + [c] + d;
    if |d| > 0 {
      assert s[..|s| - 1] == x + [c] + d[..|d| - 1];
      TrailingDigitsAfterMarker(x, c, d[..|d| - 1]);
    } else {
      assert s[|s| - 1] == c;
    }
  }

  /** Two digit runs, each followed by the same non-digit, cut the string at the
      same place. */
  lemma DigitsBeforeMarker(d1: string, x: string, d2: string, y: string, c: char)
    requires AllDigits(d1) && AllDigits(d2) && !IsDigit(c)
    requires d1 + [c] + x == d2 + [c] + y
    ensures d1 == d2 && x == y
  {
    var s := d1 + [c] + x;
    LeadingDigitsBeforeMarker(d1, c, x);
    LeadingDigitsBeforeMarker(d2, c, y);
    assert d1 == s[..|d1|] == d2;
    assert x == s[|d1| + 1..] == y;
  }

  /** `str(a) + sep + x == str(b) + sep + y` for a non-digit `sep`
      determines both the integer and the rest. */
  lemma {:induction false} IntToStringPrefixInjective(a: int, x: string, b: int, y: string, sep: char)
    requires !IsDigit(sep)
    requires IntToString(a) + [sep] + x == IntToString(b) + [sep] + y
    ensures a == b && x == y
  {
    var sa, sb := IntToString(a), IntToString(b);
    var s := sa + [sep] + x;
    assert s[0] == sa[0] && s[0] == sb[0];
    if a >= 0 && b >= 0 {
      DigitsBeforeMarker(sa, x, sb, y, sep);
      NatToStringInjective(a, b);
    } else if a < 0 && b < 0 {
      var da, db := NatToString(-a), NatToString(-b);
      assert sa + [sep] + x == "-" + (da + [sep] + x);
      assert sb + [sep] + y == "-" + (db + [sep] + y);
      assert da + [sep] + x == s[1..] == db + [sep] + y;
      DigitsBeforeMarker(da, x, db, y, sep);
      NatToStringInjective(-a, -b);
    }
  }
}
