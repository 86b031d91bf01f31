/**
 * Decimal digit strings and the PHP conversions between integers and text
 * that the report code relies on: string interpolation of an int, the
 * (int) cast / intval of a string, is_numeric on integer text, and
 * sprintf('%04d') / date('m') zero padding.
 */
module Numerals {
  import opened Strings

  predicate IsDigit(c: char)
  {
    '0' <= c <= '9'
  }

  function DigitOf(c: char): (d: nat)
    requires IsDigit(c)
    ensures d < 10
  {
    c as int - '0' as int
  }

  function DigitChar(d: nat): (c: char)
    requires d < 10
    ensures IsDigit(c) && DigitOf(c) == d
  {
    ('0' as int + d) as char
  }

  predicate AllDigits(s: string)
  {
    forall i :: 0 <= i < |s| ==> IsDigit(s[i])
  }

  function Pow10(n: nat): (r: nat)
    ensures r >= 1
  {
    if n == 0 then 1 else 10 * Pow10(n - 1)
  }

  /** The number a string of decimal digits denotes (leading zeros allowed). */
  function DigitsValue(s: string): (v: nat)
    requires AllDigits(s)
    ensures v < Pow10(|s|)
  {
    if s == [] then 0 else 10 * DigitsValue(s[..|s| - 1]) + DigitOf(s[|s| - 1])
  }

  /** The canonical decimal text of a natural number: no leading zeros. */
  function Decimal(n: nat): (r: string)
    ensures |r| >= 1 && AllDigits(r)
    ensures DigitsValue(r) == n
    ensures |r| > 1 ==> r[0] != '0'
  {
    if n < 10 then
      [DigitChar(n)]
    else
      var prefix := Decimal(n / 10);
      var r := prefix + [DigitChar(n % 10)];
      assert r[..|r| - 1] == prefix;
      r
  }

  /** PHP's string conversion of an int ("$n", strval). */
  function IntToString(i: int): (r: string)
    ensures |r| >= 1
    ensures i >= 0 ==> AllDigits(r)
    ensures i < 0 ==> r[0] == '-'
  {
    if i < 0 then "-" + Decimal(-i) else Decimal(i)
  }

  /** A number below 10^k has at most k decimal digits. */
  lemma {:induction false} DecimalFits(n: nat, k: nat)
    ensures 1 <= k && n < Pow10(k) ==> |Decimal(n)| <= k
  {
    if 1 <= k && n < Pow10(k) && n >= 10 {
      DecimalFits(n / 10, k - 1);
    }
  }

  /** Prepending a zero does not change the value of a digit string. */
  lemma {:induction false} LeadingZero(s: string)
    requires AllDigits(s)
    ensures AllDigits("0" + s) && DigitsValue("0" + s) == DigitsValue(s)
  {
    var t := "0" + s;
    if s != [] {
      assert t[..|t| - 1] == "0" + s[..|s| - 1];
      LeadingZero(s[..|s| - 1]);
    } else {
      assert t[..0] == [];
    }
  }

  /** Left-pads a digit string with zeros up to the given width. */
  function ZeroPad(s: string, width: nat): (r: string)
    requires AllDigits(s)
    ensures |r| == if |s| >= width then |s| else width
    ensures AllDigits(r) && DigitsValue(r) == DigitsValue(s)
    // zeros are only added, and only up to the width
    ensures |s| >= width ==> r == s
    ensures |s| < width ==> r[width - |s|..] == s && forall k :: 0 <= k < width - |s| ==> r[k] == '0'
    decreases width - |s|
  {
    if |s| >= width then s else LeadingZero(s); ZeroPad("0" + s, width)
  }

  lemma Pow10Small()
    ensures Pow10(2) == 100 && Pow10(3) == 1000 && Pow10(4) == 10000
  {
    assert Pow10(3) == 1000;
  }

  /**
   * sprintf('%04d', n): at least four characters, zero-padded, the minus sign
   * of a negative number counting toward the width.
   */
  function Sprintf04d(n: int): (r: string)
    ensures n >= 0 ==> |r| >= 4 && AllDigits(r) && DigitsValue(r) == n
    ensures 0 <= n < 10000 ==> |r| == 4
    ensures n >= 10000 ==> |r| > 4
    ensures n < 0 ==> |r| >= 4 && r[0] == '-' && AllDigits(r[1..]) && DigitsValue(r[1..]) == -n
    // padding stops at the width: a longer result has no leading zero
    ensures n >= 0 && |r| > 4 ==> r[0] != '0'
    ensures n < 0 && |r| > 4 ==> r[1] != '0'
  {
    Pow10Small();
    if n >= 0 then
      DecimalFits(n, 4);
      ZeroPad(Decimal(n), 4)
    else
      var z := ZeroPad(Decimal(-n), 3);
      assert ("-" + z)[1..] == z;
      "-" + z
  }

  /** date('m') / date('d'): a two-digit, zero-padded field. */
  function Pad2(n: nat): (r: string)
    ensures n < 100 ==> |r| == 2 && AllDigits(r) && DigitsValue(r) == n
  {
    Pow10Small();
    DecimalFits(n, 2);
    ZeroPad(Decimal(n), 2)
  }

  /** Two digit strings of the same length and value are the same string. */
  lemma {:induction false} DigitsInjective(a: string, b: string)
    requires AllDigits(a) && AllDigits(b) && |a| == |b|
    requires DigitsValue(a) == DigitsValue(b)
    ensures a == b
  {
    if |a| > 0 {
      var n := |a| - 1;
      assert DigitsValue(a[..n]) == DigitsValue(a) / 10;
      DigitsInjective(a[..n], b[..n]);
      assert a == a[..n] + [a[n]];
      assert b == b[..n] + [b[n]];
    }
  }

  /** The leading digit carries weight 10^(|s|-1). */
  lemma {:induction false} LeadingDigitWeight(s: string)
    requires AllDigits(s) && |s| > 0
    ensures DigitsValue(s) == DigitOf(s[0]) * Pow10(|s| - 1) + DigitsValue(s[1..])
  {
    var n := |s| - 1;
    if n > 0 {
      var p := s[..n];
      var t := s[1..];
      LeadingDigitWeight(p);
      assert p[0] == s[0];
      assert t[..n - 1] == p[1..];
      assert t[n - 1] == s[n];
      var d0, w, v, last := DigitOf(s[0]), Pow10(n - 1), DigitsValue(p[1..]), DigitOf(s[n]);
      assert DigitsValue(s) == 10 * DigitsValue(p) + last;
      MulShift(d0, w);
    } else {
      assert s[..0] == [];
      assert s[1..] == [];
    }
  }

  lemma MulShift(d: nat, w: nat)
    ensures 10 * (d * w) == d * (10 * w)
  {
  }

  /** A smaller leading digit outweighs any tail. */
  lemma LeadingDigitDominates(da: nat, ra: nat, db: nat, rb: nat, p: nat)
    requires da < db && ra < p
    ensures da * p + ra < db * p + rb
  {
    var k: nat := db - da - 1;
    assert db * p == da * p + (1 + k) * p;
    assert (1 + k) * p == p + k * p;
    assert k * p >= 0;
  }

  /**
   * On digit strings of one length, byte-wise lexicographic order is numeric
   * order: this is why string comparison of zero-padded dates is date order.
   */
  lemma {:induction false} DigitOrder(a: string, b: string)
    requires AllDigits(a) && AllDigits(b) && |a| == |b|
    ensures LexLess(a, b) <==> DigitsValue(a) < DigitsValue(b)
  {
    if |a| > 0 {
      LeadingDigitWeight(a);
      LeadingDigitWeight(b);
      var p := Pow10(|a| - 1);
      var da, db := DigitOf(a[0]), DigitOf(b[0]);
      var ra, rb := DigitsValue(a[1..]), DigitsValue(b[1..]);
      if a[0] == b[0] {
        DigitOrder(a[1..], b[1..]);
        assert a == b <==> a[1..] == b[1..] by {
          assert a == [a[0]] + a[1..];
          assert b == [b[0]] + b[1..];
        }
      } else if a[0] < b[0] {
        LeadingDigitDominates(da, ra, db, rb, p);
      } else {
        LeadingDigitDominates(db, rb, da, ra, p);
      }
    }
  }

  /** Digit strings of one length: "less or equal" as strings is "<=" as numbers. */
  lemma DigitOrderLe(a: string, b: string)
    requires AllDigits(a) && AllDigits(b) && |a| == |b|
    ensures LexLe(a, b) <==> DigitsValue(a) <= DigitsValue(b)
  {
    DigitOrder(a, b);
    if a == b {
      LexLeRefl(a);
    } else if DigitsValue(a) == DigitsValue(b) {
      DigitsInjective(a, b);
    }
  }

  /** The whitespace PHP skips in front of a number: " \t\n\r\v\f". */
  predicate IsSpace(c: char)
  {
    c == ' ' || c == '\t' || c == '\n' || c == '\r' || c as int == 0x0B || c as int == 0x0C
  }

  function SkipSpace(s: string): (r: string)
    ensures |r| <= |s| && r == s[|s| - |r|..]
    ensures forall k :: 0 <= k < |s| - |r| ==> IsSpace(s[k])
    ensures r == [] || !IsSpace(r[0])
  {
    if |s| > 0 && IsSpace(s[0]) then SkipSpace(s[1..]) else s
  }

  /** The longest prefix of decimal digits. */
  function LeadingDigits(s: string): (r: string)
    ensures |r| <= |s| && r == s[..|r|] && AllDigits(r)
    ensures |r| < |s| ==> !IsDigit(s[|r|])
  {
    if |s| > 0 && IsDigit(s[0]) then [s[0]] + LeadingDigits(s[1..]) else []
  }

  /**
   * PHP's (int) cast and intval() of a string: leading whitespace, an optional
   * sign and the longest run of digits; anything else reads as 0.
   */
  function ToInt(s: string): int
  {
    var t := SkipSpace(s);
    if |t| > 0 && t[0] == '-' then -(DigitsValue(LeadingDigits(t[1..])) as int)
    else if |t| > 0 && t[0] == '+' then DigitsValue(LeadingDigits(t[1..]))
    else DigitsValue(LeadingDigits(t))
  }

  /** The (int) cast reads back the text of an int. */
  lemma ToIntOfIntToString(i: int)
    ensures ToInt(IntToString(i)) == i
  {
    var d := if i < 0 then Decimal(-i) else Decimal(i);
    assert d[..|d|] == d;
    LeadingDigitsUpTo(d, |d|);
    if i < 0 {
      var t := "-" + d;
      assert SkipSpace(t) == t;
      assert t[1..] == d;
    } else {
      assert IsDigit(d[0]);
      assert SkipSpace(d) == d;
    }
  }

  /** The (int) cast of a zero-padded digit string is its value. */
  lemma ToIntOfDigits(s: string)
    requires AllDigits(s)
    ensures ToInt(s) == DigitsValue(s)
  {
    assert LeadingDigits(s) == s;
    assert SkipSpace(s) == s;
  }

  /**
   * PHP 8 is_numeric() for integer text: optional leading whitespace, an
   * optional sign, at least one digit, then only trailing whitespace.
   */
  predicate IsIntegerNumeric(s: string)
  {
    var t := SkipSpace(s);
    var u := if |t| > 0 && (t[0] == '+' || t[0] == '-') then t[1..] else t;
    var ds := LeadingDigits(u);
    |ds| > 0 && forall k :: |ds| <= k < |u| ==> IsSpace(u[k])
  }

  /** When `t` starts with `n` digits and no digit follows, those are its leading digits. */
  lemma {:induction false} LeadingDigitsUpTo(t: string, n: nat)
    requires n <= |t| && AllDigits(t[..n])
    requires n < |t| ==> !IsDigit(t[n])
    ensures LeadingDigits(t) == t[..n]
  {
    if n > 0 {
      assert IsDigit(t[..n][0]);
      assert t[1..][..n - 1] == t[..n][1..];
      LeadingDigitsUpTo(t[1..], n - 1);
    }
  }

  /** Some digits followed only by whitespace are numeric text. */
  lemma DigitsThenSpacesNumeric(t: string, n: nat)
    requires 0 < n <= |t| && AllDigits(t[..n])
    requires forall k :: n <= k < |t| ==> IsSpace(t[k])
    ensures IsIntegerNumeric(t)
  {
    assert IsDigit(t[..n][0]);
    assert SkipSpace(t) == t;
    LeadingDigitsUpTo(t, n);
  }

  /** The text of every int is numeric. */
  lemma IntToStringIsNumeric(i: int)
    ensures IsIntegerNumeric(IntToString(i))
  {
    var d := if i < 0 then Decimal(-i) else Decimal(i);
    assert LeadingDigits(d) == d;
    var s := IntToString(i);
    assert !IsSpace(s[0]);
    assert SkipSpace(s) == s;
    var u := if |s| > 0 && (s[0] == '+' || s[0] == '-') then s[1..] else s;
    assert u == d;
  }
}
