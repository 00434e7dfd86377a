/**
 * Decimal digit strings: reading one as a number (JavaScript's unary `+`
 * applied to a string of ASCII digits) and rendering an integer back in
 * canonical decimal (`String(n)` for an integral number).
 * Numbers are unbounded here; JavaScript's double precision is not modelled.
 */
module Decimal {

  predicate IsDigit(c: char) { '0' <= c <= '9' }

  predicate AllDigits(s: string) { forall i | 0 <= i < |s| :: IsDigit(s[i]) }

  /** A canonical decimal numeral: one or more digits, no leading zero except "0" itself. */
  predicate IsCanonical(s: string) { |s| >= 1 && AllDigits(s) && (s[0] == '0' ==> |s| == 1) }

  function DigitValue(c: char): (v: nat)
    requires IsDigit(c)
    ensures v < 10
  {
    c as int - '0' as int
  }

  function DigitChar(v: nat): (c: char)
    requires v < 10
    ensures IsDigit(c) && DigitValue(c) == v
  {
    ('0' as int + v) as char
  }

  /** The value of a digit string, most significant digit first (`+"007"` is 7). */
  function DigitsValue(s: string): (v: nat)
    requires AllDigits(s)
    ensures |s| >= 1 && s[0] != '0' ==> v >= 1
  {
    if s == [] then 0 else 10 * DigitsValue(s[..|s| - 1]) + DigitValue(s[|s| - 1])
  }

  /** Canonical decimal rendering of a natural number. */
  function FormatNat(n: nat): (s: string)
    ensures IsCanonical(s)
  {
    if n < 10 then [DigitChar(n)] else FormatNat(n / 10) + [DigitChar(n % 10)]
  }

  /** Canonical decimal rendering of an integer, with a leading '-' when negative. */
  function FormatInt(n: int): (s: string)
    ensures |s| >= 1
    ensures n >= 0 <==> s[0] != '-'
    ensures n >= 0 ==> IsCanonical(s)
    ensures n < 0 ==> IsCanonical(s[1..])
  {
    if n < 0 then "-" + FormatNat(-n) else FormatNat(n)
  }

  /** Drops leading zeros from a non-empty digit string, keeping at least one digit. */
  function StripLeadingZeros(s: string): (r: string)
    requires |s| >= 1 && AllDigits(s)
    ensures IsCanonical(r)
  {
    if |s| > 1 && s[0] == '0' then StripLeadingZeros(s[1..]) else s
  }

  lemma {:induction false} DigitsValueAppend(p: string, d: char)
    requires AllDigits(p) && IsDigit(d)
    ensures AllDigits(p + [d]) && DigitsValue(p + [d]) == 10 * DigitsValue(p) + DigitValue(d)
  {
    assert (p + [d])[..|p|] == p;
  }

  /** Reading back a rendered number gives the number. */
  lemma {:induction false} DigitsValueOfFormatNat(n: nat)
    ensures DigitsValue(FormatNat(n)) == n
  {
    if n >= 10 {
      DigitsValueOfFormatNat(n / 10);
      DigitsValueAppend(FormatNat(n / 10), DigitChar(n % 10));
    }
  }

  /** A leading zero does not change the value of a digit string. */
  lemma {:induction false} DigitsValueLeadingZero(t: string)
    requires AllDigits(t)
    ensures AllDigits(['0'] + t) && DigitsValue(['0'] + t) == DigitsValue(t)
  {
    if t != [] {
      var p := t[..|t| - 1];
      DigitsValueLeadingZero(p);
      assert ['0'] + t == (['0'] + p) + [t[|t| - 1]];
      DigitsValueAppend(['0'] + p, t[|t| - 1]);
    }
  }

  lemma {:induction false} DigitsValueOfStripped(s: string)
    requires |s| >= 1 && AllDigits(s)
    ensures DigitsValue(StripLeadingZeros(s)) == DigitsValue(s)
  {
    if |s| > 1 && s[0] == '0' {
      DigitsValueOfStripped(s[1..]);
      assert s == ['0'] + s[1..];
      DigitsValueLeadingZero(s[1..]);
    }
  }

  /** Rendering the value of a canonical numeral gives the numeral back. */
  lemma {:induction false} FormatNatOfCanonical(s: string)
    requires IsCanonical(s)
    ensures FormatNat(DigitsValue(s)) == s
  {
    if |s| == 1 {
      assert s[..0] == [];
      assert DigitChar(DigitValue(s[0])) == s[0];
    } else {
      var p, d := s[..|s| - 1], s[|s| - 1];
      assert IsCanonical(p);
      FormatNatOfCanonical(p);
      var v := DigitsValue(s);
      assert v == 10 * DigitsValue(p) + DigitValue(d);
      assert v / 10 == DigitsValue(p) && v % 10 == DigitValue(d);
      assert DigitChar(DigitValue(d)) == d;
      assert s == p + [d];
    }
  }

  /** Reading a digit string and rendering it again drops its leading zeros. */
  lemma CanonicalRendering(s: string)
    requires |s| >= 1 && AllDigits(s)
    ensures FormatNat(DigitsValue(s)) == StripLeadingZeros(s)
  {
    DigitsValueOfStripped(s);
    FormatNatOfCanonical(StripLeadingZeros(s));
  }

  /** Distinct integers have distinct renderings. */
  lemma FormatIntInjective(m: int, n: int)
    requires FormatInt(m) == FormatInt(n)
    ensures m == n
  {
    if m >= 0 {
      DigitsValueOfFormatNat(m);
      DigitsValueOfFormatNat(n);
    } else {
      assert FormatInt(m)[1..] == FormatNat(-m);
      assert FormatInt(n)[1..] == FormatNat(-n);
      DigitsValueOfFormatNat(-m);
      DigitsValueOfFormatNat(-n);
    }
  }
}
