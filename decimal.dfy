/**
 * ASCII decimal digits: the `\d` groups of the file-name pattern, the fixed-width
 * fields of a 14-digit timestamp and the decimal form Python gives an `int`.
 */
module Decimal {
  import opened Wrappers

  predicate IsDigit(c: char) { '0' <= c <= '9' }

  predicate AllDigits(s: string) { forall i :: 0 <= i < |s| ==> IsDigit(s[i]) }

  function Pow10(n: nat): (p: nat)
    ensures p >= 1
  {
    if n == 0 then 1 else 10 * Pow10(n - 1)
  }

  function DigitValue(c: char): (v: nat)
    requires IsDigit(c)
    ensures v < 10
  {
    c as int - '0' as int
  }

  function DigitChar(v: nat): (c: char)
    requires v < 10
    ensures IsDigit(c) && DigitValue(c) == v
  {
    ('0' as int + v) as char
  }

  /** The number a string of decimal digits denotes, most significant digit first. */
  function DigitsValue(s: string): (v: nat)
    requires AllDigits(s)
    ensures v < Pow10(|s|)
  {
    if s == [] then 0 else DigitsValue(s[..|s| - 1]) * 10 + DigitValue(s[|s| - 1])
  }

  /** `v` written with exactly `w` digits, zero-padded on the left. */
  function PadDigits(v: nat, w: nat): (s: string)
    requires v < Pow10(w)
    ensures |s| == w && AllDigits(s) && DigitsValue(s) == v
  {
    if w == 0 then [] else
      var s := PadDigits(v / 10, w - 1) + [DigitChar(v % 10)];
      assert s[..w - 1] == PadDigits(v / 10, w - 1);
      s
  }

  lemma DigitsValue2(t: string)
    requires AllDigits(t) && |t| == 2
    ensures DigitsValue(t) == DigitValue(t[0]) * 10 + DigitValue(t[1])
  {
    assert t[..1][..0] == [];
  }

  lemma DigitsValue4(t: string)
    requires AllDigits(t) && |t| == 4
    ensures DigitsValue(t) == DigitsValue(t[..2]) * 100 + DigitValue(t[2]) * 10 + DigitValue(t[3])
  {
    assert t[..3][..2] == t[..2];
  }

  /** Writing out the value of a digit string at its own width gives the string back. */
  lemma {:induction false} PadDigitsValue(s: string)
    requires AllDigits(s)
    ensures PadDigits(DigitsValue(s), |s|) == s
  {
    if s != [] {
      var n := |s|;
      var init := s[..n - 1];
      PadDigitsValue(init);
      assert DigitsValue(s) / 10 == DigitsValue(init);
      assert DigitsValue(s) % 10 == DigitValue(s[n - 1]);
      assert DigitChar(DigitValue(s[n - 1])) == s[n - 1];
      assert s == init + [s[n - 1]];
    }
  }

  /** Two digit strings of one width are equal exactly when their values are. */
  lemma DigitsValueInjective(a: string, b: string)
    requires AllDigits(a) && AllDigits(b) && |a| == |b|
    ensures DigitsValue(a) == DigitsValue(b) <==> a == b
  {
    if DigitsValue(a) == DigitsValue(b) {
      PadDigitsValue(a);
      PadDigitsValue(b);
    }
  }

  /** A digit string that does not start with '0' is at least 10^(length-1). */
  lemma {:induction false} LeadingDigitBound(s: string)
    requires AllDigits(s) && |s| >= 1 && s[0] != '0'
    ensures DigitsValue(s) >= Pow10(|s| - 1)
  {
    if |s| > 1 {
      var init := s[..|s| - 1];
      LeadingDigitBound(init);
    }
  }

  /** The shortest decimal form of a natural number, as Python's `str(n)` writes it. */
  function NatToDecimal(n: nat): (s: string)
    ensures 1 <= |s| && AllDigits(s) && DigitsValue(s) == n
    ensures s[0] == '0' ==> n == 0
  {
    if n < 10 then [DigitChar(n)] else
      var s := NatToDecimal(n / 10) + [DigitChar(n % 10)];
      assert s[..|s| - 1] == NatToDecimal(n / 10);
      s
  }

  /** The decimal form has at most `k` digits exactly when the number is below 10^k. */
  lemma NatToDecimalLength(n: nat, k: nat)
    requires k >= 1
    ensures |NatToDecimal(n)| <= k <==> n < Pow10(k)
  {
    var s := NatToDecimal(n);
    if |s| > k {
      LeadingDigitBound(s);
      Pow10Monotone(k, |s| - 1);
    } else {
      Pow10Monotone(|s|, k);
    }
  }

  /** The decimal form is the only digit string for `n` without a leading zero. */
  lemma NatToDecimalUnique(n: nat, s: string)
    requires AllDigits(s) && 1 <= |s| && (s[0] == '0' ==> |s| == 1) && DigitsValue(s) == n
    ensures NatToDecimal(n) == s
  {
    var d := NatToDecimal(n);
    if |s| > 1 {
      LeadingDigitBound(s);
      NatToDecimalLength(n, |s|);
      NatToDecimalLength(n, |s| - 1);
    } else {
      NatToDecimalLength(n, 1);
    }
    DigitsValueInjective(d, s);
  }

  lemma {:induction false} Pow10Monotone(i: nat, j: nat)
    requires i <= j
    ensures Pow10(i) <= Pow10(j)
  {
    if i < j {
      Pow10Monotone(i, j - 1);
    }
  }

  /** The decimal form of an `int`, with a leading '-' when it is negative (Python's `f"{n}"`). */
  function IntToDecimal(i: int): (s: string)
    ensures |s| >= 1
  {
    if i < 0 then "-" + NatToDecimal(-i) else NatToDecimal(i)
  }

  /** Reads back an optionally signed decimal integer. */
  function ParseInt(s: string): (r: Option<int>)
    ensures r.Some? ==> |s| >= 1
  {
    if |s| >= 2 && s[0] == '-' && AllDigits(s[1..]) then Some(-(DigitsValue(s[1..]) as int))
    else if |s| >= 1 && AllDigits(s) then Some(DigitsValue(s))
    else None
  }

  /** Reading back the decimal form of an integer gives the integer. */
  lemma ParseIntDecimal(i: int)
    ensures ParseInt(IntToDecimal(i)) == Some(i)
  {
    if i < 0 {
      var s := IntToDecimal(i);
      assert s[1..] == NatToDecimal(-i);
    }
  }

  /** The decimal form contains no character other than digits and a leading '-'. */
  lemma IntToDecimalChars(i: int)
    ensures forall k :: 0 <= k < |IntToDecimal(i)| ==>
      IsDigit(IntToDecimal(i)[k]) || (k == 0 && i < 0 && IntToDecimal(i)[k] == '-')
  {
  }
}
