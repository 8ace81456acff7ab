/**
 * The 14-digit `YYYYMMDDHHMMSS` prefix of a migration name, read as a UTC
 * instant with `strptime(…, "%Y%m%d%H%M%S")` and turned into Unix milliseconds.
 */
module Stamp {
  import opened Wrappers
  import opened Decimal
  import opened Calendar

  const StampLength: nat := 14

  predicate IsStamp(s: string) { |s| == StampLength && AllDigits(s) }

  /** The six fixed-width fields of a stamp. */
  function Fields(s: string): (t: DateTime)
    requires IsStamp(s)
    ensures 0 <= t.year < 10000 && 0 <= t.month < 100 && 0 <= t.day < 100
    ensures 0 <= t.hour < 100 && 0 <= t.minute < 100 && 0 <= t.second < 100
  {
    DateTime(DigitsValue(s[..4]), DigitsValue(s[4..6]), DigitsValue(s[6..8]),
             DigitsValue(s[8..10]), DigitsValue(s[10..12]), DigitsValue(s[12..]))
  }

  /** A stamp `strptime` accepts and `datetime` can hold; any other raises `ValueError`. */
  predicate ValidStamp(s: string) { IsStamp(s) && Valid(Fields(s)) }

  /** `int(dt.timestamp() * 1000)` for the stamp read as UTC. */
  function UnixMs(s: string): (ms: int)
    requires ValidStamp(s)
    ensures ms % 1000 == 0
  {
    EpochSeconds(Fields(s)) * 1000
  }

  /** Writes calendar fields back as a 14-digit stamp. */
  function Format(t: DateTime): (s: string)
    requires 0 <= t.year < 10000 && 0 <= t.month < 100 && 0 <= t.day < 100
    requires 0 <= t.hour < 100 && 0 <= t.minute < 100 && 0 <= t.second < 100
    ensures IsStamp(s)
  {
    PadDigits(t.year, 4) + PadDigits(t.month, 2) + PadDigits(t.day, 2)
      + PadDigits(t.hour, 2) + PadDigits(t.minute, 2) + PadDigits(t.second, 2)
  }

  /** The UTC stamp of a Unix-milliseconds value, when its year has four digits. */
  function StampOfUnixMs(ms: int): (r: Option<string>)
    ensures r.Some? ==> ValidStamp(r.value)
  {
    if ms / 1000 < MinEpochSeconds then None else
      var t := FromEpochSeconds(ms / 1000);
      if t.year < 10000 then
        var s := Format(t);
        FieldsOfFormat(t);
        Some(s)
      else None
  }

  lemma FieldsOfFormat(t: DateTime)
    requires 0 <= t.year < 10000 && 0 <= t.month < 100 && 0 <= t.day < 100
    requires 0 <= t.hour < 100 && 0 <= t.minute < 100 && 0 <= t.second < 100
    ensures Fields(Format(t)) == t
  {
    var s := Format(t);
    assert s[..4] == PadDigits(t.year, 4);
    assert s[4..6] == PadDigits(t.month, 2);
    assert s[6..8] == PadDigits(t.day, 2);
    assert s[8..10] == PadDigits(t.hour, 2);
    assert s[10..12] == PadDigits(t.minute, 2);
    assert s[12..] == PadDigits(t.second, 2);
  }

  lemma FormatOfFields(s: string)
    requires IsStamp(s)
    ensures Format(Fields(s)) == s
  {
    var t := Fields(s);
    PadDigitsValue(s[..4]);
    PadDigitsValue(s[4..6]);
    PadDigitsValue(s[6..8]);
    PadDigitsValue(s[8..10]);
    PadDigitsValue(s[10..12]);
    PadDigitsValue(s[12..]);
    calc {
      Format(t);
      PadDigits(t.year, 4) + PadDigits(t.month, 2) + PadDigits(t.day, 2)
        + PadDigits(t.hour, 2) + PadDigits(t.minute, 2) + PadDigits(t.second, 2);
      s[..4] + s[4..6] + s[6..8] + s[8..10] + s[10..12] + s[12..];
      s;
    }
  }

  /** Converting `unix_ms` back to UTC calendar fields reproduces the original 14 digits. */
  lemma UnixMsRoundTrip(s: string)
    requires ValidStamp(s)
    ensures StampOfUnixMs(UnixMs(s)) == Some(s)
  {
    var t := Fields(s);
    EpochSecondsRoundTrip(t);
    assert UnixMs(s) / 1000 == EpochSeconds(t);
    FormatOfFields(s);
  }

  function DigitAt(s: string, i: nat): nat
    requires IsStamp(s) && i < StampLength
  {
    DigitValue(s[i])
  }

  /** The fields of a stamp, digit by digit (a helper for concrete stamps). */
  lemma FieldsByDigit(s: string)
    requires IsStamp(s)
    ensures Fields(s) == DateTime(
      DigitAt(s, 0) * 1000 + DigitAt(s, 1) * 100 + DigitAt(s, 2) * 10 + DigitAt(s, 3),
      DigitAt(s, 4) * 10 + DigitAt(s, 5), DigitAt(s, 6) * 10 + DigitAt(s, 7),
      DigitAt(s, 8) * 10 + DigitAt(s, 9), DigitAt(s, 10) * 10 + DigitAt(s, 11),
      DigitAt(s, 12) * 10 + DigitAt(s, 13))
  {
    DigitsValue4(s[..4]);
    DigitsValue2(s[..4][..2]);
    DigitsValue2(s[4..6]);
    DigitsValue2(s[6..8]);
    DigitsValue2(s[8..10]);
    DigitsValue2(s[10..12]);
    DigitsValue2(s[12..]);
  }

  /** Evaluates `UnixMs` from the stamp's fields and their epoch seconds (a helper for concrete stamps). */
  lemma UnixMsFrom(s: string, t: DateTime, secs: int)
    requires IsStamp(s) && Fields(s) == t && Valid(t) && EpochSeconds(t) == secs
    ensures ValidStamp(s) && UnixMs(s) == secs * 1000
  {
  }

  /** `19700101000000` is 0 ms. */
  lemma UnixMsOfEpochStart()
    ensures ValidStamp("19700101000000") && UnixMs("19700101000000") == 0
  {
    var s := "19700101000000";
    FieldsByDigit(s);
    assert Fields(s) == DateTime(1970, 1, 1, 0, 0, 0);
    assert Valid(Fields(s));
    EpochStartIsZero();
    assert EpochSeconds(Fields(s)) == 0;
    UnixMsFrom(s, Fields(s), 0);
  }

  /** `20230615143000` is 1686839400000 ms. */
  lemma UnixMsExample()
    ensures ValidStamp("20230615143000") && UnixMs("20230615143000") == 1686839400000
  {
    FieldsByDigit("20230615143000");
    EpochSecondsExample();
  }

  /** `strptime` and `datetime` reject month 13, a 31st of April, second 60 and year 0. */
  lemma InvalidStampExamples()
    ensures !ValidStamp("20231301000000") && !ValidStamp("20230431000000")
    ensures !ValidStamp("20230101000060") && !ValidStamp("00000101000000")
  {
    FieldsByDigit("20231301000000");
    FieldsByDigit("20230431000000");
    FieldsByDigit("20230101000060");
    FieldsByDigit("00000101000000");
  }

  /** 29 February is a valid day in 2024 and 2000 but not in 2023 or 1900. */
  lemma LeapDayExamples()
    ensures ValidStamp("20240229120000") && ValidStamp("20000229120000")
    ensures !ValidStamp("20230229120000") && !ValidStamp("19000229120000")
  {
    FieldsByDigit("20240229120000");
    assert Valid(DateTime(2024, 2, 29, 12, 0, 0));
    FieldsByDigit("20000229120000");
    assert Valid(DateTime(2000, 2, 29, 12, 0, 0));
    FieldsByDigit("20230229120000");
    FieldsByDigit("19000229120000");
  }

  /** 2286-11-20T17:46:40Z, the first instant whose `unix_ms` has 14 digits. */
  const CutoffStamp: string := "22861120174640"

  lemma UnixMsOfCutoff()
    ensures ValidStamp(CutoffStamp) && UnixMs(CutoffStamp) == Pow10(13)
  {
    FieldsByDigit(CutoffStamp);
    EpochSecondsFrom(DateTime(2286, 11, 20, 17, 46, 40), 115740, 64000);
  }

  /** 2300-01-01T00:00:00Z is 10413792000000 ms. */
  lemma FarFutureExample()
    ensures ValidStamp("23000101000000") && UnixMs("23000101000000") == 10413792000000
  {
    var s := "23000101000000";
    FieldsByDigit(s);
    assert Fields(s) == DateTime(2300, 1, 1, 0, 0, 0);
    assert Valid(Fields(s));
    FarFutureEpochSeconds();
    UnixMsFrom(s, Fields(s), 10413792000);
  }

  /** The 14 digits of 10413792000000 read as month 37: not a stamp `strptime` accepts. */
  lemma FarFutureMsIsNoStamp()
    ensures IsStamp("10413792000000") && !ValidStamp("10413792000000")
  {
    FieldsByDigit("10413792000000");
  }

  /** A valid stamp sorts before the cutoff exactly when its `unix_ms` has at most 13 digits. */
  lemma BeforeCutoff(s: string)
    requires ValidStamp(s)
    ensures LexLess(s, CutoffStamp) <==> UnixMs(s) < Pow10(13)
  {
    UnixMsOfCutoff();
    UnixMsMonotone(s, CutoffStamp);
  }

  // ---------------------------------------------------------------------------
  // Order

  /** Python's `<` on strings: code point by code point, a proper prefix first. */
  predicate LexLess(a: string, b: string)
  {
    if a == [] then b != []
    else if b == [] then false
    else a[0] < b[0] || (a[0] == b[0] && LexLess(a[1..], b[1..]))
  }

  /** Behind a common prefix of equal length, the first difference decides the order. */
  lemma {:induction false} LexLessConcat(a1: string, a2: string, b1: string, b2: string)
    requires |a1| == |b1|
    ensures LexLess(a1 + a2, b1 + b2) <==> LexLess(a1, b1) || (a1 == b1 && LexLess(a2, b2))
  {
    if a1 != [] {
      assert (a1 + a2)[0] == a1[0] && (b1 + b2)[0] == b1[0];
      assert (a1 + a2)[1..] == a1[1..] + a2;
      assert (b1 + b2)[1..] == b1[1..] + b2;
      LexLessConcat(a1[1..], a2, b1[1..], b2);
    } else {
      assert a1 + a2 == a2 && b1 + b2 == b2;
    }
  }

  /** For digit strings of one width, string order is numeric order. */
  lemma {:induction false} LexLessDigits(a: string, b: string)
    requires AllDigits(a) && AllDigits(b) && |a| == |b|
    ensures LexLess(a, b) <==> DigitsValue(a) < DigitsValue(b)
  {
    if a != [] {
      var n := |a|;
      var ia, ib := a[..n - 1], b[..n - 1];
      assert a == ia + [a[n - 1]] && b == ib + [b[n - 1]];
      LexLessConcat(ia, [a[n - 1]], ib, [b[n - 1]]);
      LexLessDigits(ia, ib);
      DigitsValueInjective(ia, ib);
    }
  }

  /** Lexicographic order of two stamps is the order of their calendar fields. */
  lemma LexLessFields(a: string, b: string)
    requires IsStamp(a) && IsStamp(b)
    ensures LexLess(a, b) <==> Before(Fields(a), Fields(b))
  {
    assert a == a[..4] + (a[4..6] + (a[6..8] + (a[8..10] + (a[10..12] + a[12..]))));
    assert b == b[..4] + (b[4..6] + (b[6..8] + (b[8..10] + (b[10..12] + b[12..]))));
    LexLessConcat(a[..4], a[4..6] + (a[6..8] + (a[8..10] + (a[10..12] + a[12..]))),
                  b[..4], b[4..6] + (b[6..8] + (b[8..10] + (b[10..12] + b[12..]))));
    LexLessConcat(a[4..6], a[6..8] + (a[8..10] + (a[10..12] + a[12..])),
                  b[4..6], b[6..8] + (b[8..10] + (b[10..12] + b[12..])));
    LexLessConcat(a[6..8], a[8..10] + (a[10..12] + a[12..]),
                  b[6..8], b[8..10] + (b[10..12] + b[12..]));
    LexLessConcat(a[8..10], a[10..12] + a[12..], b[8..10], b[10..12] + b[12..]);
    LexLessConcat(a[10..12], a[12..], b[10..12], b[12..]);
    LexLessDigits(a[..4], b[..4]);        DigitsValueInjective(a[..4], b[..4]);
    LexLessDigits(a[4..6], b[4..6]);      DigitsValueInjective(a[4..6], b[4..6]);
    LexLessDigits(a[6..8], b[6..8]);      DigitsValueInjective(a[6..8], b[6..8]);
    LexLessDigits(a[8..10], b[8..10]);    DigitsValueInjective(a[8..10], b[8..10]);
    LexLessDigits(a[10..12], b[10..12]);  DigitsValueInjective(a[10..12], b[10..12]);
    LexLessDigits(a[12..], b[12..]);
  }

  /** For valid stamps, string order equals the numeric order of `unix_ms`. */
  lemma UnixMsMonotone(a: string, b: string)
    requires ValidStamp(a) && ValidStamp(b)
    ensures LexLess(a, b) <==> UnixMs(a) < UnixMs(b)
    ensures a == b <==> UnixMs(a) == UnixMs(b)
  {
    LexLessFields(a, b);
    EpochSecondsOrder(Fields(a), Fields(b));
    if UnixMs(a) == UnixMs(b) {
      FormatOfFields(a);
      FormatOfFields(b);
    }
  }
}
