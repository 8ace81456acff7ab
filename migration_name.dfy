/**
 * Migration file names: the pattern `^(\d{14})_(.+)\.ts$` that selects them,
 * the base name without `.ts`, and the Unix-milliseconds name built from them.
 */
module MigrationName {
  import opened Wrappers
  import opened Decimal
  import opened Stamp

  /** The two groups of a matching name: the 14 digits and the remainder. */
  datatype NameParts = NameParts(stamp: string, rest: string)

  const Extension: string := ".ts"

  /** The regex's `.` matches any character but a line feed. */
  predicate NoLineFeed(s: string) { forall i :: 0 <= i < |s| ==> s[i] != '\n' }

  /**
   * `pat.match(name)`: 14 ASCII digits, `_`, a non-empty remainder without a line
   * feed, and `.ts` at the very end; the remainder is everything in between.
   */
  function ParseName(name: string): (r: Option<NameParts>)
    ensures r.Some? ==> IsStamp(r.value.stamp) && HasExtension(name)
  {
    var n := |name|;
    if n >= StampLength + 5 && AllDigits(name[..StampLength]) && name[StampLength] == '_'
       && name[n - 3..] == Extension && NoLineFeed(name[StampLength + 1..n - 3])
    then Some(NameParts(name[..StampLength], name[StampLength + 1..n - 3]))
    else None
  }

  /** A name matches, with given groups, exactly when it is spelled from them. */
  lemma ParseNameSpelling(name: string, stamp: string, rest: string)
    ensures ParseName(name) == Some(NameParts(stamp, rest))
      <==> IsStamp(stamp) && rest != [] && NoLineFeed(rest) && name == stamp + "_" + rest + Extension
  {
    if IsStamp(stamp) && rest != [] && NoLineFeed(rest) && name == stamp + "_" + rest + Extension {
      var n := |name|;
      assert name[..14] == stamp;
      assert name[15..n - 3] == rest;
      assert name[n - 3..] == Extension;
    }
    if ParseName(name) == Some(NameParts(stamp, rest)) {
      assert name == name[..14] + [name[14]] + name[15..|name| - 3] + name[|name| - 3..];
    }
  }

  predicate HasExtension(name: string) { |name| >= 3 && name[|name| - 3..] == Extension }

  /** `p.stem`: the name without its `.ts` suffix. */
  function OldBase(name: string): (b: string)
    requires HasExtension(name)
    ensures b + Extension == name
  {
    name[..|name| - 3]
  }

  /** `f"{unix_ms}_{rest}"`. */
  function NewBase(unixMs: int, rest: string): string
  {
    IntToDecimal(unixMs) + "_" + rest
  }

  /** `f"{new_base}.ts"`. */
  function NewName(unixMs: int, rest: string): (n: string)
    ensures HasExtension(n) && OldBase(n) == NewBase(unixMs, rest)
  {
    var n := NewBase(unixMs, rest) + Extension;
    assert n[|n| - 3..] == Extension;
    n
  }

  /** The old base of a matching name is its stamp, `_`, and its remainder. */
  lemma OldBaseOfMatch(name: string)
    requires ParseName(name).Some?
    ensures OldBase(name) == ParseName(name).value.stamp + "_" + ParseName(name).value.rest
  {
    var p := ParseName(name).value;
    ParseNameSpelling(name, p.stamp, p.rest);
  }

  /**
   * A new name matches the pattern again exactly when `unix_ms` has 14 digits, and
   * then its groups are those digits and the unchanged remainder.
   */
  lemma NewNameMatches(unixMs: int, rest: string)
    requires rest != [] && NoLineFeed(rest)
    ensures ParseName(NewName(unixMs, rest)).Some? <==> Pow10(13) <= unixMs < Pow10(14)
    ensures ParseName(NewName(unixMs, rest)).Some? ==>
      ParseName(NewName(unixMs, rest)) == Some(NameParts(IntToDecimal(unixMs), rest))
  {
    var d := IntToDecimal(unixMs);
    var name := NewName(unixMs, rest);
    assert name == d + "_" + rest + Extension;
    if Pow10(13) <= unixMs < Pow10(14) {
      NatToDecimalLength(unixMs, 14);
      NatToDecimalLength(unixMs, 13);
      ParseNameSpelling(name, d, rest);
    } else if unixMs < 0 {
      assert name[0] == '-';
    } else if unixMs < Pow10(13) {
      NatToDecimalLength(unixMs, 13);
      if |name| >= 19 {
        assert name[|d|] == '_';
        assert !IsDigit(name[..14][|d|]);
      }
    } else {
      NatToDecimalLength(unixMs, 14);
      assert name[14] == d[14];
    }
  }

  /** Index of the first `c` in `s`, or `|s|` when there is none. */
  function FirstIndexOf(s: string, c: char): (i: nat)
    ensures i <= |s| && (i < |s| ==> s[i] == c)
    ensures forall j :: 0 <= j < i ==> s[j] != c
  {
    if s == [] then 0 else if s[0] == c then 0 else 1 + FirstIndexOf(s[1..], c)
  }

  /** Reads `unix_ms` back from a new base name and converts it to a UTC stamp. */
  function RecoverStamp(newBase: string): Option<string>
  {
    match ParseInt(newBase[..FirstIndexOf(newBase, '_')])
    case None => None
    case Some(unixMs) => StampOfUnixMs(unixMs)
  }

  /** The new base name carries the original 14 digits: they can be recovered from it. */
  lemma NewBaseRoundTrip(stamp: string, rest: string)
    requires ValidStamp(stamp)
    ensures RecoverStamp(NewBase(UnixMs(stamp), rest)) == Some(stamp)
  {
    var ms := UnixMs(stamp);
    var d := IntToDecimal(ms);
    var base := NewBase(ms, rest);
    IntToDecimalChars(ms);
    assert base[|d|] == '_';
    assert forall j :: 0 <= j < |d| ==> base[j] == d[j] && d[j] != '_';
    assert FirstIndexOf(base, '_') == |d|;
    assert base[..|d|] == d;
    ParseIntDecimal(ms);
    UnixMsRoundTrip(stamp);
  }

  /**
   * A rename is a no-op exactly when `unix_ms` is spelled like the stamp itself,
   * which needs 14 digits: no stamp before 2286-11-20 is ever dropped.
   */
  lemma NoOpRename(name: string)
    requires ParseName(name).Some? && ValidStamp(ParseName(name).value.stamp)
    ensures var p := ParseName(name).value;
      NewName(UnixMs(p.stamp), p.rest) == name <==> IntToDecimal(UnixMs(p.stamp)) == p.stamp
    ensures var p := ParseName(name).value;
      NewName(UnixMs(p.stamp), p.rest) == name ==> Pow10(13) <= UnixMs(p.stamp)
  {
    var p := ParseName(name).value;
    var ms := UnixMs(p.stamp);
    ParseNameSpelling(name, p.stamp, p.rest);
    if NewName(ms, p.rest) == name {
      NewNameMatches(ms, p.rest);
      assert IntToDecimal(ms) == p.stamp;
    }
  }
}
