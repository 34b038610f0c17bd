/** `Build.checkNodeVersion`: the major version is what
    `parseInt(version.split('.')[0], 10)` reads, and the run stops when that
    number is below 22. */
module NodeVersion {
  import opened JsText

  const MinimumMajor := 22

  /** The longest run of decimal digits at the start of `s`. */
  function DigitPrefix(s: string): (r: string)
    ensures |r| <= |s| && r == s[..|r|] && AllDigits(r)
    ensures |r| < |s| ==> !IsDigit(s[|r|])
  {
    if s == [] || !IsDigit(s[0]) then ""
    else
      var r := [s[0]] + DigitPrefix(s[1..]);
      assert s[..|r|] == [s[0]] + s[1..][..|r| - 1];
      r
  }

  /** `parseInt(s, 10)`: leading whitespace is skipped, then an optional sign,
      then the longest run of digits is read; with no digit the result is
      NaN, written `None`. Integers are read exactly (a value beyond the
      precision of a double is not rounded). */
  function ParseIntRadix10(s: string): Option<int> {
    var t := TrimStart(s);
    var negative := |t| > 0 && t[0] == '-';
    var u := if |t| > 0 && (t[0] == '-' || t[0] == '+') then t[1..] else t;
    var digits := DigitPrefix(u);
    if digits == [] then None
    else if negative then Some(0 - DigitsValue(digits))
    else Some(DigitsValue(digits))
  }

  /** A run of digits reads as the number it spells, and after a minus sign
      as that number negated. */
  lemma {:induction false} ParseOfDecimal(d: string)
    requires d != [] && AllDigits(d)
    ensures ParseIntRadix10(d) == Some(DigitsValue(d))
    ensures ParseIntRadix10("-" + d) == Some(0 - DigitsValue(d))
  {
    DigitsAreTheirPrefix(d);
    var m := "-" + d;
    NoLeadingWhitespace(d);
    NoLeadingWhitespace(m);
    assert m[1..] == d;
  }

  lemma DigitsAreTheirPrefix(d: string)
    requires AllDigits(d)
    ensures DigitPrefix(d) == d
  {
  }

  lemma NoLeadingWhitespace(s: string)
    requires s != [] && !IsJsWhitespace(s[0])
    ensures TrimStart(s) == s
  {
  }

  /** The major version as `checkNodeVersion` reads it; `version.split('.')[0]` is
      the text before the first `.`. */
  function MajorVersion(version: string): Option<int> {
    ParseIntRadix10(PrefixBefore(version, '.'))
  }

  /** The run stops with exit status 1. `NaN < 22` is false in JavaScript,
      so a version whose first segment holds no digit passes. */
  predicate NodeVersionTooOld(version: string) {
    match MajorVersion(version)
    case None => false
    case Some(major) => major < MinimumMajor
  }

  /** A run of digits followed by something that is not a digit reads as the
      number those digits spell. */
  lemma {:induction false} DigitPrefixOfNumber(d: string, rest: string)
    requires AllDigits(d)
    requires rest == [] || !IsDigit(rest[0])
    ensures DigitPrefix(d + rest) == d
  {
    if d != [] {
      assert (d + rest)[1..] == d[1..] + rest;
      DigitPrefixOfNumber(d[1..], rest);
    }
  }

  /** For a version written `<digits>.<anything>`, as Node.js reports it, the
      check refuses it exactly when the number before the first dot is below
      22. */
  lemma {:induction false} DottedVersionGate(major: string, rest: string)
    requires major != [] && AllDigits(major)
    ensures MajorVersion(major + "." + rest) == Some(DigitsValue(major))
    ensures NodeVersionTooOld(major + "." + rest) <==> DigitsValue(major) < 22
  {
    FirstSegmentOfDotted(major, rest);
    ParseOfDecimal(major);
  }

  /** The text before the first dot of `<digits>.<anything>` is the digits. */
  lemma {:induction false} FirstSegmentOfDotted(major: string, rest: string)
    requires AllDigits(major)
    ensures PrefixBefore(major + "." + rest, '.') == major
  {
    var v := major + "." + rest;
    assert v[|major|] == '.';
    assert forall i :: 0 <= i < |major| ==> v[i] == major[i] && v[i] != '.';
  }

  /** Node.js 20.11.1 is refused. */
  lemma Node20IsRefused()
    ensures NodeVersionTooOld("20" + "." + "11.1")
  {
    DottedVersionGate("20", "11.1");
    assert DigitsValue("20") == 20 by {
      assert "20"[..1] == "2";
    }
  }

  /** Node.js 100.0.0 passes: the major versions are compared as numbers,
      not as text. */
  lemma Node100Passes()
    ensures !NodeVersionTooOld("100" + "." + "0.0")
  {
    DottedVersionGate("100", "0.0");
    ValueOfHundred();
  }

  lemma ValueOfHundred()
    ensures DigitsValue("100") == 100
  {
    assert DigitsValue("1") == 1 by {
      assert "1"[..0] == "";
    }
    assert DigitsValue("10") == 10 by {
      assert "10"[..1] == "1";
    }
    assert "100"[..2] == "10";
  }

  /** A first segment that, after leading whitespace and one sign, does not
      start with a digit parses to NaN, and the gate lets such a version
      through. */
  lemma NonNumericVersionPasses(version: string)
    requires var t := TrimStart(PrefixBefore(version, '.'));
      var u := if |t| > 0 && (t[0] == '-' || t[0] == '+') then t[1..] else t;
      u == [] || !IsDigit(u[0])
    ensures MajorVersion(version) == None && !NodeVersionTooOld(version)
  {
  }

  /** A version written with a leading letter, such as `v22.1.0`, is let
      through whatever number follows the letter. */
  lemma {:induction false} LetterPrefixedVersionPasses(c: char, rest: string)
    requires !IsDigit(c) && !IsJsWhitespace(c) && c != '-' && c != '+' && c != '.'
    ensures MajorVersion([c] + rest) == None && !NodeVersionTooOld([c] + rest)
  {
    var v := [c] + rest;
    var seg := PrefixBefore(v, '.');
    assert seg == [c] + PrefixBefore(rest, '.') by {
      assert v[1..] == rest;
    }
    NoLeadingWhitespace(seg);
    NonNumericVersionPasses(v);
  }

}
