/**
 * A concrete comparator over plain `major.minor.patch` versions, following
 * section 2 (three dot-separated non-negative integers without leading
 * zeroes) and section 11 (precedence compares major, then minor, then patch)
 * of Semantic Versioning 2.0.0.  A bare version used as a range is an exact
 * match, as it is for the library the middleware calls.
 */
module Triples {
  import opened Wrappers
  import opened Semver

  datatype Version = Version(major: nat, minor: nat, patch: nat)

  /** Precedence of section 11: the first differing field decides. */
  predicate Less(a: Version, b: Version) {
    || a.major < b.major
    || (a.major == b.major && a.minor < b.minor)
    || (a.major == b.major && a.minor == b.minor && a.patch < b.patch)
  }

  predicate IsDigit(ch: char) {
    '0' <= ch <= '9'
  }

  predicate AllDigits(s: string) {
    forall i :: 0 <= i < |s| ==> IsDigit(s[i])
  }

  /** A numeric identifier: one or more digits, no leading zero unless it is "0". */
  predicate IsNumeric(s: string) {
    |s| > 0 && AllDigits(s) && (|s| > 1 ==> s[0] != '0')
  }

  function DigitChar(d: nat): (ch: char)
    requires d < 10
    ensures IsDigit(ch) && (ch == '0' <==> d == 0)
  {
    ('0' as int + d) as char
  }

  /** The number a string of decimal digits denotes. */
  function Value(s: string): nat
    requires AllDigits(s)
  {
    if s == [] then 0 else 10 * Value(s[..|s| - 1]) + (s[|s| - 1] as int - '0' as int)
  }

  /** The decimal numeral of `n`: the numeric identifier whose value is `n`. */
  function Numeral(n: nat): (s: string)
    ensures IsNumeric(s) && Value(s) == n
    ensures s[0] == '0' <==> n == 0
  {
    if n < 10 then [DigitChar(n)]
    else
      var p := Numeral(n / 10);
      var s := p + [DigitChar(n % 10)];
      assert s[..|s| - 1] == p;
      s
  }

  /** A numeric identifier is the numeral of its value: it is written in exactly one way. */
  lemma {:induction false} NumeralOfValue(s: string)
    requires IsNumeric(s)
    ensures Numeral(Value(s)) == s
  {
    var last := s[|s| - 1];
    var d := last as int - '0' as int;
    if |s| == 1 {
      assert Value(s) == d;
      assert DigitChar(d) == last;
    } else {
      var p := s[..|s| - 1];
      assert IsNumeric(p);
      NumeralOfValue(p);
      NonZeroLead(p);
      var n := Value(s);
      assert n == 10 * Value(p) + d && 0 <= d < 10;
      assert n / 10 == Value(p) && n % 10 == d;
      assert DigitChar(d) == last;
      assert Numeral(n) == Numeral(Value(p)) + [DigitChar(d)];
      assert s == p + [last];
    }
  }

  /** A numeric identifier that does not start with '0' is positive. */
  lemma {:induction false} NonZeroLead(s: string)
    requires AllDigits(s) && |s| > 0 && s[0] != '0'
    ensures Value(s) > 0
  {
    if |s| > 1 {
      NonZeroLead(s[..|s| - 1]);
    }
  }

  /** The dot-separated fields of `s`, in order. */
  function Split(s: string): (parts: seq<string>)
    ensures |parts| > 0
    ensures forall i :: 0 <= i < |parts| ==> '.' !in parts[i]
  {
    if s == [] then [""]
    else
      var rest := Split(s[1..]);
      if s[0] == '.' then [""] + rest
      else [[s[0]] + rest[0]] + rest[1..]
  }

  /** The fields `parts` separated by dots. */
  function Join(parts: seq<string>): string
    requires |parts| > 0
  {
    if |parts| == 1 then parts[0] else parts[0] + "." + Join(parts[1..])
  }

  lemma {:induction false} JoinSplit(s: string)
    ensures Join(Split(s)) == s
  {
    if s != [] {
      var rest := Split(s[1..]);
      JoinSplit(s[1..]);
      if s[0] != '.' && |rest| > 1 {
        assert Join(rest) == rest[0] + "." + Join(rest[1..]);
      }
    }
  }

  /** Splitting a dot-free prefix glued to `s` extends the first field of `s`. */
  lemma {:induction false} SplitPrefix(p: string, s: string)
    requires '.' !in p
    ensures Split(p + s) == [p + Split(s)[0]] + Split(s)[1..]
  {
    var parts := Split(s);
    if p == [] {
      assert p + s == s && p + parts[0] == parts[0];
      assert [parts[0]] + parts[1..] == parts;
    } else {
      assert p[0] in p && '.' !in p[1..];
      SplitPrefix(p[1..], s);
      assert (p + s)[0] == p[0] && (p + s)[1..] == p[1..] + s;
      assert [p[0]] + (p[1..] + parts[0]) == p + parts[0];
    }
  }

  /** A string without dots is a single field. */
  lemma {:induction false} SplitDotFree(s: string)
    requires '.' !in s
    ensures Split(s) == [s]
  {
    if s != [] {
      assert s[0] in s && '.' !in s[1..];
      SplitDotFree(s[1..]);
      assert [s[0]] + s[1..] == s;
    }
  }

  lemma {:induction false} SplitJoin(parts: seq<string>)
    requires |parts| > 0
    requires forall i :: 0 <= i < |parts| ==> '.' !in parts[i]
    ensures Split(Join(parts)) == parts
  {
    if |parts| == 1 {
      SplitPrefix(parts[0], "");
      assert parts[0] + "" == parts[0];
    } else {
      var tail := Join(parts[1..]);
      SplitJoin(parts[1..]);
      assert ("." + tail)[0] == '.' && ("." + tail)[1..] == tail;
      assert Split("." + tail) == [""] + parts[1..];
      SplitPrefix(parts[0], "." + tail);
      assert Join(parts) == parts[0] + ("." + tail);
      assert parts[0] + "" == parts[0];
      assert [parts[0]] + parts[1..] == parts;
    }
  }

  /** Reads a version; `None` for anything that is not three numeric identifiers. */
  function Parse(s: string): Option<Version> {
    var parts := Split(s);
    if |parts| == 3 && IsNumeric(parts[0]) && IsNumeric(parts[1]) && IsNumeric(parts[2])
    then Some(Version(Value(parts[0]), Value(parts[1]), Value(parts[2])))
    else None
  }

  /** Writes a version in its canonical form. */
  function Format(v: Version): string {
    Join([Numeral(v.major), Numeral(v.minor), Numeral(v.patch)])
  }

  lemma ParseFormat(v: Version)
    ensures Parse(Format(v)) == Some(v)
  {
    SplitJoin([Numeral(v.major), Numeral(v.minor), Numeral(v.patch)]);
  }

  lemma FormatParse(s: string)
    requires Parse(s).Some?
    ensures Format(Parse(s).value) == s
  {
    var parts := Split(s);
    NumeralOfValue(parts[0]);
    NumeralOfValue(parts[1]);
    NumeralOfValue(parts[2]);
    assert [Numeral(Value(parts[0])), Numeral(Value(parts[1])), Numeral(Value(parts[2]))] == parts;
    JoinSplit(s);
  }

  /** Two valid strings denote the same version exactly when they are the same string. */
  lemma ParseInjective(a: string, b: string)
    requires Parse(a).Some? && Parse(b).Some?
    ensures Parse(a) == Parse(b) <==> a == b
  {
    if Parse(a) == Parse(b) {
      FormatParse(a);
      FormatParse(b);
    }
  }

  /**
   * The comparator over triples.  Where the library throws on an invalid
   * operand, `lt`, `gte` and `satisfies` answer false.
   */
  function TripleSemver(): Comparator {
    Comparator(
      s => Parse(s).Some?,
      (a, b) => Parse(a).Some? && Parse(b).Some? && Less(Parse(a).value, Parse(b).value),
      (a, b) => Parse(a).Some? && Parse(b).Some? && !Less(Parse(a).value, Parse(b).value),
      (v, r) => Parse(v).Some? && Parse(v) == Parse(r))
  }

  lemma TripleSemverLawful()
    ensures Lawful(TripleSemver())
  {
  }

  /** With a bare version as the range, satisfying it means being that very version. */
  lemma SatisfiesIsExact(v: string, r: string)
    requires TripleSemver().valid(v)
    ensures TripleSemver().satisfies(v, r) <==> v == r
  {
    if Parse(r).Some? {
      ParseInjective(v, r);
    }
  }

  /** Between valid versions, exactly one of below, equal and above holds. */
  lemma Trichotomy(a: string, b: string)
    requires TripleSemver().valid(a) && TripleSemver().valid(b)
    ensures TripleSemver().lt(a, b) || a == b || TripleSemver().lt(b, a)
    ensures TripleSemver().lt(a, b) ==> a != b && !TripleSemver().lt(b, a)
  {
    ParseInjective(a, b);
  }
}
