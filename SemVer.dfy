/**
  The version codec shared by both scripts: `parseVersion`, `formatVersion`
  and `bumpVersion` (identical in scripts/release.js and
  scripts/bump-version.js), with precedence as in section 11 of Semantic
  Versioning 2.0.0.
 */
module SemVer {
  import opened Wrappers
  import opened Strings

  datatype Version = Version(major: nat, minor: nat, patch: nat)

  /** The three bump types `detectBumpType` produces and `bumpVersion` recognises. */
  datatype BumpKind = Major | Minor | Patch {
    function Name(): string {
      match this
      case Major => "major"
      case Minor => "minor"
      case Patch => "patch"
    }
  }

  predicate AllDigits(s: string) {
    forall i | 0 <= i < |s| :: IsDigit(s[i])
  }

  /** A canonical decimal numeral: at least one digit, no superfluous leading zero. */
  predicate IsCanonicalNumeral(s: string) {
    |s| >= 1 && AllDigits(s) && (s[0] == '0' ==> |s| == 1)
  }

  function DigitChar(d: nat): (c: char)
    requires d < 10
    ensures IsDigit(c) && DigitValue(c) == d
  {
    ('0' as int + d) as char
  }

  function DigitValue(c: char): nat
    requires IsDigit(c)
  {
    c as int - '0' as int
  }

  /** The number a string of decimal digits denotes. */
  function NumeralValue(s: string): nat
    requires AllDigits(s)
  {
    if s == [] then 0 else 10 * NumeralValue(s[..|s| - 1]) + DigitValue(s[|s| - 1])
  }

  /** `${n}` for a non-negative integer: the canonical numeral that denotes `n`. */
  function Numeral(n: nat): (s: string)
    ensures IsCanonicalNumeral(s) && NumeralValue(s) == n
  {
    if n < 10 then [DigitChar(n)]
    else
      var high := Numeral(n / 10);
      var s := high + [DigitChar(n % 10)];
      assert s[..|s| - 1] == high;
      assert |high| == 1 ==> NumeralValue(high) == DigitValue(high[0]);
      s
  }

  /** A canonical numeral with a non-zero leading digit denotes at least 1. */
  lemma {:induction false} LeadingDigitPositive(s: string)
    requires |s| >= 1 && AllDigits(s) && s[0] != '0'
    ensures NumeralValue(s) >= 1
  {
    if |s| > 1 {
      LeadingDigitPositive(s[..|s| - 1]);
    }
  }

  /** Formatting the value of a canonical numeral gives the numeral back. */
  lemma {:induction false} NumeralOfValue(s: string)
    requires IsCanonicalNumeral(s)
    ensures Numeral(NumeralValue(s)) == s
  {
    if |s| > 1 {
      var high := s[..|s| - 1];
      LeadingDigitPositive(high);
      NumeralOfValue(high);
      var n := NumeralValue(s);
      assert n / 10 == NumeralValue(high) && n % 10 == DigitValue(s[|s| - 1]);
      assert s == high + [s[|s| - 1]];
    }
  }

  /**
    `parseVersion`: the first three dot-separated fields as numbers; fields
    after the third are ignored. A field that is not a canonical numeral, or
    fewer than three fields, gives `None`.
   */
  function Parse(s: string): Option<Version> {
    var parts := Split(s, '.');
    if |parts| >= 3 && IsCanonicalNumeral(parts[0]) && IsCanonicalNumeral(parts[1])
       && IsCanonicalNumeral(parts[2])
    then Some(Version(NumeralValue(parts[0]), NumeralValue(parts[1]), NumeralValue(parts[2])))
    else None
  }

  /** `formatVersion`: `major.minor.patch`. */
  function Format(v: Version): (s: string)
    ensures forall i | 0 <= i < |s| :: IsDigit(s[i]) || s[i] == '.'
  {
    Numeral(v.major) + "." + Numeral(v.minor) + "." + Numeral(v.patch)
  }

  lemma SplitTriple(a: string, b: string, c: string)
    requires '.' !in a && '.' !in b && '.' !in c
    ensures Split(a + "." + b + "." + c, '.') == [a, b, c]
  {
    assert a + "." + b + "." + c == a + ['.'] + (b + ['.'] + c);
    SplitCons(a, b + ['.'] + c, '.');
    SplitCons(b, c, '.');
    SplitPlain(c, '.');
  }

  /** Parsing a formatted version gives the version back. */
  lemma ParseFormat(v: Version)
    ensures Parse(Format(v)) == Some(v)
  {
    SplitTriple(Numeral(v.major), Numeral(v.minor), Numeral(v.patch));
  }

  /** Fields after the third do not change what is parsed. */
  lemma ParseIgnoresExtraFields(v: Version, rest: string)
    ensures Parse(Format(v) + "." + rest) == Some(v)
  {
    var a, b, c := Numeral(v.major), Numeral(v.minor), Numeral(v.patch);
    assert Format(v) + "." + rest == a + ['.'] + (b + ['.'] + (c + ['.'] + rest));
    SplitCons(a, b + ['.'] + (c + ['.'] + rest), '.');
    SplitCons(b, c + ['.'] + rest, '.');
    SplitCons(c, rest, '.');
  }

  /** A string of exactly three canonical numerals is the format of what it parses to. */
  lemma FormatParse(s: string)
    requires Parse(s).Some? && |Split(s, '.')| == 3
    ensures Format(Parse(s).value) == s
  {
    var parts := Split(s, '.');
    NumeralOfValue(parts[0]);
    NumeralOfValue(parts[1]);
    NumeralOfValue(parts[2]);
    var tail := parts[1..];
    assert tail[1..] == [parts[2]];
    assert Join(tail, '.') == parts[1] + ['.'] + parts[2];
    assert s == parts[0] + ['.'] + Join(tail, '.');
  }

  /** Precedence of section 11 of Semantic Versioning 2.0.0: field by field, numerically. */
  predicate Precedes(a: Version, b: Version) {
    || a.major < b.major
    || (a.major == b.major && a.minor < b.minor)
    || (a.major == b.major && a.minor == b.minor && a.patch < b.patch)
  }

  /** The `switch (type)` of `bumpVersion`: `major`, `minor`, and everything else (also `undefined`) is patch. */
  function KindOfType(bumpType: Option<string>): (k: BumpKind)
    ensures k == Major <==> bumpType == Some("major")
    ensures k == Minor <==> bumpType == Some("minor")
  {
    if bumpType == Some("major") then Major
    else if bumpType == Some("minor") then Minor
    else Patch
  }

  /** The bumped version (items 6 to 8 of Semantic Versioning 2.0.0). */
  function Next(v: Version, kind: BumpKind): (r: Version)
    ensures Precedes(v, r)
  {
    match kind
    case Major => Version(v.major + 1, 0, 0)
    case Minor => Version(v.major, v.minor + 1, 0)
    case Patch => Version(v.major, v.minor, v.patch + 1)
  }

  /**
    A bump skips no release of its own rank: every version strictly between
    `v` and `Next(v, kind)` keeps the fields `kind` changes and those before
    it, so a patch bump gives the immediate successor, a minor bump the
    first version of the next minor line and a major bump the first version
    of the next major line.
   */
  lemma NextFollowsSemVer(v: Version, kind: BumpKind, w: Version)
    requires Precedes(v, w) && Precedes(w, Next(v, kind))
    ensures kind != Patch
    ensures kind == Minor ==> w.major == v.major && w.minor == v.minor
    ensures kind == Major ==> w.major == v.major
  {
  }

  /** `bumpVersion(current, type)` on a well-formed version string. */
  function BumpVersion(current: string, bumpType: Option<string>): (r: string)
    requires Parse(current).Some?
    ensures Parse(r).Some? && Precedes(Parse(current).value, Parse(r).value)
    ensures r == Format(Parse(r).value)
    ensures forall i | 0 <= i < |r| :: IsDigit(r[i]) || r[i] == '.'
    ensures var v := Parse(current).value;
      && (bumpType == Some("major") ==> Parse(r) == Some(Version(v.major + 1, 0, 0)))
      && (bumpType == Some("minor") ==> Parse(r) == Some(Version(v.major, v.minor + 1, 0)))
      && (bumpType != Some("major") && bumpType != Some("minor") ==>
            Parse(r) == Some(Version(v.major, v.minor, v.patch + 1)))
  {
    var next := Next(Parse(current).value, KindOfType(bumpType));
    ParseFormat(next);
    Format(next)
  }

  /** The name `detectBumpType` returns is read back by `bumpVersion` as the same kind. */
  lemma KindOfName(kind: BumpKind)
    ensures KindOfType(Some(kind.Name())) == kind
  {
  }

  /** Bumping by the name of a kind gives the next version of that kind. */
  lemma BumpByKind(current: string, kind: BumpKind)
    requires Parse(current).Some?
    ensures Parse(BumpVersion(current, Some(kind.Name()))) == Some(Next(Parse(current).value, kind))
  {
    KindOfName(kind);
    ParseFormat(Next(Parse(current).value, kind));
  }
}
