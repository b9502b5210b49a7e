/**
  `getChangelogSection(version)` of scripts/release.js: the release notes
  are the text under the first heading `## [version]…` of the changelog,
  up to the next `\n## [` or the end of the file, trimmed.

  The version is put into the regular expression unescaped, so each of its
  `.` matches any character except a line terminator; its digits match
  themselves. `[^\n]*\n` ends the heading at the first newline after the
  closing bracket (a heading without one does not match), and the lazy
  `[\s\S]*?` stops at the first `\n## [` after the heading line, or at the
  end of the text, since `$` has no multiline flag.
 */
module ReleaseNotes {
  import opened Wrappers
  import opened Strings

  /** What a version string built by `formatVersion` is made of: digits and dots. */
  predicate IsVersionText(v: string) {
    forall k | 0 <= k < |v| :: IsDigit(v[k]) || v[k] == '.'
  }

  /** One character of the interpolated version against one character of the text. */
  predicate PatternCharMatches(p: char, c: char) {
    if p == '.' then !IsLineTerminator(c) else c == p
  }

  /** The interpolated version matches the text at index `i`. */
  predicate VersionAt(s: string, v: string, i: nat) {
    i + |v| <= |s| && forall k | 0 <= k < |v| :: PatternCharMatches(v[k], s[i + k])
  }

  /** `## \[version\][^\n]*\n` matches the text at index `i`. */
  predicate HeadingAt(s: string, v: string, i: nat) {
    OccursAt(s, "## [", i) && VersionAt(s, v, i + 4) && OccursAt(s, "]", i + 4 + |v|)
    && IndexFrom(s, "\n", i + 5 + |v|).Some?
  }

  /** The leftmost heading at or after `from`: where the regular expression's match starts. */
  function FirstHeading(s: string, v: string, from: nat): (r: Option<nat>)
    decreases |s| - from
    ensures r.Some? ==> from <= r.value && HeadingAt(s, v, r.value)
    ensures r.Some? ==> forall j: nat | from <= j < r.value :: !HeadingAt(s, v, j)
    ensures r.None? ==> forall j: nat | from <= j :: !HeadingAt(s, v, j)
  {
    if from + 4 > |s| then None
    else if HeadingAt(s, v, from) then Some(from)
    else FirstHeading(s, v, from + 1)
  }

  /** Where the lazy body stops: the first `\n## [` at or after `b`, or the end. */
  function SectionEnd(s: string, b: nat): (e: nat)
    requires b <= |s|
    ensures b <= e <= |s|
    ensures e < |s| ==> OccursAt(s, "\n## [", e)
    ensures forall j: nat | b <= j < e :: !OccursAt(s, "\n## [", j)
  {
    match IndexFrom(s, "\n## [", b)
    case Some(e) => e
    case None => |s|
  }

  /** Where the body starts: just after the newline that ends the heading at `i`. */
  function BodyStart(s: string, v: string, i: nat): (b: nat)
    requires HeadingAt(s, v, i)
    ensures i + 6 + |v| <= b <= |s| && s[b - 1] == '\n'
    ensures forall j | i + 5 + |v| <= j < b - 1 :: s[j] != '\n'
  {
    var nl := IndexFrom(s, "\n", i + 5 + |v|).value;
    OccursAtChar(s, '\n', nl);
    forall j | i + 5 + |v| <= j < nl ensures s[j] != '\n' {
      OccursAtChar(s, '\n', j);
    }
    nl + 1
  }

  /**
    The release notes for `version`: `None` when there is no changelog or
    no heading for that version matches, otherwise the trimmed body.
   */
  function ChangelogSection(changelog: Option<string>, version: string): (notes: Option<string>)
    requires IsVersionText(version)
    ensures notes.Some? <==> changelog.Some? && exists i: nat :: HeadingAt(changelog.value, version, i)
  {
    match changelog
    case None => None
    case Some(s) =>
      match FirstHeading(s, version, 0)
      case None => None
      case Some(i) => Some(NotesAt(s, version, i))
  }

  /** The trimmed body under the heading at `i`. */
  function NotesAt(s: string, v: string, i: nat): string
    requires HeadingAt(s, v, i)
  {
    var b := BodyStart(s, v, i);
    Trim(s[b..SectionEnd(s, b)])
  }

  /**
    The notes, told from the positions: when the leftmost heading for the
    version starts at `i`, its line ends at the newline at `nl`, and the
    first `\n## [` after it is at `e` (or `e` is the end), the notes are the
    trimmed text between `nl` and `e`.
   */
  lemma ChangelogSectionIs(s: string, version: string, i: nat, nl: nat, e: nat)
    requires IsVersionText(version)
    requires HeadingAt(s, version, i) && forall j: nat | j < i :: !HeadingAt(s, version, j)
    requires i + 5 + |version| <= nl < |s| && s[nl] == '\n'
    requires forall j | i + 5 + |version| <= j < nl :: s[j] != '\n'
    requires nl + 1 <= e <= |s| && (e < |s| ==> OccursAt(s, "\n## [", e))
    requires forall j: nat | nl + 1 <= j < e :: !OccursAt(s, "\n## [", j)
    ensures ChangelogSection(Some(s), version) == Some(Trim(s[nl + 1..e]))
  {
    FirstHeadingIs(s, version, i);
    BodyStartIs(s, version, i, nl);
    SectionEndIs(s, nl + 1, e);
    assert NotesAt(s, version, i) == Trim(s[nl + 1..e]);
  }

  lemma FirstHeadingIs(s: string, v: string, i: nat)
    requires HeadingAt(s, v, i) && forall j: nat | j < i :: !HeadingAt(s, v, j)
    ensures FirstHeading(s, v, 0) == Some(i)
  {
  }

  lemma BodyStartIs(s: string, v: string, i: nat, nl: nat)
    requires HeadingAt(s, v, i)
    requires i + 5 + |v| <= nl < |s| && s[nl] == '\n'
    requires forall j | i + 5 + |v| <= j < nl :: s[j] != '\n'
    ensures BodyStart(s, v, i) == nl + 1
  {
  }

  lemma SectionEndIs(s: string, b: nat, e: nat)
    requires b <= e <= |s| && (e < |s| ==> OccursAt(s, "\n## [", e))
    requires forall j: nat | b <= j < e :: !OccursAt(s, "\n## [", j)
    ensures SectionEnd(s, b) == e
  {
  }
}
