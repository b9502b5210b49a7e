/**
  Conventional-commit recognition: the fixed regular expressions of both
  scripts written as predicates, bump-type inference (the batch form of
  scripts/release.js and the one-message form of scripts/bump-version.js)
  and the two changelog classifiers.
 */
module Conventional {
  import opened Wrappers
  import opened Strings
  import opened SemVer

  /** `/^[a-z]+!:/`: one or more lower-case ASCII letters, then `!:`. */
  predicate MatchesBang(s: string) {
    exists k: nat | 1 <= k <= |s| :: AllLower(s, k) && OccursAt(s, "!:", k)
  }

  /** `s[..k]` is all lower-case ASCII letters. */
  predicate AllLower(s: string, k: nat)
    requires k <= |s|
  {
    forall i | 0 <= i < k :: IsLower(s[i])
  }

  /**
    `/^t(\(.+\))?:/`: `t:`, or `t(` then at least one character other than a
    line terminator (`)` included) up to some `)` that is followed by `:`.
   */
  predicate MatchesType(s: string, t: string) {
    || StartsWith(s, t + ":")
    || (StartsWith(s, t + "(") &&
        exists j: nat | |t| + 2 <= j <= |s| :: OccursAt(s, "):", j) && NoLineTerminator(s, |t| + 1, j))
  }

  /** The breaking test: `msg.includes('BREAKING CHANGE') || /^[a-z]+!:/.test(msg)`. */
  predicate IsBreaking(s: string) {
    Contains(s, "BREAKING CHANGE") || MatchesBang(s)
  }

  predicate IsFeature(s: string) {
    MatchesType(s, "feat")
  }

  /** A message that matches the pattern of type `t` starts with `t`. */
  lemma MatchesTypeStarts(s: string, t: string)
    requires MatchesType(s, t)
    ensures StartsWith(s, t)
  {
    var p := if StartsWith(s, t + ":") then t + ":" else t + "(";
    assert s[..|t|] == s[..|p|][..|t|] == p[..|t|] == t;
  }

  /** Two type names that differ at some position never both match. */
  lemma TypesExclusive(s: string, t: string, u: string, i: nat)
    requires i < |t| && i < |u| && t[i] != u[i]
    ensures !(MatchesType(s, t) && MatchesType(s, u))
  {
    if MatchesType(s, t) && MatchesType(s, u) {
      MatchesTypeStarts(s, t);
      MatchesTypeStarts(s, u);
    }
  }

  /**
    The bump type a batch of commit messages calls for: major when some
    message is breaking, otherwise minor when some message is a feature,
    otherwise patch.
   */
  function CommitsKind(commits: seq<string>): BumpKind {
    if exists i | 0 <= i < |commits| :: IsBreaking(commits[i]) then Major
    else if exists i | 0 <= i < |commits| :: IsFeature(commits[i]) then Minor
    else Patch
  }

  /** scripts/release.js `detectBumpType(commits)`: the loop with its early return. */
  method DetectBumpType(commits: seq<string>) returns (kind: BumpKind)
    ensures kind == CommitsKind(commits)
  {
    kind := Patch;
    for n := 0 to |commits|
      invariant forall i | 0 <= i < n :: !IsBreaking(commits[i])
      invariant kind == Minor <==> exists i | 0 <= i < n :: IsFeature(commits[i])
      invariant kind != Major
    {
      var msg := commits[n];
      if IsBreaking(msg) {
        return Major;
      }
      if IsFeature(msg) {
        kind := Minor;
      }
    }
  }

  /** The inferred bump type does not depend on the order of the messages. */
  lemma CommitsKindOrderFree(a: seq<string>, b: seq<string>)
    requires multiset(a) == multiset(b)
    ensures CommitsKind(a) == CommitsKind(b)
  {
    forall i | 0 <= i < |a| ensures exists j | 0 <= j < |b| :: b[j] == a[i] {
      assert a[i] in multiset(b);
    }
    forall j | 0 <= j < |b| ensures exists i | 0 <= i < |a| :: a[i] == b[j] {
      assert b[j] in multiset(a);
    }
  }

  /**
    scripts/bump-version.js `detectBumpType(message)`: an absent or empty
    message is patch; otherwise the batch rule applied to that one message.
   */
  function DetectBumpTypeOf(message: Option<string>): (kind: BumpKind)
    ensures message.None? ==> kind == Patch
    ensures message.Some? ==> kind == CommitsKind([message.value])
  {
    if message.None? || message.value == "" then Patch
    else
      assert [message.value][0] == message.value;
      if IsBreaking(message.value) then Major
    else if IsFeature(message.value) then Minor
    else Patch
  }

  /** The changelog sections of both scripts. */
  datatype Category =
    | Breaking | Added | Changed | Fixed | Performance
    | Documentation | Testing | Maintenance | Other
  {
    function Name(): string {
      match this
      case Breaking => "Breaking"
      case Added => "Added"
      case Changed => "Changed"
      case Fixed => "Fixed"
      case Performance => "Performance"
      case Documentation => "Documentation"
      case Testing => "Testing"
      case Maintenance => "Maintenance"
      case Other => "Other"
    }
  }

  /** The categories scripts/release.js shows. */
  predicate IsUserFacing(c: Category) {
    c == Breaking || c == Added || c == Changed || c == Fixed || c == Performance
  }

  /**
    scripts/release.js `categorizeCommit`: breaking first, then feat, fix,
    refactor, perf; `docs`, `test`, `chore`, `ci`, `build`, `style` and
    anything else yield `null`, here `None`.
   */
  function CuratedCategory(message: string): (c: Option<Category>)
    ensures c.Some? ==> IsUserFacing(c.value)
    ensures c == Some(Breaking) <==> IsBreaking(message)
    ensures c == Some(Added) <==> !IsBreaking(message) && IsFeature(message)
    ensures c.None? <==> (!IsBreaking(message) && !IsFeature(message) && !MatchesType(message, "fix")
                          && !MatchesType(message, "refactor") && !MatchesType(message, "perf"))
  {
    if IsBreaking(message) then Some(Breaking)
    else if MatchesType(message, "feat") then Some(Added)
    else if MatchesType(message, "fix") then Some(Fixed)
    else if MatchesType(message, "refactor") then Some(Changed)
    else if MatchesType(message, "perf") then Some(Performance)
    else None
  }

  /** Internal commit types are dropped from the curated changelog unless they are breaking. */
  lemma CuratedDropsInternal(message: string, t: string)
    requires t in ["docs", "test", "chore", "ci", "build", "style"]
    requires MatchesType(message, t) && !IsBreaking(message)
    ensures CuratedCategory(message) == None
  {
    // every internal type differs from feat, fix, refactor and perf in its first letter
    TypesExclusive(message, t, "feat", 0);
    TypesExclusive(message, t, "fix", 0);
    TypesExclusive(message, t, "refactor", 0);
    TypesExclusive(message, t, "perf", 0);
  }

  /**
    scripts/bump-version.js `categorizeCommit`: feat, fix, docs, refactor,
    perf, test, chore, and only then breaking; `Other` catches the rest.
   */
  function InclusiveCategory(message: string): (c: Category)
    ensures c == Breaking <==> (IsBreaking(message)
      && !MatchesType(message, "feat") && !MatchesType(message, "fix") && !MatchesType(message, "docs")
      && !MatchesType(message, "refactor") && !MatchesType(message, "perf")
      && !MatchesType(message, "test") && !MatchesType(message, "chore"))
    ensures c == Other <==> (!IsBreaking(message)
      && !MatchesType(message, "feat") && !MatchesType(message, "fix") && !MatchesType(message, "docs")
      && !MatchesType(message, "refactor") && !MatchesType(message, "perf")
      && !MatchesType(message, "test") && !MatchesType(message, "chore"))
  {
    if MatchesType(message, "feat") then Added
    else if MatchesType(message, "fix") then Fixed
    else if MatchesType(message, "docs") then Documentation
    else if MatchesType(message, "refactor") then Changed
    else if MatchesType(message, "perf") then Performance
    else if MatchesType(message, "test") then Testing
    else if MatchesType(message, "chore") then Maintenance
    else if IsBreaking(message) then Breaking
    else Other
  }

  /** The curated classifier files each non-breaking fix, refactor and perf commit under its own section. */
  lemma CuratedCategoryByType(message: string)
    ensures CuratedCategory(message) == Some(Fixed) <==> !IsBreaking(message) && MatchesType(message, "fix")
    ensures CuratedCategory(message) == Some(Changed) <==> !IsBreaking(message) && MatchesType(message, "refactor")
    ensures CuratedCategory(message) == Some(Performance) <==> !IsBreaking(message) && MatchesType(message, "perf")
  {
    TypesExclusive(message, "feat", "fix", 1);
    TypesExclusive(message, "feat", "refactor", 0);
    TypesExclusive(message, "feat", "perf", 0);
    TypesExclusive(message, "fix", "refactor", 0);
    TypesExclusive(message, "fix", "perf", 0);
    TypesExclusive(message, "refactor", "perf", 0);
  }

  /**
    The inclusive classifier files a commit under the section of its type
    prefix; the seven type patterns exclude each other, so the order of the
    tests does not matter among them.
   */
  lemma InclusiveCategoryByType(message: string)
    ensures InclusiveCategory(message) == Added <==> MatchesType(message, "feat")
    ensures InclusiveCategory(message) == Fixed <==> MatchesType(message, "fix")
    ensures InclusiveCategory(message) == Documentation <==> MatchesType(message, "docs")
    ensures InclusiveCategory(message) == Changed <==> MatchesType(message, "refactor")
    ensures InclusiveCategory(message) == Performance <==> MatchesType(message, "perf")
    ensures InclusiveCategory(message) == Testing <==> MatchesType(message, "test")
    ensures InclusiveCategory(message) == Maintenance <==> MatchesType(message, "chore")
  {
    // feat and fix differ in their second letter; every other pair in its first
    TypesExclusive(message, "feat", "fix", 1);
    TypesExclusive(message, "feat", "docs", 0);
    TypesExclusive(message, "feat", "refactor", 0);
    TypesExclusive(message, "feat", "perf", 0);
    TypesExclusive(message, "feat", "test", 0);
    TypesExclusive(message, "feat", "chore", 0);
    TypesExclusive(message, "fix", "docs", 0);
    TypesExclusive(message, "fix", "refactor", 0);
    TypesExclusive(message, "fix", "perf", 0);
    TypesExclusive(message, "fix", "test", 0);
    TypesExclusive(message, "fix", "chore", 0);
    TypesExclusive(message, "docs", "refactor", 0);
    TypesExclusive(message, "docs", "perf", 0);
    TypesExclusive(message, "docs", "test", 0);
    TypesExclusive(message, "docs", "chore", 0);
    TypesExclusive(message, "refactor", "perf", 0);
    TypesExclusive(message, "refactor", "test", 0);
    TypesExclusive(message, "refactor", "chore", 0);
    TypesExclusive(message, "perf", "test", 0);
    TypesExclusive(message, "perf", "chore", 0);
    TypesExclusive(message, "test", "chore", 0);
  }

  /**
    How the two classifiers relate: on a message that is not breaking they
    agree on every user-facing category and the curated one drops the rest;
    a message the inclusive classifier calls breaking is breaking for both.
   */
  lemma ClassifiersAgree(message: string)
    ensures InclusiveCategory(message) == Breaking ==> CuratedCategory(message) == Some(Breaking)
    ensures !IsBreaking(message) ==>
      CuratedCategory(message) ==
        (if IsUserFacing(InclusiveCategory(message)) then Some(InclusiveCategory(message)) else None)
  {
    TypesExclusive(message, "docs", "refactor", 0);
    TypesExclusive(message, "docs", "perf", 0);
    TypesExclusive(message, "test", "perf", 0);
  }

  /** `s` does not start with `p` because they differ at position `i`. */
  lemma Mismatch(s: string, p: string, i: nat)
    requires i < |p| && i < |s| && s[i] != p[i]
    ensures !StartsWith(s, p)
  {
  }

  /** A breaking marker does not win in the inclusive classifier when a fix prefix comes first. */
  lemma FixBeforeBreakingInclusive()
    ensures InclusiveCategory("fix: x BREAKING CHANGE") == Fixed
    ensures CuratedCategory("fix: x BREAKING CHANGE") == Some(Breaking)
  {
    var s := "fix: x BREAKING CHANGE";
    assert StartsWith(s, "fix:");
    assert OccursAt(s, "BREAKING CHANGE", 7);
    TypesExclusive(s, "fix", "feat", 1);
  }

  /** A breaking marker wins over the feat prefix in the curated classifier. */
  lemma BreakingBeforeFeatCurated()
    ensures CuratedCategory("feat: x BREAKING CHANGE") == Some(Breaking)
    ensures InclusiveCategory("feat: x BREAKING CHANGE") == Added
  {
    var s := "feat: x BREAKING CHANGE";
    assert StartsWith(s, "feat:");
    assert OccursAt(s, "BREAKING CHANGE", 8);
  }

  /** `docs!: x` matches no type pattern, so both classifiers call it breaking. */
  lemma BangDocsIsBreaking()
    ensures InclusiveCategory("docs!: x") == Breaking
    ensures DetectBumpTypeOf(Some("docs!: x")) == Major
  {
    var s := "docs!: x";
    assert AllLower(s, 4) && OccursAt(s, "!:", 4);
    assert MatchesBang(s);
    Mismatch(s, "docs:", 4);
    Mismatch(s, "docs(", 4);
    Mismatch(s, "fix", 0);
    Mismatch(s, "feat", 0);
    Mismatch(s, "refactor", 0);
    Mismatch(s, "perf", 0);
    Mismatch(s, "test", 0);
    Mismatch(s, "chore", 0);
    if MatchesType(s, "feat") { MatchesTypeStarts(s, "feat"); }
    if MatchesType(s, "fix") { MatchesTypeStarts(s, "fix"); }
    if MatchesType(s, "refactor") { MatchesTypeStarts(s, "refactor"); }
    if MatchesType(s, "perf") { MatchesTypeStarts(s, "perf"); }
    if MatchesType(s, "test") { MatchesTypeStarts(s, "test"); }
    if MatchesType(s, "chore") { MatchesTypeStarts(s, "chore"); }
  }

  /**
    A scoped breaking commit `feat(api)!: x` matches neither the breaking
    pattern nor the feat pattern: the curated changelog drops it and it
    bumps only the patch number.
   */
  lemma ScopedBangIsNotBreaking()
    ensures CuratedCategory("feat(api)!: x") == None
    ensures InclusiveCategory("feat(api)!: x") == Other
    ensures DetectBumpTypeOf(Some("feat(api)!: x")) == Patch
  {
    var s := "feat(api)!: x";
    assert !MatchesBang(s) by {
      forall k: nat | 1 <= k <= |s| ensures !(AllLower(s, k) && OccursAt(s, "!:", k)) {
        if k <= 4 {
          assert k == 1 || k == 2 || k == 3 || k == 4;
          assert s[k] != '!';
          OccursAtPair(s, '!', ':', k);
        } else {
          assert !IsLower(s[4]);
        }
      }
    }
    assert !Contains(s, "BREAKING CHANGE");
    assert !IsFeature(s) by {
      Mismatch(s, "feat:", 4);
      forall j: nat | 6 <= j <= |s| ensures !OccursAt(s, "):", j) {
        assert j == 6 || j == 7 || j == 8 || j == 9 || j == 10 || j == 11 || j == 12 || j == 13;
        assert j + 2 <= |s| ==> s[j] != ')' || s[j + 1] != ':';
        OccursAtPair(s, ')', ':', j);
      }
    }
    Mismatch(s, "fix", 1);
    if MatchesType(s, "fix") { MatchesTypeStarts(s, "fix"); }
    TypesExclusive(s, "feat", "docs", 0);
    TypesExclusive(s, "feat", "refactor", 0);
    TypesExclusive(s, "feat", "perf", 0);
    TypesExclusive(s, "feat", "test", 0);
    TypesExclusive(s, "feat", "chore", 0);
    assert StartsWith(s, "feat");
    Mismatch(s, "docs", 0);
    Mismatch(s, "refactor", 0);
    Mismatch(s, "perf", 0);
    Mismatch(s, "test", 0);
    Mismatch(s, "chore", 0);
    if MatchesType(s, "docs") { MatchesTypeStarts(s, "docs"); }
    if MatchesType(s, "refactor") { MatchesTypeStarts(s, "refactor"); }
    if MatchesType(s, "perf") { MatchesTypeStarts(s, "perf"); }
    if MatchesType(s, "test") { MatchesTypeStarts(s, "test"); }
    if MatchesType(s, "chore") { MatchesTypeStarts(s, "chore"); }
  }
}
