# Release logic of the Arc plugin scripts, in Dafny

The plugin ships two Node scripts that work out a release.

- `scripts/release.js` is the release orchestrator. It refuses to run on a dirty working tree and stops when there is nothing to release. It infers the bump kind from the commits since the last tag (or takes a forced one), and bumps the version in `plugin.json`. When some commit is user-facing it writes a curated changelog entry, inserted just before the first `\n## ` section of the changelog or appended when there is none; otherwise the changelog is left as it was. It then takes the notes for the hosted release from the section of the changelog, as it now stands, whose heading matches the new version.
- `scripts/bump-version.js` is the stand-alone bumper. It takes a bump type or `auto` and an optional commit message. It bumps the version and inserts an inclusive changelog entry listing every commit in the same place, before the first `\n## ` section or at the end.

This project models the pure logic of both scripts and proves what that logic guarantees. Where the two scripts contain the same code, it is modelled once and cited for both:

- `SemVer`: the version codec `parseVersion` / `formatVersion` / `bumpVersion`.
- `CommitFormat`: the line formatter `formatCommit` / `formatCommitForChangelog`.

| module | what it models |
|---|---|
| `Wrappers` | `Option`, standing for `null` / `undefined` results |
| `Strings` | ECMAScript character classes (`\s`, `.`, `[a-z]` under `i`), `includes`, `indexOf`, `split`, `trim`, first-letter upper-casing |
| `SemVer` | parsing (`Parse` is `parseVersion`) and formatting (`Format` is `formatVersion`) of `major.minor.patch`, the bump (`BumpVersion` is `bumpVersion`), precedence as in section 11 of Semantic Versioning 2.0.0 |
| `Conventional` | the fixed commit patterns, both `detectBumpType` functions, both `categorizeCommit` functions |
| `CommitFormat` | `FormatCommit` is `formatCommit` / `formatCommitForChangelog`: removal of the `type(scope)!:` prefix, the longest match of `^[a-z]+(\(.+\))?!?:\s*` under `i` |
| `Changelog` | grouping, rendering and splicing of `generateChangelog` (curated policy) and `updateChangelog` (inclusive policy) |
| `ReleaseNotes` | `getChangelogSection` |
| `Scripts` | both main blocks: bump-type and commit selection, the update of `plugin.version`, the outcome of a release |

The loops of the source are methods with loop invariants:

- `Conventional.DetectBumpType`
- `Changelog.GroupCommits`
- `Changelog.RenderEntry` and `Changelog.AppendSection`

Each is proved equal to a specification function (`CommitsKind`, `Grouping`, `EntryText`), and lemmas state what those functions mean. `Changelog.WriteEntry` has no loop: it models the successive reassignments of `changelog` in the write step (read, replace by the preamble, splice) and is proved equal to `Written`.

The bullet lemmas (`BulletsAreListed`, `InclusiveBulletsAreCommits`, `CuratedBulletsAreKept`, `MessageIsTheOnlyBullet`) speak of `Changelog.CategoryItems`, the per-category lists of the emitted categories one after the other. `Changelog.EntryByCategory` shows the entry is rendered from exactly those lists, and `Changelog.EntryShowsItems` shows that each of them is a `- item` line of the rendered entry.

`plugin.json` is a `Scripts.Plugin` object whose `version` field the main blocks update. Everything else the scripts touch is passed in or handed back, and the model and `## Left out` say which; this covers the date, the changelog file, the commit subjects and the git state.

Regular expressions are written as predicates. Each predicate follows ECMAScript semantics for its pattern:

- `.` does not match the four line terminators.
- `\s` and `trim` use the full WhiteSpace and LineTerminator sets.
- Greedy `.+` makes the scope of `formatCommit` end at the rightmost `)` followed by `:` or `!:`.

Some behaviours of the code a reader may not expect; the model follows the code:

- `parseVersion` ignores fields after the third; it does not reject them.
- The inclusive classifier of `scripts/bump-version.js` tests the breaking markers last, after all seven type prefixes.
- The curated classifier tests them first.
- When a changelog lacks `# Changelog`, its whole content is replaced by the preamble; nothing is kept under it.
- A scoped breaking commit such as `feat(api)!: x` matches neither `^[a-z]+!:` nor `^feat(\(.+\))?:`. Both scripts treat it as a plain commit.

## Model

| member | source | states |
|---|---|---|
| SemVer.Numeral | scripts/release.js:46-48 | the decimal text of a number is a canonical numeral that denotes that number |
| SemVer.NumeralOfValue | scripts/release.js:41-48 | formatting the value of a canonical numeral gives the numeral back |
| SemVer.ParseFormat | scripts/release.js:41-48 | parsing a formatted version gives that version back |
| SemVer.ParseIgnoresExtraFields | scripts/release.js:41-44 | fields after the third do not change what is parsed |
| SemVer.FormatParse | scripts/release.js:41-48 | a string of exactly three canonical numerals is the format of the version it parses to |
| SemVer.Format | scripts/release.js:46-48 | a formatted version consists of digits and dots only |
| SemVer.Next | scripts/release.js:50-61 | the bumped version follows the old one in section 11 precedence |
| SemVer.NextFollowsSemVer | scripts/release.js:50-61 | a bump skips no release of its rank: nothing lies between a version and its patch bump, everything between it and its minor bump shares its major and minor, everything between it and its major bump shares its major |
| SemVer.BumpVersion | scripts/release.js:50-61 | the result is exactly the three-field format of the version it parses to, strictly later in precedence; major, minor and any other type (also absent) give the three results; scripts/bump-version.js:37-49 is the same code |
| SemVer.BumpByKind | scripts/release.js:210-213 | bumping by the name of a detected kind is the bump of that kind |
| Conventional.MatchesTypeStarts | scripts/release.js:89 | a message matching the pattern of type `t` starts with `t` |
| Conventional.TypesExclusive | scripts/release.js:101-104 | two type names that differ at a position never both match |
| Conventional.DetectBumpType | scripts/release.js:82-95 | the loop with its early return computes major if a message is breaking, otherwise minor if one is a feature, otherwise patch |
| Conventional.CommitsKindOrderFree | scripts/release.js:82-95 | the inferred kind depends only on the multiset of messages, not their order |
| Conventional.DetectBumpTypeOf | scripts/bump-version.js:51-66 | an absent message gives patch; a present one gives the batch rule applied to the one-element list |
| Conventional.CuratedCategory | scripts/release.js:97-113 | only user-facing categories; Breaking exactly when breaking; Added exactly when a non-breaking feature; null exactly when no kept pattern matches |
| Conventional.CuratedDropsInternal | scripts/release.js:106-111 | a non-breaking docs, test, chore, ci, build or style commit yields null |
| Conventional.CuratedCategoryByType | scripts/release.js:99-104 | a non-breaking message is Fixed, Changed or Performance exactly when it matches the fix, refactor or perf pattern |
| Conventional.InclusiveCategory | scripts/bump-version.js:68-78 | Breaking exactly when breaking and no type prefix matched first; Other exactly when the message matches none of the seven type patterns and is not breaking |
| Conventional.InclusiveCategoryByType | scripts/bump-version.js:68-75 | each of Added, Fixed, Documentation, Changed, Performance, Testing and Maintenance is given exactly when the message matches the feat, fix, docs, refactor, perf, test or chore pattern; the seven patterns exclude each other |
| Conventional.ClassifiersAgree | scripts/bump-version.js:68-78 | the inclusive Breaking implies the curated Breaking; on non-breaking messages the curated result is the inclusive one restricted to user-facing categories |
| Conventional.FixBeforeBreakingInclusive | scripts/bump-version.js:69-76 | `fix: x BREAKING CHANGE` is Fixed for the inclusive classifier and Breaking for the curated one |
| Conventional.BreakingBeforeFeatCurated | scripts/release.js:99-101 | `feat: x BREAKING CHANGE` is Breaking for the curated classifier and Added for the inclusive one |
| Conventional.BangDocsIsBreaking | scripts/bump-version.js:71-76 | `docs!: x` is Breaking and bumps major |
| Conventional.ScopedBangIsNotBreaking | scripts/release.js:86-89 | `feat(api)!: x` is dropped by the curated classifier, is Other for the inclusive one, and bumps patch only |
| CommitFormat.ColonEnd | scripts/release.js:117 | `!?:` ends in one place at most, preferring `!:` |
| CommitFormat.LastScopeClose | scripts/release.js:117 | the greedy `.+` backs off to the largest `)` that can close the scope |
| CommitFormat.PrefixEndSound | scripts/release.js:117 | what the formatter strips is a match of the prefix pattern |
| CommitFormat.PrefixEndLongest | scripts/release.js:117 | no match of the prefix pattern is longer than what is stripped |
| CommitFormat.PrefixEndsInColonOrSpace | scripts/release.js:117 | a matched prefix ends in the colon or in white space after it |
| CommitFormat.FormatCommitStripsLongestPrefix | scripts/release.js:115-119 | the line is the rest after the longest prefix match, first character upper-cased; the rest does not start with white space |
| CommitFormat.FormatCommitWithoutPrefix | scripts/release.js:115-119 | a message with no such prefix changes in its first character only |
| CommitFormat.FormatPlainTypedCommit | scripts/release.js:115-119 | `type: description` becomes the description with its first character upper-cased |
| CommitFormat.FormatGreedyScopeExample | scripts/release.js:117 | `fix(a): b): c` becomes `C`: the scope runs to the last `)` before a colon |
| Strings.UpperFirst | scripts/release.js:118 | only the first character can change, and it is upper-cased unless it is a line terminator |
| Strings.Split | scripts/release.js:42 | never empty; no piece contains the separator; the pieces joined with it give the input |
| Strings.SplitJoin | scripts/release.js:42 | splitting separator-free pieces joined by the separator gives the pieces |
| Strings.IndexOf | scripts/release.js:161 | the first occurrence; `None` exactly when there is none |
| Strings.Trim | scripts/release.js:185 | a slice of the input with white space only around it and no white space at its ends |
| Changelog.Classify | scripts/release.js:126-127 | the inclusive policy never drops a commit; the curated one keeps only user-facing categories |
| Changelog.OrderCovers | scripts/bump-version.js:126 | each category order has no duplicates and contains every category its classifier can return |
| Changelog.ItemsEmptyIff | scripts/release.js:125-130 | a category has no lines exactly when no commit falls into it |
| Changelog.GroupingItems | scripts/release.js:124-130 | the grouped keys are the categories that received a commit; each list is the formatted commits of that category in input order |
| Changelog.GroupCommits | scripts/release.js:124-130 | the grouping loop computes `Grouping`; scripts/bump-version.js:116-121 is the same loop without the skip |
| Changelog.GroupingEmptyIff | scripts/release.js:132-136 | nothing is grouped exactly when no commit classifies |
| Changelog.RenderEntry | scripts/release.js:138-150 | the rendering loops build the heading followed by the sections of the non-empty categories in the given order |
| Changelog.AppendSection | scripts/release.js:144-148 | one iteration appends the sub-heading, one bullet per item in order, and a blank line |
| Changelog.SectionsOfGrouping | scripts/release.js:140-150 | the sections rendered from the grouping are those of the per-category lists, in the fixed order |
| Changelog.EntryByCategory | scripts/release.js:138-150 | an entry is its heading, then for each category of the fixed order that received commits, its section listing them in input order |
| Changelog.InclusiveEmptyEntry | scripts/bump-version.js:124-136 | with no commits the inclusive entry is the heading `## [v] - date` and a blank line |
| Changelog.BulletsAreListed | scripts/release.js:124-150 | the bullets are exactly the formatted commits whose category is emitted, each once |
| Changelog.InclusiveBulletsAreCommits | scripts/bump-version.js:116-136 | every commit appears exactly once among the bullets, so there are as many bullets as commits |
| Changelog.CuratedBulletsAreKept | scripts/release.js:124-150 | the bullets are exactly the commits the curated classifier keeps, each once |
| Changelog.BulletsShowItems | scripts/release.js:146 | every item has its `- item` line in the bullet list |
| Changelog.SectionsShowItems | scripts/release.js:140-150 | every item of the emitted categories' lists has its `- item` line in the sections |
| Changelog.EntryShowsItems | scripts/release.js:138-150 | every item of the emitted categories' lists has its `- item` line in the rendered entry |
| Changelog.BaseKeepsHeader | scripts/release.js:152-159 | the document the entry goes into always contains `# Changelog`, so a second run keeps it as it is |
| Changelog.InsertionPoint | scripts/release.js:161 | just after the newline of the first `\n## `, or the end of the document |
| Changelog.Splice | scripts/release.js:161-166 | the result is the document with the entry inserted at the insertion point |
| Changelog.SpliceRemovable | scripts/release.js:161-166 | the entry sits at the insertion point, and cutting it out gives the document back |
| Changelog.SpliceAppends | scripts/release.js:164-166 | without a `\n## ` the entry is appended |
| Changelog.SpliceKeepsLine | scripts/release.js:161-166 | a text without newlines in the document is still in it after the splice, since the entry goes in just after a newline |
| Changelog.WrittenHasHeader | scripts/release.js:152-166 | the document written always contains `# Changelog` |
| Changelog.WriteEntry | scripts/release.js:152-166 | reading, replacing by the preamble and splicing compute `Written` |
| Changelog.GenerateChangelog | scripts/release.js:121-169 | nothing is written exactly when no commit is user-facing; otherwise the document is the curated entry spliced in |
| Changelog.UpdateChangelog | scripts/bump-version.js:112-158 | returns the inclusive entry and the document with it spliced in |
| ReleaseNotes.FirstHeading | scripts/release.js:183-184 | the leftmost heading for the version, where the match starts |
| ReleaseNotes.BodyStart | scripts/release.js:183 | the body starts after the first newline past the closing bracket |
| ReleaseNotes.SectionEnd | scripts/release.js:183 | the lazy body stops at the first `\n## [` or the end |
| ReleaseNotes.ChangelogSection | scripts/release.js:180-186 | notes exist exactly when there is a file and a heading for the version matches in it |
| ReleaseNotes.ChangelogSectionIs | scripts/release.js:180-186 | the notes are the trimmed text between the end of the leftmost heading line and the next `\n## [` or the end |
| Scripts.AutoBumpFollowsMessage | scripts/bump-version.js:166-172 | with `auto`, the version is bumped by the kind the message calls for |
| Scripts.NoTypeBumpsPatch | scripts/bump-version.js:166-180 | without a type argument the patch number goes up |
| Scripts.MessageIsTheOnlyBullet | scripts/bump-version.js:176-178 | with a message argument the entry lists exactly that message |
| Scripts.BumpVersionMain | scripts/bump-version.js:161-193 | the version becomes the bump by the selected type; the entry is that of the selected commits; the document is written with it |
| Scripts.ReleaseBumpFollowsCommits | scripts/release.js:210-213 | without a forced type the release bumps by the kind its commits call for |
| Scripts.ReleaseMain | scripts/release.js:188-250 | a dirty tree or no commits leave the version unchanged; otherwise the version is bumped; the changelog is rewritten only when some commit is user-facing; the notes are those of the file afterwards |

## Left out

- Git and `gh` calls (`getLastTag`, `getCommitsSince`, `getRecentCommits`, `hasUncommittedChanges`, add, commit, tag, push, `gh release create`): process I/O. Their answers are the parameters `dirty`, `commits` and `recentCommits`. The created tag, commit and release are not modelled.
- File reads and writes: the changelog file is a parameter `existing` (`None` when it does not exist), and the written document is a result.
- JSON reading and writing of `plugin.json`: `Scripts.Plugin` holds only `version`. The 2-space formatting and the other fields are not modelled.
- The clock: the date of an entry is a parameter.
- Console output, the commit preview, `process.stdout.write` and `process.exit`: the exit paths are the constructors of `Scripts.Outcome`, and the new version is a result of `Scripts.BumpVersionMain`.
- Shell quoting of the release notes and the `try`/`catch` around release creation (scripts/release.js:241-248): shell plumbing.
- SemVer.BumpVersion: requires a version of three canonical numerals. JavaScript's `Number()` coercion of other fields (`NaN`, an empty field read as 0, leading zeros, hexadecimal, surrounding blanks) is not modelled.
- SemVer.Parse: rejects numerals with leading zeros, which `Number()` reads as decimal numbers.
- SemVer.Next: components are unbounded naturals. IEEE double rounding above 2^53 is not modelled.
- Strings.ToUpper: upper-cases ASCII letters only. `toUpperCase` also maps non-ASCII letters and can lengthen a string (`ß` becomes `SS`).
- Strings are sequences of Unicode scalar values, while JavaScript strings are sequences of UTF-16 code units. Every `.` of a pattern (the interpolated version's dots in `ReleaseNotes.PatternCharMatches`, the `^.` of `UpperFirst`) matches a whole character outside the Basic Multilingual Plane here, but only its first surrogate in JavaScript; indices and lengths count characters, not code units.
- ReleaseNotes.ChangelogSection: requires a version made of digits and dots, which is what `formatVersion` produces. Other characters would be regular-expression syntax.
- The release notes for the entry just written are not proved to equal its body. That would need assumptions about earlier headings in the document whose version pattern also matches.
