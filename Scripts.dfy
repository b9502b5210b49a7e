/**
  The main blocks of the two scripts, with the file system, `git`, `gh`,
  the clock and the console replaced by parameters and results: the bump
  type and the commit list they choose, the version they write into
  `plugin.json`, the changelog they write and, for scripts/release.js, the
  release notes it passes to `gh release create`.
 */
module Scripts {
  import opened Wrappers
  import opened SemVer
  import opened Conventional
  import opened Changelog
  import opened ReleaseNotes
  import opened CommitFormat

  /** The `version` field of `.claude-plugin/plugin.json`, the one field the scripts change. */
  class Plugin {
    var version: string

    constructor (version: string)
      ensures this.version == version
    {
      this.version := version;
    }
  }

  /** scripts/bump-version.js: `auto` is replaced by the type detected from the message; any other argument is used as given. */
  function BumpTypeArg(typeArg: Option<string>, messageArg: Option<string>): Option<string> {
    if typeArg == Some("auto") then Some(DetectBumpTypeOf(messageArg).Name()) else typeArg
  }

  /** scripts/bump-version.js: a non-empty message argument is the only commit; otherwise the recent commits. */
  function CommitsArg(messageArg: Option<string>, recentCommits: seq<string>): seq<string> {
    if messageArg.Some? && messageArg.value != "" then [messageArg.value] else recentCommits
  }

  /** With `auto`, the version is bumped by the kind the message calls for. */
  lemma AutoBumpFollowsMessage(current: string, messageArg: Option<string>)
    requires Parse(current).Some?
    ensures Parse(BumpVersion(current, BumpTypeArg(Some("auto"), messageArg)))
         == Some(Next(Parse(current).value, DetectBumpTypeOf(messageArg)))
  {
    BumpByKind(current, DetectBumpTypeOf(messageArg));
  }

  /** Without a type argument the patch number goes up. */
  lemma NoTypeBumpsPatch(current: string, messageArg: Option<string>)
    requires Parse(current).Some?
    ensures Parse(BumpVersion(current, BumpTypeArg(None, messageArg)))
         == Some(Next(Parse(current).value, Patch))
  {
  }

  /** With a message argument, the entry lists exactly that message, formatted. */
  lemma MessageIsTheOnlyBullet(message: string, recentCommits: seq<string>)
    requires message != ""
    ensures multiset(CategoryItems(Inclusive, CommitsArg(Some(message), recentCommits), Order(Inclusive)))
         == multiset{FormatCommit(message)}
  {
    InclusiveBulletsAreCommits([message]);
    assert [message][..0] == [];
  }

  /**
    The main block of scripts/bump-version.js: bump `plugin.version`,
    update the changelog, and return the new version (written to standard
    output), the document written and the entry.
   */
  method BumpVersionMain(plugin: Plugin, typeArg: Option<string>, messageArg: Option<string>,
                         recentCommits: seq<string>, date: string, existing: Option<string>)
    returns (newVersion: string, changelog: string, entry: string)
    requires Parse(plugin.version).Some?
    modifies plugin
    ensures newVersion == BumpVersion(old(plugin.version), BumpTypeArg(typeArg, messageArg))
    ensures plugin.version == newVersion
    ensures entry == Entry(Inclusive, newVersion, date, CommitsArg(messageArg, recentCommits))
    ensures changelog == Written(existing, entry)
  {
    var currentVersion := plugin.version;
    var bumpType := typeArg;
    var commitMessage := messageArg;
    if typeArg == Some("auto") {
      bumpType := Some(DetectBumpTypeOf(messageArg).Name());
    }
    var commits := if commitMessage.Some? && commitMessage.value != "" then [commitMessage.value] else recentCommits;
    newVersion := BumpVersion(currentVersion, bumpType);
    plugin.version := newVersion;
    changelog, entry := UpdateChangelog(newVersion, date, commits, existing);
  }

  /** scripts/release.js: `forcedType || detectBumpType(commits)`. */
  function ReleaseBumpType(forcedType: Option<string>, commits: seq<string>): string {
    if forcedType.Some? && forcedType.value != "" then forcedType.value else CommitsKind(commits).Name()
  }

  /** Without a forced type the release is bumped by the kind its commits call for. */
  lemma ReleaseBumpFollowsCommits(current: string, commits: seq<string>)
    requires Parse(current).Some?
    ensures Parse(BumpVersion(current, Some(ReleaseBumpType(None, commits))))
         == Some(Next(Parse(current).value, CommitsKind(commits)))
  {
    BumpByKind(current, CommitsKind(commits));
  }

  /** `--notes` with the section when it is non-empty, otherwise `--generate-notes` (`None`). */
  function NotesArg(section: Option<string>): (notes: Option<string>)
    ensures notes.Some? <==> section.Some? && section.value != ""
    ensures notes.Some? ==> notes == section
  {
    if section.Some? && section.value != "" then section else None
  }

  /** How a run of scripts/release.js ends. */
  datatype Outcome =
    | UncommittedChanges
    | NothingToRelease
    | Released(newVersion: string, changelog: Option<string>, notes: Option<string>)

  /**
    The main block of scripts/release.js. `dirty` is the answer of
    `git diff-index`, `commits` the subjects since the last tag, `existing`
    the changelog file (`None` when there is none). A release reports the
    new version, the changelog file afterwards and the release notes.
   */
  method ReleaseMain(plugin: Plugin, dirty: bool, forcedType: Option<string>, commits: seq<string>,
                     date: string, existing: Option<string>)
    returns (outcome: Outcome)
    requires !dirty && commits != [] ==> Parse(plugin.version).Some?
    modifies plugin
    ensures dirty ==> outcome == UncommittedChanges && plugin.version == old(plugin.version)
    ensures !dirty && commits == [] ==> outcome == NothingToRelease && plugin.version == old(plugin.version)
    ensures !dirty && commits != [] ==>
      var newVersion := BumpVersion(old(plugin.version), Some(ReleaseBumpType(forcedType, commits)));
      var file := if forall i | 0 <= i < |commits| :: CuratedCategory(commits[i]).None? then existing
                  else Some(Written(existing, Entry(Curated, newVersion, date, commits)));
      && plugin.version == newVersion
      && outcome == Released(newVersion, file, NotesArg(ChangelogSection(file, newVersion)))
  {
    if dirty {
      return UncommittedChanges;
    }
    if |commits| == 0 {
      return NothingToRelease;
    }
    var bumpType: string;
    if forcedType.Some? && forcedType.value != "" {
      bumpType := forcedType.value;
    } else {
      var detected := DetectBumpType(commits);
      bumpType := detected.Name();
    }
    var currentVersion := plugin.version;
    var newVersion := BumpVersion(currentVersion, Some(bumpType));
    plugin.version := newVersion;
    var written := GenerateChangelog(newVersion, date, commits, existing);
    var file := if written.Some? then written else existing;
    var releaseNotes := ChangelogSection(file, newVersion);
    outcome := Released(newVersion, file, NotesArg(releaseNotes));
  }
}
