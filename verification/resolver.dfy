/** The version resolver: `CalculateWithConfig` and the mode and prefix
    formatting of its result, over a repository snapshot, a configuration
    and a CI environment. */
module Resolver {
  import opened Wrappers
  import opened Strings
  import opened SemVer
  import opened Pep440
  import opened BranchNames
  import opened Git
  import Ci
  import Defaults

  /** The configuration.  `Option` fields are the optional (pointer) fields
      of the configuration file; for the string ones, an empty value counts
      as unset. */
  datatype Config = Config(
    mainBranch: string,
    mainBranches: seq<string>,
    tagPrefix: Option<string>,
    versionPrefix: Option<string>,
    useCIBranch: Option<bool>,
    ciProviders: map<string, string>,
    mainBranchBehavior: Option<string>,
    mode: Option<string>,
    initialVersion: Option<string>,
    outdatedBaseCheckMode: Option<string>,
    failOnOutdatedBase: Option<bool>)

  /** The CI environment: its variables and the order the provider table is
      iterated in. */
  datatype CiEnv = CiEnv(vars: map<string, string>, order: seq<string>)

  /** The fields of the JSON output. */
  datatype VersionOutput = VersionOutput(
    semver: string,
    semverWithPrefix: string,
    pep440: string,
    pep440WithPrefix: string,
    major: nat,
    minor: nat,
    patch: nat,
    isRelease: bool)

  /** What the resolver prints: a version string, or the JSON object. */
  datatype Output = Text(version: string) | Json(fields: VersionOutput)

  datatype VersionError =
    | ShallowClone
    | Git(gitError: GitError)
    | InvalidMode(mode: string)
    | Pep440Failed(pep440Error: Pep440Error)
    | JsonParseFailed(version: string)
    | InvalidMainBranchBehavior(behavior: string)
    | InvalidInitialVersion(version: string)
    | InitialVersionNotSemver(version: string)
    | InvalidOutdatedCheckMode(checkMode: string)
    | OutdatedBase(mainBranch: string)

  function WrapGit(e: GitError): VersionError {
    Git(e)
  }

  // ---------------------------------------------------------------------
  // Settings
  // ---------------------------------------------------------------------

  /** An optional string setting: its value when present and non-empty,
      else the default. */
  function Setting(o: Option<string>, default: string): (s: string)
    ensures o.Some? && o.value != "" ==> s == o.value
    ensures o.None? || o.value == "" ==> s == default
  {
    if o.Some? && o.value != "" then o.value else default
  }

  function ModeOf(cfg: Config): string {
    Setting(cfg.mode, Defaults.DefaultMode)
  }

  function TagPrefixOf(cfg: Config): string {
    cfg.tagPrefix.GetOr("")
  }

  function BehaviorOf(cfg: Config): string {
    Setting(cfg.mainBranchBehavior, Defaults.MainBranchBehavior)
  }

  function InitialTextOf(cfg: Config): string {
    Setting(cfg.initialVersion, Defaults.InitialVersion)
  }

  function CheckModeOf(cfg: Config): string {
    Setting(cfg.outdatedBaseCheckMode, Defaults.DefaultOutdatedCheckMode)
  }

  /** The main branch candidates: the list when given, else the single
      legacy `mainBranch` when set, else the defaults. */
  function MainBranchesOf(cfg: Config): (mains: seq<string>)
    ensures |cfg.mainBranches| > 0 ==> mains == cfg.mainBranches
    ensures |cfg.mainBranches| == 0 && cfg.mainBranch != "" ==> mains == [cfg.mainBranch]
    ensures |cfg.mainBranches| == 0 && cfg.mainBranch == "" ==> mains == Defaults.MainBranches
  {
    if |cfg.mainBranches| > 0 then cfg.mainBranches
    else if cfg.mainBranch != "" then [cfg.mainBranch]
    else Defaults.MainBranches
  }

  // ---------------------------------------------------------------------
  // Formatting
  // ---------------------------------------------------------------------

  /** `applyVersionPrefix`: a configured non-empty prefix goes in front. */
  function ApplyVersionPrefix(version: string, cfg: Config): (r: string)
    ensures cfg.versionPrefix.Some? && cfg.versionPrefix.value != "" ==> r == cfg.versionPrefix.value + version
    ensures cfg.versionPrefix.None? || cfg.versionPrefix.value == "" ==> r == version
  {
    if cfg.versionPrefix.Some? && cfg.versionPrefix.value != "" then cfg.versionPrefix.value + version
    else version
  }

  /** `applyVersionMode`: reject a mode outside the valid list, then render
      the version as semver (unchanged), as PEP 440, or as the JSON fields. */
  function ApplyVersionMode(version: string, cfg: Config): (r: Result<Output, VersionError>)
    ensures ModeOf(cfg) !in Defaults.ValidModes ==> r == Err(InvalidMode(ModeOf(cfg)))
    ensures ModeOf(cfg) == Defaults.ModeSemver ==> r == Ok(Text(version))
    ensures ModeOf(cfg) == Defaults.ModePep440 ==>
      && (r.Ok? <==> ConvertToPep440(version).Ok?)
      && (r.Ok? ==> r.value == Text(ConvertToPep440(version).value))
      && (r.Err? ==> r.error == Pep440Failed(ConvertToPep440(version).error))
    ensures r.Ok? ==> (r.value.Json? <==> ModeOf(cfg) == Defaults.ModeJson)
    // The JSON record carries the PEP 440 conversion, and calls the version a
    // release exactly when its text has no '-' anywhere, build metadata
    // included.
    ensures ModeOf(cfg) == Defaults.ModeJson && r.Ok? ==>
      && ConvertToPep440(version).Ok?
      && r.value.fields.pep440 == ConvertToPep440(version).value
      && (r.value.fields.isRelease <==> '-' !in version)
  {
    var mode := ModeOf(cfg);
    if mode !in Defaults.ValidModes then Err(InvalidMode(mode))
    else if mode == Defaults.ModeJson then
      var pep :- ConvertToPep440(version).MapFailure(e => Pep440Failed(e));
      match ParseVersion(version)
      case None => Err(JsonParseFailed(version))
      case Some(parsed) =>
        Ok(Json(VersionOutput(
          version, ApplyVersionPrefix(version, cfg),
          pep, ApplyVersionPrefix(pep, cfg),
          parsed.major, parsed.minor, parsed.patch,
          '-' !in version)))
    else if mode == Defaults.ModePep440 then
      var pep :- ConvertToPep440(version).MapFailure(e => Pep440Failed(e));
      Ok(Text(pep))
    else
      Ok(Text(version))
  }

  /** The last step of both paths: apply the mode, then, outside JSON mode,
      the version prefix. */
  function Render(version: string, cfg: Config): (r: Result<Output, VersionError>)
    ensures ApplyVersionMode(version, cfg).Err? ==> r == ApplyVersionMode(version, cfg)
    ensures ApplyVersionMode(version, cfg).Ok? ==> r.Ok?
    // Semver prints the version itself, PEP 440 its conversion, each behind
    // the version prefix.
    ensures ModeOf(cfg) == Defaults.ModeSemver ==> r == Ok(Text(ApplyVersionPrefix(version, cfg)))
    ensures ModeOf(cfg) == Defaults.ModePep440 && ConvertToPep440(version).Ok? ==>
      r == Ok(Text(ApplyVersionPrefix(ConvertToPep440(version).value, cfg)))
  {
    var out :- ApplyVersionMode(version, cfg);
    if ModeOf(cfg) != Defaults.ModeJson then Ok(Text(ApplyVersionPrefix(out.version, cfg)))
    else Ok(out)
  }

  // ---------------------------------------------------------------------
  // The calculation
  // ---------------------------------------------------------------------

  /** The branch being versioned: the one the CI environment reports, else
      the one HEAD names. */
  function CurrentBranch(repo: Repository, cfg: Config, ci: CiEnv): (r: Result<string, VersionError>)
    ensures Ci.DetectBranch(cfg.useCIBranch, cfg.ciProviders, ci.vars, ci.order).Some? ==>
      r == Ok(Ci.DetectBranch(cfg.useCIBranch, cfg.ciProviders, ci.vars, ci.order).value)
    ensures Ci.DetectBranch(cfg.useCIBranch, cfg.ciProviders, ci.vars, ci.order).None? ==>
      r == GetCurrentBranch(repo).MapFailure(WrapGit)
  {
    match Ci.DetectBranch(cfg.useCIBranch, cfg.ciProviders, ci.vars, ci.order)
    case Some(b) => Ok(b)
    case None => GetCurrentBranch(repo).MapFailure(WrapGit)
  }

  /** The base of the calculation: the most recent tag's version when its
      stripped name is valid semver, else the initial version. */
  datatype Base = Base(version: Version, fromTag: bool)

  function BaseOf(recentTag: string, prefix: string, initial: Version): (b: Base)
    ensures b.fromTag <==> recentTag != "" && IsValidSemver(StripTagPrefix(recentTag, prefix))
    ensures b.fromTag ==> Some(b.version) == ParseVersion(StripTagPrefix(recentTag, prefix))
    ensures !b.fromTag ==> b.version == initial
    ensures b.version.prerelease == "" || b.version == initial
  {
    var stripped := StripTagPrefix(recentTag, prefix);
    if recentTag == "" || !IsValidSemver(stripped) then Base(initial, false)
    else
      ValidSemverParses(stripped);
      Base(ParseVersion(stripped).value, true)
  }

  /** The version of a main branch commit.  In "pre" behaviour it is a
      prerelease "pre" numbered from the tag (or from the first commit); in
      "release" behaviour the patch counts the commits since the tag (or
      since the first commit). */
  function MainVersion(repo: Repository, behavior: string, base: Base, sinceTag: nat): (r: Result<Version, VersionError>)
    requires WellFormed(repo)
    // MAJOR.MINOR always come from the base.
    ensures r.Ok? ==> r.value.major == base.version.major && r.value.minor == base.version.minor
    // With a tag: the patch moves on by the distance to the tag; "pre" off
    // the tagged commit numbers the prerelease from 0.
    ensures base.fromTag ==> r.Ok? && r.value.patch == base.version.patch + sinceTag
    ensures base.fromTag && behavior == "pre" && sinceTag > 0 ==>
      r.value.prerelease == Defaults.PrereleaseId && r.value.build == sinceTag - 1
    ensures base.fromTag && (behavior != "pre" || sinceTag == 0) ==>
      r.value.prerelease == base.version.prerelease && r.value.build == base.version.build
    // Without a tag: the commit count from HEAD decides, and its error is the
    // only error.
    ensures !base.fromTag ==> (r.Err? <==> GetCommitCount(repo).Err?)
    ensures !base.fromTag && r.Err? ==> r == Err(Git(GetCommitCount(repo).error))
    ensures !base.fromTag && r.Ok? && behavior == "pre" ==>
      && r.value.patch == base.version.patch
      && r.value.prerelease == Defaults.PrereleaseId
      && r.value.build + 1 == GetCommitCount(repo).value
    ensures !base.fromTag && r.Ok? && behavior != "pre" ==>
      && r.value.patch + 1 == base.version.patch + GetCommitCount(repo).value
      && r.value.prerelease == base.version.prerelease
      && r.value.build == base.version.build
  {
    if behavior == "pre" then
      if base.fromTag then
        var v := base.version.(patch := base.version.patch + sinceTag);
        if sinceTag > 0 then Ok(v.(prerelease := Defaults.PrereleaseId, build := sinceTag - 1)) else Ok(v)
      else
        var count :- GetCommitCount(repo).MapFailure(WrapGit);
        assert count >= 1 by {
          assert repo.log[HeadCommit(repo).value][0] == HeadCommit(repo).value;
        }
        Ok(base.version.(prerelease := Defaults.PrereleaseId, build := count - 1))
    else
      if base.fromTag then Ok(base.version.(patch := base.version.patch + sinceTag))
      else
        var count :- GetCommitCount(repo).MapFailure(WrapGit);
        if count > 1 then Ok(base.version.(patch := base.version.patch + (count - 1)))
        else Ok(base.version)
  }

  /** The outdated-base check, with its own errors swallowed: "tagged" asks
      for new tags on the main branch since the branch point, "all" for any
      new commit. */
  function IsOutdated(repo: Repository, checkMode: string, mainBranch: string, current: string): (b: bool)
    ensures b <==>
      || (checkMode == Defaults.OutdatedCheckModeTagged
          && CheckMainBranchHasNewTags(repo, mainBranch, current).Ok?
          && CheckMainBranchHasNewTags(repo, mainBranch, current).value.0)
      || (checkMode == Defaults.OutdatedCheckModeAll
          && CheckMainBranchHasNewCommits(repo, mainBranch, current) == Ok(true))
  {
    if checkMode == Defaults.OutdatedCheckModeTagged then
      match CheckMainBranchHasNewTags(repo, mainBranch, current)
      case Ok(found) => found.0
      case Err(_) => false
    else if checkMode == Defaults.OutdatedCheckModeAll then
      match CheckMainBranchHasNewCommits(repo, mainBranch, current)
      case Ok(found) => found
      case Err(_) => false
    else false
  }

  /** The patch of a feature branch version: the next patch after the base
      tag plus the main branch's commits since the branch point, or the main
      branch's commit count when there is no tag.  The outdated-base check
      runs here, between counting and computing. */
  function FeaturePatch(repo: Repository, cfg: Config, mainBranch: string, current: string,
                        base: Base, mainCount: nat): (r: Result<nat, VersionError>)
    ensures GetMainBranchCommitsSinceBranchPoint(repo, mainBranch, current).Err? ==>
      r == Err(Git(GetMainBranchCommitsSinceBranchPoint(repo, mainBranch, current).error))
    ensures GetMainBranchCommitsSinceBranchPoint(repo, mainBranch, current).Ok?
      && Setting(cfg.outdatedBaseCheckMode, Defaults.DefaultOutdatedCheckMode) !in Defaults.ValidOutdatedCheckModes
      ==> r == Err(InvalidOutdatedCheckMode(Setting(cfg.outdatedBaseCheckMode, Defaults.DefaultOutdatedCheckMode)))
    ensures r.Err? && r.error.OutdatedBase? ==> cfg.failOnOutdatedBase == Some(true) && r.error.mainBranch == mainBranch
    // The outdated-base error: the count succeeded, the check mode is valid,
    // the check finds the base outdated and failing is switched on.
    ensures r == Err(OutdatedBase(mainBranch)) <==>
      && GetMainBranchCommitsSinceBranchPoint(repo, mainBranch, current).Ok?
      && CheckModeOf(cfg) in Defaults.ValidOutdatedCheckModes
      && IsOutdated(repo, CheckModeOf(cfg), mainBranch, current)
      && cfg.failOnOutdatedBase == Some(true)
    // Otherwise it succeeds: the next patch after the tag plus the main
    // branch's commits since the branch point, or the main commit count
    // when there is no tag.
    ensures && GetMainBranchCommitsSinceBranchPoint(repo, mainBranch, current).Ok?
            && CheckModeOf(cfg) in Defaults.ValidOutdatedCheckModes
            && !(IsOutdated(repo, CheckModeOf(cfg), mainBranch, current) && cfg.failOnOutdatedBase == Some(true))
            ==> r == Ok(if base.fromTag
                        then base.version.patch + 1 + GetMainBranchCommitsSinceBranchPoint(repo, mainBranch, current).value
                        else mainCount)
  {
    var mainSince :- GetMainBranchCommitsSinceBranchPoint(repo, mainBranch, current).MapFailure(WrapGit);
    var checkMode := CheckModeOf(cfg);
    if checkMode !in Defaults.ValidOutdatedCheckModes then Err(InvalidOutdatedCheckMode(checkMode))
    else if IsOutdated(repo, checkMode, mainBranch, current) && cfg.failOnOutdatedBase == Some(true) then
      Err(OutdatedBase(mainBranch))
    else if base.fromTag then Ok(base.version.patch + 1 + mainSince)
    else Ok(mainCount)
  }

  /** The version of a feature branch commit: the feature patch, the
      sanitised branch name as prerelease, and the branch's own commits since
      the branch point as counter. */
  function FeatureVersion(repo: Repository, cfg: Config, mainBranch: string, current: string,
                          base: Base, mainCount: nat): (r: Result<Version, VersionError>)
    ensures r.Ok? <==>
      FeaturePatch(repo, cfg, mainBranch, current, base, mainCount).Ok?
      && GetCommitCountSinceBranchPoint(repo, mainBranch, current).Ok?
    ensures FeaturePatch(repo, cfg, mainBranch, current, base, mainCount).Err? ==>
      r == Err(FeaturePatch(repo, cfg, mainBranch, current, base, mainCount).error)
    ensures r.Ok? ==>
      && r.value.major == base.version.major
      && r.value.minor == base.version.minor
      && r.value.patch == FeaturePatch(repo, cfg, mainBranch, current, base, mainCount).value
      && r.value.prerelease == SanitizeBranchName(current)
      && r.value.build == GetCommitCountSinceBranchPoint(repo, mainBranch, current).value
  {
    var patch :- FeaturePatch(repo, cfg, mainBranch, current, base, mainCount);
    var branchCount :- GetCommitCountSinceBranchPoint(repo, mainBranch, current).MapFailure(WrapGit);
    Ok(base.version.(patch := patch, prerelease := SanitizeBranchName(current), build := branchCount))
  }

  /** The first two lookups of the computation succeed: a main branch
      exists and the behaviour is a valid one. */
  predicate BranchAndBehaviorOk(repo: Repository, cfg: Config) {
    GetMainBranch(repo, MainBranchesOf(cfg)).Ok? && BehaviorOf(cfg) in Defaults.ValidMainBranchBehaviors
  }

  /** ... and so does the current-branch lookup, */
  predicate HasCurrentBranch(repo: Repository, cfg: Config, ci: CiEnv) {
    BranchAndBehaviorOk(repo, cfg) && CurrentBranch(repo, cfg, ci).Ok?
  }

  /** ... and the most recent tag lookup, */
  predicate HasRecentTag(repo: Repository, cfg: Config, ci: CiEnv) {
    HasCurrentBranch(repo, cfg, ci) && GetMostRecentTag(repo, TagPrefixOf(cfg)).Ok?
  }

  /** ... and the initial version parses and is valid semver. */
  predicate HasInitialVersion(repo: Repository, cfg: Config, ci: CiEnv) {
    HasRecentTag(repo, cfg, ci) && ParseVersion(InitialTextOf(cfg)).Some? && IsValidSemver(InitialTextOf(cfg))
  }

  /** The commit count of the main branch the configuration selects. */
  function MainCountOf(repo: Repository, cfg: Config): Result<nat, GitError>
    requires GetMainBranch(repo, MainBranchesOf(cfg)).Ok?
  {
    GetMainBranchCommitCount(repo, GetMainBranch(repo, MainBranchesOf(cfg)).value)
  }

  /** The part of `CalculateWithConfig` after the HEAD-tag shortcut: the
      computed version. */
  function ComputeVersion(repo: Repository, cfg: Config, ci: CiEnv): (r: Result<Version, VersionError>)
    requires WellFormed(repo)
    ensures GetMainBranch(repo, MainBranchesOf(cfg)).Err? ==> r == Err(Git(NoMainBranch(MainBranchesOf(cfg))))
    ensures GetMainBranch(repo, MainBranchesOf(cfg)).Ok?
      && Setting(cfg.mainBranchBehavior, Defaults.MainBranchBehavior) !in Defaults.ValidMainBranchBehaviors
      ==> r == Err(InvalidMainBranchBehavior(Setting(cfg.mainBranchBehavior, Defaults.MainBranchBehavior)))
    // After these two, the lookups fail in the order the code makes them.
    ensures BranchAndBehaviorOk(repo, cfg) && CurrentBranch(repo, cfg, ci).Err? ==>
      r == Err(CurrentBranch(repo, cfg, ci).error)
    ensures HasCurrentBranch(repo, cfg, ci) && GetMostRecentTag(repo, TagPrefixOf(cfg)).Err? ==>
      r == Err(Git(GetMostRecentTag(repo, TagPrefixOf(cfg)).error))
    ensures HasRecentTag(repo, cfg, ci) && ParseVersion(InitialTextOf(cfg)).None? ==>
      r == Err(InvalidInitialVersion(InitialTextOf(cfg)))
    ensures HasRecentTag(repo, cfg, ci) && ParseVersion(InitialTextOf(cfg)).Some? && !IsValidSemver(InitialTextOf(cfg)) ==>
      r == Err(InitialVersionNotSemver(InitialTextOf(cfg)))
    ensures HasInitialVersion(repo, cfg, ci) && MainCountOf(repo, cfg).Err? ==>
      r == Err(Git(MainCountOf(repo, cfg).error))
    ensures r.Ok? ==> IsValidSemver(InitialTextOf(cfg))
  {
    var mains := MainBranchesOf(cfg);
    var mainBranch :- GetMainBranch(repo, mains).MapFailure(WrapGit);
    var behavior := BehaviorOf(cfg);
    if behavior !in Defaults.ValidMainBranchBehaviors then Err(InvalidMainBranchBehavior(behavior))
    else
      var current :- CurrentBranch(repo, cfg, ci);
      var recent :- GetMostRecentTag(repo, TagPrefixOf(cfg)).MapFailure(WrapGit);
      var initialText := InitialTextOf(cfg);
      match ParseVersion(initialText)
      case None => Err(InvalidInitialVersion(initialText))
      case Some(initial) =>
        if !IsValidSemver(initialText) then Err(InitialVersionNotSemver(initialText))
        else
          var base := BaseOf(recent.0, TagPrefixOf(cfg), initial);
          var mainCount :- GetMainBranchCommitCount(repo, mainBranch).MapFailure(WrapGit);
          if IsMainBranch(current, mains) then MainVersion(repo, behavior, base, recent.1)
          else FeatureVersion(repo, cfg, mainBranch, current, base, mainCount)
  }

  /** The tag on HEAD when, after prefix stripping, it is valid semver. */
  function UsableHeadTag(repo: Repository, cfg: Config): (r: Result<Option<string>, VersionError>)
    ensures r.Err? <==> HeadCommit(repo).Err?
    ensures r.Ok? && r.value.Some? ==> IsValidSemver(r.value.value)
    // The tag on HEAD is usable exactly when it is there and valid semver
    // once stripped, and then the stripped name is what is used.
    ensures r.Ok? ==>
      var tag := GetTagOnCurrentCommit(repo).value;
      && (r.value.Some? <==> tag != "" && IsValidSemver(StripTagPrefix(tag, TagPrefixOf(cfg))))
      && (r.value.Some? ==> r.value.value == StripTagPrefix(tag, TagPrefixOf(cfg)))
  {
    var tag :- GetTagOnCurrentCommit(repo).MapFailure(WrapGit);
    var stripped := StripTagPrefix(tag, TagPrefixOf(cfg));
    if tag != "" && IsValidSemver(stripped) then Ok(Some(stripped)) else Ok(None)
  }

  /** `CalculateWithConfig`: refuse a shallow clone; use a valid tag on
      HEAD as it is; otherwise compute the version from the branch, the most
      recent tag and the commit counts; then format it. */
  function CalculateWithConfig(repo: Repository, cfg: Config, ci: CiEnv): (r: Result<Output, VersionError>)
    requires WellFormed(repo)
    ensures repo.shallow ==> r == Err(ShallowClone)
    ensures !repo.shallow && HeadCommit(repo).Err? ==> r == Err(Git(HeadUnresolved))
  {
    if repo.shallow then Err(ShallowClone)
    else
      var headTag :- UsableHeadTag(repo, cfg);
      if headTag.Some? then Render(headTag.value, cfg)
      else
        var v :- ComputeVersion(repo, cfg, ci);
        Render(ToString(v), cfg)
  }

  // ---------------------------------------------------------------------
  // Properties
  // ---------------------------------------------------------------------

  /** Without a usable tag on HEAD, the result is the computed version,
      rendered; an error of the computation is the result. */
  lemma ComputedPathRenders(repo: Repository, cfg: Config, ci: CiEnv)
    requires WellFormed(repo) && !repo.shallow
    requires UsableHeadTag(repo, cfg) == Ok(None)
    ensures ComputeVersion(repo, cfg, ci).Err? ==>
      CalculateWithConfig(repo, cfg, ci) == Err(ComputeVersion(repo, cfg, ci).error)
    ensures ComputeVersion(repo, cfg, ci).Ok? ==>
      CalculateWithConfig(repo, cfg, ci) == Render(ToString(ComputeVersion(repo, cfg, ci).value), cfg)
  {
  }

  /** In semver mode the printed text is the computed version's rendering,
      behind the version prefix. */
  lemma SemverPrintsComputed(repo: Repository, cfg: Config, ci: CiEnv)
    requires WellFormed(repo) && !repo.shallow
    requires ModeOf(cfg) == Defaults.ModeSemver
    requires UsableHeadTag(repo, cfg) == Ok(None)
    requires ComputeVersion(repo, cfg, ci).Ok?
    ensures CalculateWithConfig(repo, cfg, ci)
      == Ok(Text(ApplyVersionPrefix(ToString(ComputeVersion(repo, cfg, ci).value), cfg)))
  {
    ComputedPathRenders(repo, cfg, ci);
  }

  /** A tag on HEAD that is valid semver after stripping decides the
      version by itself: it is formatted as it is and no branch lookup is
      made. */
  lemma HeadTagWins(repo: Repository, cfg: Config, ci: CiEnv, tag: string)
    requires WellFormed(repo) && !repo.shallow
    requires GetTagOnCurrentCommit(repo) == Ok(tag)
    requires tag != "" && IsValidSemver(StripTagPrefix(tag, TagPrefixOf(cfg)))
    ensures CalculateWithConfig(repo, cfg, ci) == Render(StripTagPrefix(tag, TagPrefixOf(cfg)), cfg)
  {
    assert UsableHeadTag(repo, cfg) == Ok(Some(StripTagPrefix(tag, TagPrefixOf(cfg))));
  }

  /** Rendering reads only the mode and the version prefix. */
  lemma RenderReadsModeAndPrefix(version: string, cfg1: Config, cfg2: Config)
    requires cfg1.mode == cfg2.mode && cfg1.versionPrefix == cfg2.versionPrefix
    ensures Render(version, cfg1) == Render(version, cfg2)
  {
    assert forall v :: ApplyVersionPrefix(v, cfg1) == ApplyVersionPrefix(v, cfg2);
    assert ApplyVersionMode(version, cfg1) == ApplyVersionMode(version, cfg2);
  }

  /** With such a tag on HEAD, neither the CI environment nor the branch,
      behaviour, initial-version or outdated-base settings affect the result. */
  lemma HeadTagIgnoresBranchSettings(repo: Repository, cfg1: Config, cfg2: Config, ci1: CiEnv, ci2: CiEnv, tag: string)
    requires WellFormed(repo) && !repo.shallow
    requires GetTagOnCurrentCommit(repo) == Ok(tag)
    requires cfg1.tagPrefix == cfg2.tagPrefix && cfg1.mode == cfg2.mode && cfg1.versionPrefix == cfg2.versionPrefix
    requires tag != "" && IsValidSemver(StripTagPrefix(tag, TagPrefixOf(cfg1)))
    ensures CalculateWithConfig(repo, cfg1, ci1) == CalculateWithConfig(repo, cfg2, ci2)
  {
    HeadTagWins(repo, cfg1, ci1, tag);
    HeadTagWins(repo, cfg2, ci2, tag);
    RenderReadsModeAndPrefix(StripTagPrefix(tag, TagPrefixOf(cfg1)), cfg1, cfg2);
  }

  // ---------------------------------------------------------------------
  // Main branch
  // ---------------------------------------------------------------------

  /** With a tag in history, both behaviours give the same MAJOR.MINOR.PATCH
      (the tag's patch plus the distance); "pre" only adds the prerelease,
      and only off the tagged commit. */
  lemma MainBehaviorsShareCore(repo: Repository, base: Base, sinceTag: nat)
    requires WellFormed(repo) && base.fromTag && base.version.prerelease == ""
    ensures var pre := MainVersion(repo, "pre", base, sinceTag);
      var rel := MainVersion(repo, "release", base, sinceTag);
      && pre.Ok? && rel.Ok?
      && pre.value.(prerelease := "", build := 0) == rel.value.(build := 0)
      && rel.value.prerelease == ""
      && rel.value.patch == base.version.patch + sinceTag
      && (pre.value.prerelease == "" <==> sinceTag == 0)
  {
  }

  /** Without a tag in history, the first commit gets the initial version
      ("release") or its first prerelease, numbered 0 ("pre"). */
  lemma FirstCommitGetsInitialVersion(repo: Repository, base: Base, sinceTag: nat)
    requires WellFormed(repo) && !base.fromTag
    requires GetCommitCount(repo) == Ok(1)
    ensures MainVersion(repo, "release", base, sinceTag) == Ok(base.version)
    ensures MainVersion(repo, "pre", base, sinceTag) == Ok(base.version.(prerelease := Defaults.PrereleaseId, build := 0))
  {
  }

  /** Without a tag in history, in "release" behaviour each commit of the
      walk from HEAD adds one to the initial patch. */
  lemma ReleasePatchCountsCommits(repo: Repository, base: Base, sinceTag: nat)
    requires WellFormed(repo) && !base.fromTag
    requires GetCommitCount(repo).Ok?
    ensures MainVersion(repo, "release", base, sinceTag).Ok?
    ensures MainVersion(repo, "release", base, sinceTag).value.patch + 1
      == base.version.patch + GetCommitCount(repo).value
  {
    assert repo.log[HeadCommit(repo).value][0] == HeadCommit(repo).value;
  }

  // ---------------------------------------------------------------------
  // Feature branches
  // ---------------------------------------------------------------------

  /** A feature branch built on a tag is versioned ahead of that tag: its
      patch is the tag's plus one plus the main branch's commits since the
      branch point.  Without a tag it is the main branch's commit count. */
  lemma FeatureAheadOfTag(repo: Repository, cfg: Config, mainBranch: string, current: string,
                          base: Base, mainCount: nat)
    requires FeaturePatch(repo, cfg, mainBranch, current, base, mainCount).Ok?
    ensures var patch := FeaturePatch(repo, cfg, mainBranch, current, base, mainCount).value;
      && GetMainBranchCommitsSinceBranchPoint(repo, mainBranch, current).Ok?
      && (base.fromTag ==>
            && patch == base.version.patch + 1 + GetMainBranchCommitsSinceBranchPoint(repo, mainBranch, current).value
            && TagSelection.IsGreaterThan(Core(base.version.major, base.version.minor, patch),
                 Core(base.version.major, base.version.minor, base.version.patch)))
      && (!base.fromTag ==> patch == mainCount)
  {
  }

  /** The outdated-base check never changes the version: with failing
      switched off the result is the same, so switching it on can only turn
      a result into an error. */
  lemma OutdatedCheckKeepsVersion(repo: Repository, cfg: Config, mainBranch: string, current: string,
                                  base: Base, mainCount: nat)
    requires FeatureVersion(repo, cfg, mainBranch, current, base, mainCount).Ok?
    ensures FeatureVersion(repo, cfg.(failOnOutdatedBase := None), mainBranch, current, base, mainCount)
      == FeatureVersion(repo, cfg, mainBranch, current, base, mainCount)
  {
    var relaxed := cfg.(failOnOutdatedBase := None);
    assert FeaturePatch(repo, cfg, mainBranch, current, base, mainCount).Ok?;
    OutdatedCheckKeepsPatch(repo, cfg, mainBranch, current, base, mainCount);
    FeatureVersionReadsPatch(repo, relaxed, cfg, mainBranch, current, base, mainCount);
  }

  lemma OutdatedCheckKeepsPatch(repo: Repository, cfg: Config, mainBranch: string, current: string,
                                base: Base, mainCount: nat)
    requires FeaturePatch(repo, cfg, mainBranch, current, base, mainCount).Ok?
    ensures FeaturePatch(repo, cfg.(failOnOutdatedBase := None), mainBranch, current, base, mainCount)
      == FeaturePatch(repo, cfg, mainBranch, current, base, mainCount)
  {
  }

  /** A feature version depends on the configuration only through its patch. */
  lemma FeatureVersionReadsPatch(repo: Repository, cfg1: Config, cfg2: Config, mainBranch: string, current: string,
                                 base: Base, mainCount: nat)
    requires FeaturePatch(repo, cfg1, mainBranch, current, base, mainCount)
      == FeaturePatch(repo, cfg2, mainBranch, current, base, mainCount)
    ensures FeatureVersion(repo, cfg1, mainBranch, current, base, mainCount)
      == FeatureVersion(repo, cfg2, mainBranch, current, base, mainCount)
  {
  }

  /** With failing switched on, an outdated base is an error: in "all" mode
      that is any new commit on the main branch since the branch point. */
  lemma OutdatedBaseFails(repo: Repository, cfg: Config, mainBranch: string, current: string,
                          base: Base, mainCount: nat)
    requires cfg.failOnOutdatedBase == Some(true)
    requires CheckModeOf(cfg) == Defaults.OutdatedCheckModeAll
    requires GetMainBranchCommitsSinceBranchPoint(repo, mainBranch, current).Ok?
    requires CheckMainBranchHasNewCommits(repo, mainBranch, current) == Ok(true)
    ensures FeatureVersion(repo, cfg, mainBranch, current, base, mainCount) == Err(OutdatedBase(mainBranch))
  {
    assert FeaturePatch(repo, cfg, mainBranch, current, base, mainCount) == Err(OutdatedBase(mainBranch));
  }

  /** In "tagged" mode an outdated base is a new tag on the main branch since
      the branch point; with failing switched on it is an error. */
  lemma OutdatedTagFails(repo: Repository, cfg: Config, mainBranch: string, current: string,
                         base: Base, mainCount: nat)
    requires cfg.failOnOutdatedBase == Some(true)
    requires CheckModeOf(cfg) == Defaults.OutdatedCheckModeTagged
    requires GetMainBranchCommitsSinceBranchPoint(repo, mainBranch, current).Ok?
    requires CheckMainBranchHasNewTags(repo, mainBranch, current).Ok?
    requires CheckMainBranchHasNewTags(repo, mainBranch, current).value.0
    ensures FeatureVersion(repo, cfg, mainBranch, current, base, mainCount) == Err(OutdatedBase(mainBranch))
  {
    assert FeaturePatch(repo, cfg, mainBranch, current, base, mainCount) == Err(OutdatedBase(mainBranch));
  }

  /** An unset or empty check mode is "tagged", so by default a new tag on
      the main branch since the branch point fails a feature branch when
      failing is switched on. */
  lemma DefaultCheckFailsOnNewTag(repo: Repository, cfg: Config, mainBranch: string, current: string,
                                  base: Base, mainCount: nat)
    requires cfg.failOnOutdatedBase == Some(true)
    requires cfg.outdatedBaseCheckMode.None? || cfg.outdatedBaseCheckMode.value == ""
    requires GetMainBranchCommitsSinceBranchPoint(repo, mainBranch, current).Ok?
    requires CheckMainBranchHasNewTags(repo, mainBranch, current).Ok?
    requires CheckMainBranchHasNewTags(repo, mainBranch, current).value.0
    ensures CheckModeOf(cfg) == Defaults.OutdatedCheckModeTagged
    ensures FeatureVersion(repo, cfg, mainBranch, current, base, mainCount) == Err(OutdatedBase(mainBranch))
  {
    OutdatedTagFails(repo, cfg, mainBranch, current, base, mainCount);
  }

  // ---------------------------------------------------------------------
  // The result as a whole
  // ---------------------------------------------------------------------

  /** A main-branch version keeps the base's prerelease or is a "pre"
      prerelease. */
  lemma MainVersionPrerelease(repo: Repository, behavior: string, base: Base, sinceTag: nat)
    requires WellFormed(repo)
    requires MainVersion(repo, behavior, base, sinceTag).Ok?
    ensures var p := MainVersion(repo, behavior, base, sinceTag).value.prerelease;
      p == base.version.prerelease || p == Defaults.PrereleaseId
  {
  }

  /** The prerelease of a computed version is empty, "pre" on a main
      branch, or the sanitised name of the current branch. */
  lemma ComputedPrerelease(repo: Repository, cfg: Config, ci: CiEnv)
    requires WellFormed(repo)
    requires ComputeVersion(repo, cfg, ci).Ok?
    ensures var p := ComputeVersion(repo, cfg, ci).value.prerelease;
      || p == ""
      || p == Defaults.PrereleaseId
      || (CurrentBranch(repo, cfg, ci).Ok? && p == SanitizeBranchName(CurrentBranch(repo, cfg, ci).value))
  {
    var mains := MainBranchesOf(cfg);
    var mainBranch := GetMainBranch(repo, mains).value;
    var behavior := Setting(cfg.mainBranchBehavior, Defaults.MainBranchBehavior);
    var current := CurrentBranch(repo, cfg, ci).value;
    var recent := GetMostRecentTag(repo, TagPrefixOf(cfg)).value;
    var initialText := Setting(cfg.initialVersion, Defaults.InitialVersion);
    var initial := ParseVersion(initialText).value;
    var base := BaseOf(recent.0, TagPrefixOf(cfg), initial);
    assert base.version.prerelease == "";
    var mainCount := GetMainBranchCommitCount(repo, mainBranch).value;
    if IsMainBranch(current, mains) {
      MainVersionPrerelease(repo, behavior, base, recent.1);
    }
  }

  /** Once the main branch, the behaviour, the current branch, the most
      recent tag, the initial version and the main branch's commit count are
      all in hand, a main branch gets `MainVersion` and any other branch
      `FeatureVersion`, both from the same base; that base never carries a
      prerelease, so "release" behaviour without a tag gives none. */
  lemma ComputeDispatch(repo: Repository, cfg: Config, ci: CiEnv)
    requires WellFormed(repo)
    requires GetMainBranch(repo, MainBranchesOf(cfg)).Ok?
    requires Setting(cfg.mainBranchBehavior, Defaults.MainBranchBehavior) in Defaults.ValidMainBranchBehaviors
    requires CurrentBranch(repo, cfg, ci).Ok?
    requires GetMostRecentTag(repo, TagPrefixOf(cfg)).Ok?
    requires ParseVersion(Setting(cfg.initialVersion, Defaults.InitialVersion)).Some?
    requires IsValidSemver(Setting(cfg.initialVersion, Defaults.InitialVersion))
    requires GetMainBranchCommitCount(repo, GetMainBranch(repo, MainBranchesOf(cfg)).value).Ok?
    ensures
      var mains := MainBranchesOf(cfg);
      var mainBranch := GetMainBranch(repo, mains).value;
      var behavior := Setting(cfg.mainBranchBehavior, Defaults.MainBranchBehavior);
      var current := CurrentBranch(repo, cfg, ci).value;
      var recent := GetMostRecentTag(repo, TagPrefixOf(cfg)).value;
      var initial := ParseVersion(Setting(cfg.initialVersion, Defaults.InitialVersion)).value;
      var base := BaseOf(recent.0, TagPrefixOf(cfg), initial);
      var mainCount := GetMainBranchCommitCount(repo, mainBranch).value;
      && base.version.prerelease == ""
      && (IsMainBranch(current, mains) ==> ComputeVersion(repo, cfg, ci) == MainVersion(repo, behavior, base, recent.1))
      && (!IsMainBranch(current, mains) ==>
            ComputeVersion(repo, cfg, ci) == FeatureVersion(repo, cfg, mainBranch, current, base, mainCount))
  {
  }

  /** On a main branch in "release" behaviour, a computed version never has
      a prerelease. */
  lemma ReleaseHasNoPrerelease(repo: Repository, cfg: Config, ci: CiEnv)
    requires WellFormed(repo)
    requires ComputeVersion(repo, cfg, ci).Ok?
    requires Setting(cfg.mainBranchBehavior, Defaults.MainBranchBehavior) == "release"
    requires CurrentBranch(repo, cfg, ci).Ok? && IsMainBranch(CurrentBranch(repo, cfg, ci).value, MainBranchesOf(cfg))
    ensures ComputeVersion(repo, cfg, ci).value.prerelease == ""
  {
    ComputeDispatch(repo, cfg, ci);
  }

  /** A numeral of two or more digits starting with '0': SemVer forbids it
      as a prerelease identifier. */
  predicate LeadingZeroNumeral(s: string) {
    |s| > 1 && AllDigits(s) && s[0] == '0'
  }

  /** A sanitised branch name is a valid prerelease unless it is a numeral
      with a leading zero. */
  lemma SanitizedIsPrerelease(s: string)
    requires IsSanitized(s) && !LeadingZeroNumeral(s)
    ensures IsPrerelease(s)
  {
    SanitizedPrereleaseIdentifier(s);
    SplitNoSeparator(s, '.');
    assert forall i :: 0 <= i < |s| ==> IsIdentifierChar(s[i]);
  }

  lemma PreIsPrerelease()
    ensures IsPrerelease(Defaults.PrereleaseId)
  {
    var p := Defaults.PrereleaseId;
    assert p == "pre";
    assert '.' !in p;
    SplitNoSeparator(p, '.');
    assert !IsDigit(p[0]);
  }

  /** In semver mode without a version prefix, a successful result is valid
      Semantic Versioning 2.0.0, provided the current branch does not
      sanitise to a numeral with a leading zero (branch "007" yields
      "M.m.p-007.N", which SemVer rejects). */
  lemma SemverOutputIsValid(repo: Repository, cfg: Config, ci: CiEnv)
    requires WellFormed(repo)
    requires ModeOf(cfg) == Defaults.ModeSemver
    requires cfg.versionPrefix.None? || cfg.versionPrefix.value == ""
    requires CurrentBranch(repo, cfg, ci).Ok? ==> !LeadingZeroNumeral(SanitizeBranchName(CurrentBranch(repo, cfg, ci).value))
    requires CalculateWithConfig(repo, cfg, ci).Ok?
    ensures CalculateWithConfig(repo, cfg, ci).value.Text?
    ensures IsValidSemver(CalculateWithConfig(repo, cfg, ci).value.version)
  {
    var head := UsableHeadTag(repo, cfg).value;
    if head.Some? {
      assert Render(head.value, cfg) == Ok(Text(head.value));
    } else {
      var v := ComputeVersion(repo, cfg, ci).value;
      ComputedPrerelease(repo, cfg, ci);
      if v.prerelease == Defaults.PrereleaseId {
        PreIsPrerelease();
      } else if v.prerelease != "" {
        SanitizedIsPrerelease(v.prerelease);
      }
      RenderingIsValidSemver(v);
      assert Render(ToString(v), cfg) == Ok(Text(ToString(v)));
    }
  }

  /** In PEP 440 mode without a version prefix, a computed version always
      converts, and the result is valid PEP 440. */
  lemma Pep440OutputIsValid(repo: Repository, cfg: Config, ci: CiEnv)
    requires WellFormed(repo) && !repo.shallow
    requires ModeOf(cfg) == Defaults.ModePep440
    requires cfg.versionPrefix.None? || cfg.versionPrefix.value == ""
    requires UsableHeadTag(repo, cfg) == Ok(None)
    requires ComputeVersion(repo, cfg, ci).Ok?
    ensures var v := ComputeVersion(repo, cfg, ci).value;
      && ConvertToPep440(ToString(v)).Ok?
      && CalculateWithConfig(repo, cfg, ci) == Ok(Text(ConvertToPep440(ToString(v)).value))
      && IsValidPep440(ConvertToPep440(ToString(v)).value)
  {
    var v := ComputeVersion(repo, cfg, ci).value;
    ConvertRenderingIsValid(v);
  }

  /** The exception in `SemverOutputIsValid` is real: any version whose
      prerelease is "007" (the sanitised name of branch "007", see
      `LeadingZeroBranchSurvives`) is rejected by the SemVer check. */
  lemma LeadingZeroBranchBreaksSemver(v: Version)
    requires v.prerelease == "007"
    ensures !IsValidSemver(ToString(v))
  {
    var n := NatToString(v.build);
    assert '+' !in v.prerelease by {
      assert v.prerelease == ['0', '0', '7'];
    }
    assert '.' !in n by {
      assert forall i :: 0 <= i < |n| ==> IsDigit(n[i]);
    }
    PrereleaseSection(v);
    LeadingZeroPrerelease(n);
    InvalidPrereleaseRejected(ToString(v));
  }

  /** "007" followed by a counter is not a valid prerelease. */
  lemma LeadingZeroPrerelease(n: string)
    requires '.' !in n
    ensures !IsPrerelease("007" + "." + n)
  {
    var q := "007" + "." + n;
    assert q == "007" + ['.'] + n;
    SplitAtFirst("007", '.', n);
    assert Split(q, '.')[0] == "007";
    assert !IsPrereleaseIdentifier("007");
  }

  /** Branch "007" is its own sanitised name. */
  lemma LeadingZeroBranchSurvives()
    ensures SanitizeBranchName("007") == "007"
  {
    assert IsSanitized("007");
    SanitizedIsFixedPoint("007");
  }

  // ---------------------------------------------------------------------
  // Formatting
  // ---------------------------------------------------------------------

  /** The computed version does not depend on the output settings. */
  lemma ComputeIgnoresFormatting(repo: Repository, cfg1: Config, cfg2: Config, ci: CiEnv)
    requires WellFormed(repo)
    requires cfg1.(mode := None, versionPrefix := None) == cfg2.(mode := None, versionPrefix := None)
    ensures ComputeVersion(repo, cfg1, ci) == ComputeVersion(repo, cfg2, ci)
  {
    ComputeWithoutFormatting(repo, cfg1, ci);
    ComputeWithoutFormatting(repo, cfg2, ci);
  }

  /** Clearing the output settings leaves the computed version alone. */
  lemma ComputeWithoutFormatting(repo: Repository, cfg: Config, ci: CiEnv)
    requires WellFormed(repo)
    ensures ComputeVersion(repo, cfg, ci) == ComputeVersion(repo, cfg.(mode := None, versionPrefix := None), ci)
  {
    var c0 := cfg.(mode := None, versionPrefix := None);
    assert MainBranchesOf(cfg) == MainBranchesOf(c0);
    assert TagPrefixOf(cfg) == TagPrefixOf(c0);
    assert CurrentBranch(repo, cfg, ci) == CurrentBranch(repo, c0, ci);
    var mains := MainBranchesOf(cfg);
    var initialText := Setting(cfg.initialVersion, Defaults.InitialVersion);
    if && GetMainBranch(repo, mains).Ok?
       && Setting(cfg.mainBranchBehavior, Defaults.MainBranchBehavior) in Defaults.ValidMainBranchBehaviors
       && CurrentBranch(repo, cfg, ci).Ok?
       && GetMostRecentTag(repo, TagPrefixOf(cfg)).Ok?
       && ParseVersion(initialText).Some? && IsValidSemver(initialText)
       && GetMainBranchCommitCount(repo, GetMainBranch(repo, mains).value).Ok?
    {
      ComputeDispatch(repo, cfg, ci);
      ComputeDispatch(repo, c0, ci);
      var recent := GetMostRecentTag(repo, TagPrefixOf(cfg)).value;
      var base := BaseOf(recent.0, TagPrefixOf(cfg), ParseVersion(initialText).value);
      var mainBranch := GetMainBranch(repo, mains).value;
      FeatureIgnoresFormatting(repo, cfg, c0, mainBranch, CurrentBranch(repo, cfg, ci).value, base,
        GetMainBranchCommitCount(repo, mainBranch).value);
    }
  }

  /** The feature-branch version does not depend on the output settings. */
  lemma FeatureIgnoresFormatting(repo: Repository, cfg1: Config, cfg2: Config, mainBranch: string,
                                 current: string, base: Base, mainCount: nat)
    requires cfg1.(mode := None, versionPrefix := None) == cfg2.(mode := None, versionPrefix := None)
    ensures FeatureVersion(repo, cfg1, mainBranch, current, base, mainCount)
         == FeatureVersion(repo, cfg2, mainBranch, current, base, mainCount)
  {
    assert FeaturePatch(repo, cfg1, mainBranch, current, base, mainCount)
        == FeaturePatch(repo, cfg2, mainBranch, current, base, mainCount);
    FeatureVersionReadsPatch(repo, cfg1, cfg2, mainBranch, current, base, mainCount);
  }

  /** Outside JSON mode, a version prefix is put in front of the text and
      changes nothing else. */
  lemma RenderWithPrefix(version: string, cfg: Config, p: string)
    requires ModeOf(cfg) != Defaults.ModeJson && p != ""
    ensures var plain := Render(version, cfg.(versionPrefix := None));
      var prefixed := Render(version, cfg.(versionPrefix := Some(p)));
      && (plain.Ok? <==> prefixed.Ok?)
      && (plain.Err? ==> prefixed == plain)
      && (plain.Ok? ==> plain.value.Text? && prefixed.value == Text(p + plain.value.version))
  {
    var c0, c1 := cfg.(versionPrefix := None), cfg.(versionPrefix := Some(p));
    assert ModeOf(c0) == ModeOf(c1) == ModeOf(cfg);
    assert ApplyVersionMode(version, c0) == ApplyVersionMode(version, c1);
  }

  /** Outside JSON mode, configuring a version prefix only puts it in front
      of the result; errors stay the same. */
  lemma PrefixOnlyPrepends(repo: Repository, cfg: Config, ci: CiEnv, p: string)
    requires WellFormed(repo)
    requires ModeOf(cfg) != Defaults.ModeJson && p != ""
    ensures var plain := CalculateWithConfig(repo, cfg.(versionPrefix := None), ci);
      var prefixed := CalculateWithConfig(repo, cfg.(versionPrefix := Some(p)), ci);
      && (plain.Ok? <==> prefixed.Ok?)
      && (plain.Err? ==> prefixed == plain)
      && (plain.Ok? ==> plain.value.Text? && prefixed.value == Text(p + plain.value.version))
  {
    var c0, c1 := cfg.(versionPrefix := None), cfg.(versionPrefix := Some(p));
    assert TagPrefixOf(c0) == TagPrefixOf(c1);
    assert UsableHeadTag(repo, c0) == UsableHeadTag(repo, c1);
    if !repo.shallow && UsableHeadTag(repo, c0).Ok? {
      var head := UsableHeadTag(repo, c0).value;
      if head.Some? {
        RenderWithPrefix(head.value, cfg, p);
      } else {
        ComputeIgnoresFormatting(repo, c0, c1, ci);
        if ComputeVersion(repo, c0, ci).Ok? {
          RenderWithPrefix(ToString(ComputeVersion(repo, c0, ci).value), cfg, p);
        }
      }
    }
  }

  /** The JSON fields agree with the other modes: "semverWithPrefix" is what
      semver mode prints and "pep440WithPrefix" what PEP 440 mode prints;
      JSON output fails exactly when the PEP 440 conversion or the
      MAJOR.MINOR.PATCH parse fails. */
  lemma JsonAgreesWithModes(version: string, cfg: Config)
    requires ModeOf(cfg) == Defaults.ModeJson
    ensures Render(version, cfg).Ok? <==> ConvertToPep440(version).Ok? && ParseVersion(version).Some?
    ensures Render(version, cfg).Ok? ==>
      var f := Render(version, cfg).value.fields;
      && Render(version, cfg.(mode := Some(Defaults.ModeSemver))) == Ok(Text(f.semverWithPrefix))
      && Render(version, cfg.(mode := Some(Defaults.ModePep440))) == Ok(Text(f.pep440WithPrefix))
      && f.semver == version
      && ParseVersion(version) == Some(Version(f.major, f.minor, f.patch, "", 0))
  {
    if Render(version, cfg).Ok? {
      var cs := cfg.(mode := Some(Defaults.ModeSemver));
      var cp := cfg.(mode := Some(Defaults.ModePep440));
      assert ModeOf(cs) == Defaults.ModeSemver && ModeOf(cp) == Defaults.ModePep440;
      assert forall x :: ApplyVersionPrefix(x, cs) == ApplyVersionPrefix(x, cfg) == ApplyVersionPrefix(x, cp);
    }
  }

  /** For a computed version, the JSON "isRelease" flag holds exactly when
      the version has no prerelease, and the numeric fields are its own. */
  lemma JsonDescribesVersion(v: Version, cfg: Config)
    requires ModeOf(cfg) == Defaults.ModeJson
    requires Render(ToString(v), cfg).Ok?
    ensures var f := Render(ToString(v), cfg).value.fields;
      && (f.isRelease <==> v.prerelease == "")
      && f.major == v.major && f.minor == v.minor && f.patch == v.patch
  {
    var c := CoreString(v.major, v.minor, v.patch);
    var s := ToString(v);
    CoreStringChars(v.major, v.minor, v.patch);
    ParseOfRendering(v);
    if v.prerelease == "" {
      assert s == c;
    } else {
      assert s[|c|] == '-';
    }
  }
}
