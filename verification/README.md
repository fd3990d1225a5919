# autoversion, modelled in Dafny

autoversion computes a version string for the current commit of a git
repository. A tag on HEAD that is valid Semantic Versioning 2.0.0 is used
as it is. Otherwise the version is derived from three things:

- the most recent reachable tag, after stripping the configured tag prefix;
- the commit counts on the main branch and on the current branch;
- the configured main-branch behaviour, "release" or "pre".

On a main branch the result is `M.m.p`, or `M.m.p-pre.N` in "pre"
behaviour. On any other branch it is `M.m.p-<sanitised branch>.N`. The
result is printed in one of three modes: as semver, converted to the PEP 440
`aN` pre-release form, or as a JSON record. An optional version prefix is
put in front of it.

The model is a set of pure functions over immutable data:

- `Strings`: the parts of Go's `strings` and `strconv` that the code uses
  (`Split`, `Join`, `TrimPrefix`, `Index`, `LastIndex`, `Atoi`, `%d`), with
  their laws.
- `Defaults`: the constants of `internal/defaults`.
- `SemVer`: the `Version` record and its rendering; `parseVersion` (also
  used as `parseSemverSimple`); `IsValidSemver`, written as a predicate over
  the three sections of a version rather than as a regular expression.
- `Pep440`: `ConvertToPEP440` and `IsValidPEP440`.
- `BranchNames`: `StripTagPrefix` and `SanitizeBranchName`, one function per
  step of the sanitiser.
- `TagSelection`: `isGreaterThan`, and the two selection loops
  (`selectHighestSemverTag`, and the loop in `GetMostRecentTag`). Both are
  proved to make one declaratively stated choice: the first of the highest.
- `Git`: the repository queries over a snapshot. The snapshot has:
  - HEAD, either a branch name or a detached commit;
  - local and `origin` branch maps;
  - the tag list in iteration order;
  - the shallow flag;
  - `log`, which maps each commit to the history walk from it.

  `WellFormed` states what real walks satisfy: each starts at its own
  commit and has no duplicates. A distance is a position in the walk.
- `Ci`: `DetectBranch`. The environment is a map, and Go's provider-map
  iteration order is an explicit `order` parameter.
- `Resolver`: `CalculateWithConfig` with the same order of checks and the
  same error cases, `applyVersionMode` (producing the JSON fields rather than
  bytes) and `applyVersionPrefix`.

Inputs the code reads from the outside world become parameters: the
repository snapshot, the configuration record and the CI environment
(variables plus iteration order).

The configuration record follows the fields `CalculateWithConfig` reads.
The mode set is {semver, pep440, json}, as in the switch of
`applyVersionMode`. The list in `internal/defaults/defaults.go:39` names only
semver and pep440. That list would reject "json" before the switch is
reached, so the model follows the switch; `Defaults.ValidModes` says so in a
comment. The two files are evidently from different revisions: the resolver
uses a constant `defaults.ModeJson` (`internal/version/version.go:116`,
`:434` and `:478`) that this `defaults.go` does not declare.

`SemverOutputIsValid` carries one exception. A branch named "007" sanitises
to "007". A version with prerelease "007" renders as `M.m.p-007.N`, and
SemVer forbids leading zeros in numeric identifiers.
`LeadingZeroBranchSurvives` and `LeadingZeroBranchBreaksSemver` exhibit this.
The code does what it says here; it is the general promise "the output is
valid semver" that holds only with this exception.

## Model

| member | source | states |
|---|---|---|
| SemVer.ToString | internal/version/version.go:43-48 | The rendering starts with "M.m.p"; a release is exactly that, and a version with a prerelease continues with '-' |
| SemVer.ParseCore | internal/git/git.go:652-688 | `parseSemverSimple` succeeds exactly when the text before the first '-' or '+' is three non-empty digit runs, and it yields their values |
| SemVer.ParseVersion | internal/version/version.go:536-572 | `parseVersion` succeeds exactly on a numeric core, and the version it returns has that core's numbers and no prerelease |
| SemVer.CoreTextOfSplits | internal/version/version.go:539-544 | Splitting at the first '-' and then at the first '+' leaves the text before the first sign, which contains neither sign |
| SemVer.ParseOfRendering | internal/version/version.go:536-572 | Parsing a rendered version recovers major, minor and patch and drops prerelease and build |
| SemVer.VersionCoreRoundTrip | internal/version/semver.go:7 | A valid MAJOR.MINOR.PATCH is numeric, and rendering its value gives the same text back |
| SemVer.ValidSemverParses | internal/version/semver.go:10-12 | Every string accepted as valid semver parses, and rendering the result gives its MAJOR.MINOR.PATCH text |
| SemVer.PrereleaseHasNoPlus | internal/version/semver.go:7 | A valid prerelease never contains '+', so the first '+' always starts the build metadata |
| SemVer.PrereleaseWithCounter | internal/version/semver.go:7 | A valid prerelease followed by "." and a canonical numeral is still a valid prerelease |
| SemVer.CoreWithPrereleaseIsValid | internal/version/semver.go:7 | A valid core, '-' and a valid prerelease form a valid semantic version |
| SemVer.CoreIsValid | internal/version/semver.go:7 | A valid core alone is a valid semantic version |
| SemVer.RenderingIsValidSemver | internal/version/version.go:43-48 | A rendering is valid semver whenever its prerelease is empty or a valid prerelease |
| SemVer.NoPlusInRendering | internal/version/version.go:43-48 | A rendering contains no '+' when its prerelease contains none |
| SemVer.InvalidPrereleaseRejected | internal/version/semver.go:7 | A string whose text between the first '-' and the first '+' is not a valid prerelease is rejected |
| SemVer.PrereleaseSection | internal/version/version.go:43-48 | In a rendering with a prerelease, the section between the first '-' and the first '+' is exactly "prerelease.build" |
| SemVerExamples.ReleaseCoreAccepted | internal/defaults/defaults.go:6 | The default initial version "1.0.0" is valid semver |
| SemVerExamples.VPrefixRejected | internal/version/integration_test.go:194-202 | "v3.0.0" is not valid semver |
| SemVerExamples.PathPrefixRejected | internal/version/integration_test.go:892-901 | "IGNORE/3.0.0" is not valid semver |
| SemVerExamples.YearTagRejected | internal/version/integration_test.go:233-243 | "release-2023" is not valid semver |
| SemVerExamples.LeadingZeroPrereleaseRejected | internal/version/semver.go:7 | "1.0.0-01" is rejected: a numeric identifier may not have a leading zero |
| Pep440.ConvertToPep440 | internal/version/pep440.go:15-44 | A string without '-' is returned unchanged; every failure is the missing-build-number error for that input |
| Pep440.ConvertFailsIff | internal/version/pep440.go:20-36 | With a '-', conversion fails exactly when no '.' follows the first '-' |
| Pep440.ConvertResultShape | internal/version/pep440.go:38-43 | On success, the result is the text before the first '-', then 'a', then the last '.'-separated field |
| Pep440.ConvertValue | internal/version/pep440.go:28-43 | On success, there is a last '.' after the first '-', and the result ends with exactly the text after it |
| Pep440.ConvertShape | internal/version/pep440.go:23-43 | "core-identifier.N" converts to "coreaN" for any identifier, hyphenated or not |
| Pep440.ConvertFailsWithoutDot | internal/version/pep440.go:33-36 | "core-rest" fails to convert exactly when the rest has no '.' |
| Pep440.ConvertPrereleaseRendering | internal/version/pep440.go:9-14 | The rendering "M.m.p-pre.B" converts to "M.m.paB", which is valid PEP 440 |
| Pep440.ConvertReleaseRendering | internal/version/pep440.go:16-19 | The rendering of a release converts to itself and is valid PEP 440 |
| Pep440.ConvertRenderingIsValid | internal/version/pep440.go:46-53 | Every rendered version converts without error to a valid PEP 440 string |
| Pep440.AlphaFormIsValid | internal/version/pep440.go:51 | A valid core, 'a' and one or more digits is valid PEP 440 |
| Pep440.ReleaseFormIsValid | internal/version/pep440.go:51 | A valid core alone is valid PEP 440 |
| Pep440.ValidPep440Charset | internal/version/pep440.go:51 | A valid PEP 440 string consists only of digits, '.' and 'a' |
| Pep440.ForeignCharRejected | internal/version/pep440.go:51 | Any other character rules a string out |
| Pep440Examples.MissingBuildNumberRejected | internal/version/pep440_test.go:57-59 | "X-pre" fails to convert, whatever the core |
| Pep440Examples.HyphenatedWithoutBuildRejected | internal/version/pep440_test.go:63-65 | "X-pre-test-more" fails to convert: hyphens do not stand in for the '.' |
| Pep440Examples.HyphenatedIdentifierDropped | internal/version/pep440_test.go:15-53 | "X-setup-build.1" converts to "Xa1" |
| Pep440Examples.BetaRejected | internal/version/pep440_test.go:127-128 | "1.0.0b1" is not valid PEP 440 |
| Pep440Examples.SemverPrereleaseRejected | internal/version/pep440_test.go:117-118 | "1.0.0-pre.1" is not valid PEP 440 |
| BranchNames.StripTagPrefix | internal/git/git.go:832-837 | An empty or absent prefix leaves the tag unchanged; otherwise exactly one copy is removed, so prefix plus result is the tag |
| BranchNames.TrimPrefixes | internal/git/git.go:842-844 | Stripping the conventional prefixes only ever removes a leading part of the name |
| BranchNames.TrimPrefixesNone | internal/git/git.go:842-844 | A name that begins with none of the prefixes comes out unchanged |
| BranchNames.TrimPrefixesOnce | internal/git/git.go:842-844 | Trying the prefixes in turn on a listed prefix followed by a rest that begins with none of them removes exactly that prefix, when the prefixes have distinct first characters |
| BranchNames.TrimPrefixesStacked | internal/git/git.go:842-844 | Two listed prefixes stacked in front of a plain rest: both go when the outer one comes first in the list, and the inner one stays when it comes first, since each prefix is tried on what the earlier ones left |
| BranchNames.TrimPrefixesSkip | internal/git/git.go:842-844 | Entries whose first character differs from the name's are passed over without changing it |
| BranchNames.StripAt | internal/git/git.go:842-844 | A listed prefix in front of a rest is removed, and the later entries carry on with the rest |
| BranchNames.StackedConventionalPrefixes | internal/git/git.go:842-844 | "feature/bugfix/x" loses both prefixes, while "bugfix/feature/x" keeps "feature/" |
| BranchNames.ConventionalInitialsDistinct | internal/defaults/defaults.go:25-30 | The conventional prefixes begin with pairwise different characters |
| BranchNames.ConventionalPrefixesDistinct | internal/defaults/defaults.go:25-30 | The four conventional prefixes begin with four different characters |
| BranchNames.StripsConventionalPrefix | internal/git/git.go:842-844 | "feature/", "bugfix/", "hotfix/" or "release/" in front of a rest that begins with none of them is removed, and the name sanitises as the rest alone does |
| BranchNames.OtherInitialKeepsName | internal/git/git.go:842-844 | A name whose first character is not 'f', 'b', 'h' or 'r' begins with no conventional prefix and is not stripped |
| BranchNames.UppercaseNameKeepsPrefix | internal/git/git.go:842-844 | Stripping is case-sensitive: a name beginning with an upper-case letter, such as "FEATURE/...", keeps its prefix |
| BranchNames.SlashlessStartsWithNone | internal/defaults/defaults.go:25-30 | A name without '/' begins with none of the prefixes, since each of them contains '/' |
| BranchNames.ReplaceInvalid | internal/git/git.go:847-848 | Every character outside [a-zA-Z0-9-] becomes '-', the others stay, and the length is kept |
| BranchNames.ReplaceInvalidKeepsAlnum | internal/git/git.go:847-848 | After replacement, the characters other than '-' are exactly the letters and digits of the input, in order |
| BranchNames.TrimHyphens | internal/git/git.go:851 | The result is a slice of the input with only '-' cut away before and after it, and it neither starts nor ends with '-' |
| BranchNames.TrimHyphensKeepsRest | internal/git/git.go:851 | Trimming removes nothing but '-': the other characters stay, in order |
| BranchNames.CollapseHyphens | internal/git/git.go:854-855 | The result has no "--", keeps the first and last character and the character class |
| BranchNames.CollapseConcat | internal/git/git.go:853-855 | Collapsing works piece by piece when the join is not inside a run of '-' |
| BranchNames.CollapseLeadingRun | internal/git/git.go:853-855 | A run of '-' of any length in front of a name not beginning with '-' becomes exactly one '-' |
| BranchNames.CollapseRun | internal/git/git.go:853-855 | A run of '-' between two parts becomes exactly one '-', and each part collapses on its own |
| BranchNames.NormalizeTrimmed | internal/git/git.go:847-862 | On a name over [a-zA-Z0-9-] with no '-' at its ends, normalising only collapses and lower-cases |
| BranchNames.NormalizeJoinsRun | internal/git/git.go:847-862 | Two clean parts joined by a run of '-' normalise to the parts joined by one '-', lower-cased |
| BranchNames.SanitizeJoinsRun | internal/git/git.go:840-865 | The same for a whole branch name that begins with no conventional prefix |
| BranchNames.CollapseKeepsRest | internal/git/git.go:854-855 | Collapsing removes nothing but '-': the other characters stay, in order |
| BranchNames.LowerAscii | internal/git/git.go:858 | Each character is lowered in place |
| BranchNames.LowerKeepsRest | internal/git/git.go:858 | Lowering and dropping the '-' can be done in either order |
| BranchNames.Normalize | internal/git/git.go:847-862 | The result is a non-empty run of [a-z0-9-] with no '-' at either end and no "--" |
| BranchNames.NormalizeKeepsAlnum | internal/git/git.go:847-862 | A name without letters or digits becomes "unknown"; any other name keeps exactly its letters and digits, lower-cased and in order, with only '-' between them |
| BranchNames.SanitizeBranchName | internal/git/git.go:840-865 | A sanitised name always has the sanitised shape, "unknown" included |
| BranchNames.SanitizeFixedPoints | internal/git/git.go:840-865 | A name is its own sanitisation exactly when it already has the sanitised shape |
| BranchNames.SanitizedIsFixedPoint | internal/git/git.go:840-865 | Sanitising a sanitised name changes nothing: no conventional prefix matches, and every step is the identity |
| BranchNames.NormalizeSanitized | internal/git/git.go:847-862 | Each normalising step leaves a name of the sanitised shape unchanged |
| BranchNames.SanitizeIdempotent | internal/git/git.go:840-865 | Sanitising twice gives the same as sanitising once |
| BranchNames.TrimPrefixesNoSlash | internal/defaults/defaults.go:25-30 | A name without '/' is untouched by prefix stripping, since every conventional prefix contains '/' |
| BranchNames.NormalizeWithoutHyphenRuns | internal/git/git.go:847-858 | When replacement leaves no '-' at the ends and no "--", normalising only replaces and lowers |
| BranchNames.SanitizeClean | internal/git/git.go:840-865 | A name with no conventional prefix whose replacement is clean sanitises to that replacement, lower-cased |
| BranchNames.SanitizedPrereleaseIdentifier | internal/git/git.go:840-865 | A sanitised name has no '.' or '+', so it is a single identifier, canonical or containing a non-digit unless it is a zero-led numeral |
| BranchNameExamples.NothingLeftIsUnknown | internal/git/git_test.go:102-106 | A name made only of invalid characters sanitises to "unknown" |
| BranchNameExamples.SanitizeJoined | internal/git/git.go:840-865 | A word, an invalid character and a rest with a clean replacement sanitise to the lower-cased word, '-' and that replacement |
| BranchNameExamples.SanitizeThreeWords | internal/git/git.go:840-865 | Three words separated by invalid characters sanitise to the lower-cased words joined by '-' |
| BranchNameExamples.FeatureSlashes | internal/git/git_test.go:73-76 | "feature/user/login" sanitises to "user-login" |
| BranchNameExamples.Underscores | internal/git/git_test.go:77-81 | "fix_memory_leak" sanitises to "fix-memory-leak" |
| BranchNameExamples.UppercasePrefix | internal/git/git_test.go:97-101 | "FEATURE/TEST" keeps its prefix and sanitises to "feature-test" |
| BranchNameExamples.HyphenRun | internal/git/git_test.go:88-91 | "feature---test" sanitises to "feature-test" |
| TagSelection.GreaterIsStrictTotalOrder | internal/git/git.go:691-699 | `isGreaterThan` is irreflexive, asymmetric, total on distinct cores and transitive |
| TagSelection.SelectionUnique | internal/git/git.go:567-590 | At most one position is the first of the highest |
| TagSelection.ScanHighestIsSelection | internal/git/git.go:567-590 | From any state satisfying the loop invariant, the `selectHighestSemverTag` loop ends on the first of the highest, or on the first entry when none parses |
| TagSelection.ScanHighestFromStart | internal/git/git.go:572-589 | The loop as started on the first entry makes the intended choice |
| TagSelection.SelectHighestSemverTag | internal/git/git.go:567-590 | The result is "" for no tags, else a list member at a position that is the first of the highest |
| TagSelection.HighestStepTake | internal/git/git.go:582-586 | Taking a strictly greater entry keeps "first of the highest" true one step further |
| TagSelection.ScanRecentIsSelection | internal/git/git.go:796-828 | The `GetMostRecentTag` loop chooses nothing without candidates, and otherwise the first of the highest, or the first candidate when none parses |
| TagSelection.ScansAgree | internal/git/git.go:567-590 | On the same keys both loops choose the same entry, although they start differently |
| Git.HeadCommit | internal/git/git.go:84-89 | HEAD resolves exactly when it is detached or names an existing branch |
| Git.GetCurrentBranch | internal/git/git.go:84-95 | The result is the name HEAD points at; a detached HEAD is an error |
| Git.IsMainBranch | internal/git/git.go:98-105 | True exactly when the branch is one of the candidates |
| Git.GetMainBranch | internal/git/git.go:109-126 | The first candidate in order that exists locally or on origin; an error exactly when none exists |
| Git.ResolveBranch | internal/git/git.go:154-166 | A branch resolves to the local branch, else the origin branch, and fails exactly when neither exists |
| Git.ResolveCurrent | internal/git/git.go:192-210 | The current branch resolves like any branch, and falls back to HEAD when neither exists |
| Git.GetCommitCount | internal/git/git.go:129-150 | The length of the walk from HEAD; an error when HEAD or its walk is missing |
| Git.GetMainBranchCommitCount | internal/git/git.go:154-183 | The length of the walk from the resolved main branch |
| Git.FindMergeBase | internal/git/git.go:255-298 | The first commit of the second walk that lies in the first; an error exactly when the walks are disjoint |
| Git.FindBranchPoint | internal/git/git.go:192-230 | The current tip, the main tip and their merge base, each resolved as the code does |
| Git.GetCommitCountSinceBranchPoint | internal/git/git.go:187-251 | 0 for equal names; otherwise the position of the merge base in the current branch's walk |
| Git.GetMainBranchCommitsSinceBranchPoint | internal/git/git.go:302-362 | 0 for equal names; otherwise the position of the merge base in the main branch's walk |
| Git.CheckMainBranchHasNewTags | internal/git/git.go:367-461 | False for equal names; otherwise true exactly when some commit of the main walk before the merge base is any tag's target |
| Git.CheckMainBranchHasNewCommits | internal/git/git.go:466-514 | False for equal names; otherwise true exactly when the main tip differs from the merge base |
| Git.TagMap | internal/git/git.go:414-426 | The commit-to-tag map covers exactly the tagged commits |
| Git.TagMapNamesLastTag | internal/git/git.go:414-426 | Each commit in the map carries the name of the last-listed tag on it: a later tag on the same commit overwrites an earlier one |
| Git.FirstTagName | internal/git/git.go:438-453 | The remembered name is empty exactly when no visited commit has a non-empty name in the map; otherwise it is the name of the first such commit in walk order |
| Git.NewTagNameIsOnMainWalk | internal/git/git.go:414-461 | A non-empty tag name reported by the new-tags check is the last-listed tag on a commit the main walk visits before the merge base |
| Git.TagsOnCommit | internal/git/git.go:532-548 | The names of exactly the tags marking the commit |
| Git.GetTagOnCurrentCommit | internal/git/git.go:518-564 | "" when no tag marks HEAD; otherwise a tag on HEAD at a position that is the first of the highest, judged on raw names |
| Git.Candidates | internal/git/git.go:744-787 | Exactly the prefix-matching tags the walk from HEAD reaches, each with its position in that walk |
| Git.CandidatesOfOne | internal/git/git.go:745-783 | One tag yields itself with its distance when it matches the prefix and the walk reaches it, and nothing otherwise |
| Git.CandidatesConcat | internal/git/git.go:744-787 | Candidates are gathered in the order of the tags: those of an earlier stretch of tags come before those of a later one |
| Git.CandidatesKeepOrder | internal/git/git.go:744-787 | Of two qualifying tags, the earlier one's candidate comes before the later one's, which the selection's tie-break relies on |
| Git.GetMostRecentTag | internal/git/git.go:706-829 | ("", 0) without candidates; otherwise a candidate and its distance, at a position that is the first of the highest after prefix stripping |
| Git.IsTagInHistory | internal/git/git.go:594-641 | Whether the walk from HEAD reaches the commit of the first tag of that name; an error when there is no such tag |
| Git.MergeBaseExistsSymmetric | internal/git/git.go:255-298 | A merge base exists for (c1, c2) exactly when it exists for (c2, c1) |
| Git.MergeBaseOfAncestor | internal/git/git.go:255-298 | When the first walk reaches the second commit, that commit is the merge base |
| Git.NewCommitsIffMainCount | internal/git/git.go:466-514 | The commits check and the main count succeed together; the check is true exactly when the count is positive |
| Git.BranchCountZeroIffAtBase | internal/git/git.go:187-251 | The current branch's count is 0 exactly when its tip is the merge base |
| Git.NoNewTagsWithoutNewCommits | internal/git/git.go:367-461 | Without new commits on the main branch there are no new tags |
| Git.DistanceZeroIffOnHead | internal/git/git.go:712-724 | A reachable tag is at distance 0 exactly when it marks HEAD |
| Ci.FirstReported | internal/ci/ci.go:78-92 | The first provider in iteration order whose variable name is non-empty and whose value is non-empty; nothing exactly when there is none |
| Ci.GitHubBranch | internal/ci/ci.go:40-61 | A non-empty GITHUB_HEAD_REF wins; else a GITHUB_REF of the form "refs/heads/X" gives X; anything else gives nothing |
| Ci.DetectBranch | internal/ci/ci.go:23-93 | Nothing unless the CI branch is enabled; without a user "github-actions" entry, the GitHub variables win when they name a branch |
| Ci.DetectedBranchSource | internal/ci/ci.go:23-93 | A detected branch comes from GITHUB_HEAD_REF, a branch GITHUB_REF, or a reporting provider |
| Ci.DetectionComplete | internal/ci/ci.go:23-93 | With every provider in the order, detection fails exactly when neither GitHub variable applies and no provider reports |
| Ci.OverrideIgnoresGitHubRef | internal/ci/ci.go:29-40 | A user "github-actions" entry switches off the GitHub special case |
| Resolver.ApplyVersionMode | internal/version/version.go:455-532 | An invalid mode is an error; semver is the identity; pep440 is the conversion, with its error; only json mode gives the JSON record, whose pep440 field is the conversion of the version and whose isRelease flag holds exactly when the version has no '-' |
| Resolver.Render | internal/version/version.go:424-443 | Formatting fails exactly when the mode fails; semver mode prints the version itself and PEP 440 mode its conversion, each behind the configured version prefix |
| Resolver.BaseOf | internal/version/version.go:213-253 | The tag's parsed version when the stripped tag is valid semver, else the initial version; a tag base never keeps a prerelease |
| Resolver.IsOutdated | internal/version/version.go:353-376 | The base is outdated exactly when, in "tagged" mode, the new-tags check succeeds and finds a tag, or, in "all" mode, the new-commits check succeeds and finds a commit |
| Resolver.FeaturePatch | internal/version/version.go:325-407 | A failing main-count query or an invalid check mode is an error; the outdated-base error comes exactly when the check mode (unset meaning "tagged") is valid, the check finds the base outdated and failing is switched on; otherwise it succeeds with the branch tag's patch + 1 + the main commits since the branch point, or with the main commit count when no tag was found |
| Resolver.FeatureVersion | internal/version/version.go:319-422 | Succeeds exactly when the feature patch and the branch's commit count do; then MAJOR.MINOR are the base's, the patch is the feature patch, the prerelease the sanitised branch name and the counter the branch's commits since the branch point; a feature-patch error is passed on |
| Resolver.ComputeVersion | internal/version/version.go:132-259 | The lookups fail in the order the code makes them, each with its own error: main branch, behaviour, current branch, most recent tag, initial version (unparsable, then not semver), main commit count; success implies a valid initial version |
| Resolver.MainVersion | internal/version/version.go:266-318 | MAJOR.MINOR are the base's. With a tag the patch moves on by the distance, and "pre" off the tagged commit gives prerelease "pre" with counter distance minus one. Without a tag the commit count decides: "pre" keeps the patch and counts from 0, "release" adds count minus one to the patch. Only the count can fail |
| Resolver.ComputeDispatch | internal/version/version.go:255-264 | Once every lookup succeeds, a main branch gets MainVersion and any other branch FeatureVersion, from the same base, and that base has no prerelease |
| Resolver.ReleaseHasNoPrerelease | internal/version/version.go:299-318 | On a main branch in "release" behaviour the computed version has no prerelease |
| Resolver.UsableHeadTag | internal/version/version.go:78-104 | Fails exactly when HEAD does not resolve; otherwise a tag is returned exactly when HEAD carries one that is valid semver after stripping, and it is the stripped name |
| Resolver.CalculateWithConfig | internal/version/version.go:60-444 | A shallow clone is an error before anything else; then an unresolvable HEAD |
| Resolver.ComputedPathRenders | internal/version/version.go:126-444 | Without a usable tag on HEAD, an error of the computation is the result, and otherwise the result is the computed version's rendering, formatted |
| Resolver.SemverPrintsComputed | internal/version/version.go:424-441 | In semver mode, the printed text is the computed version's rendering behind the version prefix |
| Resolver.HeadTagWins | internal/version/version.go:78-124 | A valid tag on HEAD is formatted as it is, before any branch, behaviour or initial-version check |
| Resolver.RenderReadsModeAndPrefix | internal/version/version.go:424-532 | Formatting depends on the configuration only through the mode and the version prefix |
| Resolver.HeadTagIgnoresBranchSettings | internal/version/version.go:78-124 | With such a tag, neither the CI environment nor the branch settings affect the result |
| Resolver.MainBehaviorsShareCore | internal/version/version.go:270-318 | With a tag base, "pre" and "release" agree on M.m.p = tag patch plus distance; "pre" adds a prerelease exactly off the tagged commit |
| Resolver.FirstCommitGetsInitialVersion | internal/version/version.go:287-317 | Without a tag, the first commit gets the initial version, or "pre" numbered 0 |
| Resolver.ReleasePatchCountsCommits | internal/version/version.go:305-317 | Without a tag, the release patch is the initial patch plus the commit count minus one |
| Resolver.MainVersionPrerelease | internal/version/version.go:270-318 | A main-branch version keeps the base's prerelease or uses "pre" |
| Resolver.FeatureAheadOfTag | internal/version/version.go:393-407 | With a tag base the patch is tag patch + 1 + main commits since the branch point, so it is greater than the tag; otherwise it is the main commit count |
| Resolver.OutdatedCheckKeepsVersion | internal/version/version.go:353-391 | The outdated-base check never changes a computed feature version |
| Resolver.OutdatedCheckKeepsPatch | internal/version/version.go:353-391 | The check leaves the feature patch unchanged |
| Resolver.FeatureVersionReadsPatch | internal/version/version.go:393-420 | A feature version depends on the configuration only through its patch |
| Resolver.OutdatedBaseFails | internal/version/version.go:332-386 | In "all" mode with failing on, new main commits are an error |
| Resolver.OutdatedTagFails | internal/version/version.go:332-386 | In "tagged" mode, configured or by default, with failing on, a new tag on the main branch is an error |
| Resolver.DefaultCheckFailsOnNewTag | internal/version/version.go:332-386 | An unset or empty check mode is "tagged", so with failing on a new tag on the main branch is an error by default |
| Resolver.ComputedPrerelease | internal/version/version.go:255-422 | A computed prerelease is empty, "pre", or the sanitised current branch |
| Resolver.SanitizedIsPrerelease | internal/version/version.go:414-418 | A sanitised branch name is a valid prerelease unless it is a zero-led numeral |
| Resolver.PreIsPrerelease | internal/defaults/defaults.go:7 | "pre" is a valid prerelease |
| Resolver.SemverOutputIsValid | internal/version/version.go:424-443 | In semver mode without a prefix, every successful result is valid semver, except for a branch that sanitises to a zero-led numeral |
| Resolver.Pep440OutputIsValid | internal/version/version.go:517-525 | In pep440 mode without a prefix, a computed version always converts, and the output is valid PEP 440 |
| Resolver.LeadingZeroBranchBreaksSemver | internal/version/version.go:414-418 | A version whose prerelease is "007" renders to a string the SemVer check rejects |
| Resolver.LeadingZeroPrerelease | internal/version/semver.go:7 | "007.N" is not a valid prerelease |
| Resolver.LeadingZeroBranchSurvives | internal/git/git.go:840-865 | Branch "007" sanitises to "007" |
| Resolver.ComputeIgnoresFormatting | internal/version/version.go:60-422 | The computed version does not depend on the mode or the version prefix |
| Resolver.ComputeWithoutFormatting | internal/version/version.go:60-422 | Clearing the mode and version prefix leaves the computed version unchanged |
| Resolver.FeatureIgnoresFormatting | internal/version/version.go:319-422 | The feature-branch version does not depend on the mode or the version prefix |
| Resolver.RenderWithPrefix | internal/version/version.go:430-452 | Outside json mode, a prefix only goes in front of the formatted text; errors are unchanged |
| Resolver.PrefixOnlyPrepends | internal/version/version.go:424-452 | Outside json mode, configuring a prefix only puts it in front of the whole result |
| Resolver.JsonAgreesWithModes | internal/version/version.go:478-516 | JSON succeeds exactly when conversion and parsing do; its prefixed fields are what semver and pep440 modes print, and its numbers are the parsed core |
| Resolver.JsonDescribesVersion | internal/version/version.go:478-516 | For a rendered version, isRelease holds exactly when there is no prerelease, and the numbers are the version's own |

## Left out

- Filesystem and go-git plumbing are not modelled: opening the repository, the shallow-file check, and the reference, tag-object and commit-object lookups. The snapshot stands in for them.
- go-git's history-walk order is an input. `log` gives each walk as a sequence, and distances are positions in it.
- Lightweight and annotated tags are not distinguished. Each tag is its name and the object its ref points to or, for an annotated tag, the object its tag object points to. That is one level of dereferencing, as the source does. A tag of a tag therefore points at no commit: the model expresses it as a target that no walk visits, so it is never a candidate.
- Logging to stderr has no effect on results and is left out.
- JSON byte encoding is left out. The model yields the record of fields that would be encoded.
- Regular-expression engines are replaced by hand-written predicates and functions. These cover the SemVer and PEP 440 checks and the sanitiser's character replacements.
- `strconv.Atoi` overflow is not modelled, because integers are unbounded. The out-of-range branch of `parseVersion` is therefore unreachable.
- Ci.DetectBranch: Go iterates the provider map in random order. The model takes that order as a parameter, so it describes one iteration order at a time.
- Environment access in the CI detector is replaced by a map argument. An unset variable reads as "".
- Defaults.ValidModes: admits "json" although `internal/defaults/defaults.go:39` lists only "semver" and "pep440"; the resolver's switch handles "json" and uses a `ModeJson` constant that file does not declare, so the list follows the resolver's revision.
- CalculateWithConfig, ComputeVersion and MainVersion require `WellFormed(repo)`. Real history walks start at their own commit and never repeat one.
- The `gh` CLI helper (`internal/ghactions`) is not part of this model. It shells out to an external program.
- The command-line wiring (`cmd/autoversion/main.go`) is not part of this model; neither is the configuration schema generator (`internal/config/config.go`).
