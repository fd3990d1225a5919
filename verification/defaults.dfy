/** Application defaults: the single source of every constant the resolver,
    the branch sanitiser and the CI detector fall back on. */
module Defaults {

  /** The version of the first commit when no usable tag exists. */
  const InitialVersion: string := "1.0.0"

  /** Prerelease identifier of untagged main-branch commits in "pre" behaviour. */
  const PrereleaseId: string := "pre"

  const ModeSemver: string := "semver"
  const ModePep440: string := "pep440"
  const ModeJson: string := "json"
  const DefaultMode: string := ModeSemver

  /** Default behaviour of the main branch. */
  const MainBranchBehavior: string := "release"

  /** What an empty sanitised branch name becomes. */
  const UnknownBranchName: string := "unknown"

  const OutdatedCheckModeTagged: string := "tagged"
  const OutdatedCheckModeAll: string := "all"
  const DefaultOutdatedCheckMode: string := OutdatedCheckModeTagged

  /** Branch-name prefixes removed, in this order, before sanitising. */
  const BranchPrefixesToStrip: seq<string> := ["feature/", "bugfix/", "hotfix/", "release/"]

  /** Main branch candidates, in order of preference. */
  const MainBranches: seq<string> := ["main", "master"]

  const ValidMainBranchBehaviors: seq<string> := ["release", "pre"]

  /** The modes the resolver accepts.  The defaults file of this revision
      lists only "semver" and "pep440"; the resolver's mode switch also
      handles "json", and json output is only reachable if the list admits it,
      so the list here follows the resolver. */
  const ValidModes: seq<string> := [ModeSemver, ModePep440, ModeJson]

  const ValidOutdatedCheckModes: seq<string> := [OutdatedCheckModeTagged, OutdatedCheckModeAll]

  /** Name of the user-overridable GitHub Actions provider entry. */
  const GitHubActionsProvider: string := "github-actions"

  /** Well-known CI providers: provider name to the variable holding the branch. */
  const WellKnownCIProviders: map<string, string> := map[
    "github-actions" := "GITHUB_HEAD_REF",
    "gitlab-ci" := "CI_MERGE_REQUEST_SOURCE_BRANCH_NAME",
    "circleci" := "CIRCLE_BRANCH",
    "travis-ci" := "TRAVIS_PULL_REQUEST_BRANCH",
    "jenkins" := "CHANGE_BRANCH",
    "azure-pipelines" := "SYSTEM_PULLREQUEST_SOURCEBRANCH"
  ]
}
