/** Branch detection from CI environment variables, for checkouts where HEAD
    is detached.  The environment is a map from variable names to values; an
    absent variable reads as "".  Go iterates the provider map in an
    unspecified order, so that order is a parameter: `order` lists provider
    names in the order they are tried. */
module Ci {
  import opened Wrappers
  import opened Strings
  import Defaults

  const GitHubHeadRef: string := "GITHUB_HEAD_REF"
  const GitHubRef: string := "GITHUB_REF"
  const BranchRefPrefix: string := "refs/heads/"

  /** `os.Getenv`: "" for an unset variable. */
  function Getenv(env: map<string, string>, name: string): string {
    if name in env then env[name] else ""
  }

  /** The provider table: the well-known providers, each replaced by the
      user's entry of the same name, plus the user's other entries.  Values
      are the names of the variables holding the branch. */
  function MergedProviders(user: map<string, string>): (m: map<string, string>)
    ensures forall p :: p in m <==> p in Defaults.WellKnownCIProviders || p in user
    ensures forall p :: p in user ==> m[p] == user[p]
    ensures forall p :: p in Defaults.WellKnownCIProviders && p !in user ==> m[p] == Defaults.WellKnownCIProviders[p]
  {
    Defaults.WellKnownCIProviders + user
  }

  /** Provider `p` is configured with a variable that holds a non-empty value. */
  predicate Reports(providers: map<string, string>, env: map<string, string>, p: string) {
    p in providers && providers[p] != "" && Getenv(env, providers[p]) != ""
  }

  /** The provider loop: the value of the first provider, in `order`, whose
      variable is set and non-empty; providers with no variable are skipped. */
  function FirstReported(providers: map<string, string>, env: map<string, string>, order: seq<string>): (r: Option<string>)
    ensures r.None? <==> forall k :: 0 <= k < |order| ==> !Reports(providers, env, order[k])
    ensures r.Some? ==> exists k :: (0 <= k < |order| && Reports(providers, env, order[k])
      && r.value == Getenv(env, providers[order[k]])
      && forall j :: 0 <= j < k ==> !Reports(providers, env, order[j]))
    decreases |order|
  {
    if |order| == 0 then None
    else if Reports(providers, env, order[0]) then Some(Getenv(env, providers[order[0]]))
    else
      var r := FirstReported(providers, env, order[1..]);
      assert forall k :: 1 <= k < |order| ==> order[k] == order[1..][k - 1];
      if r.Some? then
        var k :| 0 <= k < |order| - 1 && Reports(providers, env, order[1..][k])
          && r.value == Getenv(env, providers[order[1..][k]])
          && forall j :: 0 <= j < k ==> !Reports(providers, env, order[1..][j]);
        assert order[k + 1] == order[1..][k];
        r
      else r
  }

  /** The GitHub Actions special case: a non-empty `GITHUB_HEAD_REF` (pull
      requests), else a `GITHUB_REF` naming a branch ("refs/heads/NAME"); a
      tag ref or anything else reports nothing. */
  function GitHubBranch(env: map<string, string>): (r: Option<string>)
    ensures Getenv(env, GitHubHeadRef) != "" ==> r == Some(Getenv(env, GitHubHeadRef))
    ensures Getenv(env, GitHubHeadRef) == "" ==>
      (r.Some? <==> BranchRefPrefix <= Getenv(env, GitHubRef))
    ensures Getenv(env, GitHubHeadRef) == "" && r.Some? ==> BranchRefPrefix + r.value == Getenv(env, GitHubRef)
  {
    var headRef := Getenv(env, GitHubHeadRef);
    if headRef != "" then Some(headRef)
    else
      var ref := Getenv(env, GitHubRef);
      if ref != "" && BranchRefPrefix <= ref then Some(TrimPrefix(ref, BranchRefPrefix))
      else None
  }

  /** `DetectBranch`: nothing unless `useCIBranch` is set to true; then the
      GitHub Actions variables, unless the user configured a provider named
      "github-actions"; then every provider of the merged table in `order`. */
  function DetectBranch(useCIBranch: Option<bool>, userProviders: map<string, string>,
                        env: map<string, string>, order: seq<string>): (r: Option<string>)
    ensures useCIBranch != Some(true) ==> r == None
    ensures (useCIBranch == Some(true) && Defaults.GitHubActionsProvider !in userProviders
      && GitHubBranch(env).Some?) ==> r == GitHubBranch(env)
  {
    if useCIBranch != Some(true) then None
    else if Defaults.GitHubActionsProvider !in userProviders && GitHubBranch(env).Some? then GitHubBranch(env)
    else FirstReported(MergedProviders(userProviders), env, order)
  }

  // ---------------------------------------------------------------------
  // Properties
  // ---------------------------------------------------------------------

  /** A detected branch comes from one of the places the detector looks:
      `GITHUB_HEAD_REF`, a branch `GITHUB_REF`, or a merged provider's
      variable. */
  lemma DetectedBranchSource(useCIBranch: Option<bool>, userProviders: map<string, string>,
                             env: map<string, string>, order: seq<string>)
    requires DetectBranch(useCIBranch, userProviders, env, order).Some?
    ensures var b := DetectBranch(useCIBranch, userProviders, env, order).value;
      || (b != "" && b == Getenv(env, GitHubHeadRef))
      || BranchRefPrefix + b == Getenv(env, GitHubRef)
      || exists p :: p in order && Reports(MergedProviders(userProviders), env, p)
           && b == Getenv(env, MergedProviders(userProviders)[p])
  {
    var b := DetectBranch(useCIBranch, userProviders, env, order).value;
    if !(Defaults.GitHubActionsProvider !in userProviders && GitHubBranch(env).Some?) {
      var m := MergedProviders(userProviders);
      var k :| 0 <= k < |order| && Reports(m, env, order[k]) && b == Getenv(env, m[order[k]])
        && forall j :: 0 <= j < k ==> !Reports(m, env, order[j]);
      assert order[k] in order;
    }
  }

  /** When the order lists every merged provider, detection (if enabled)
      fails exactly when neither GitHub variable applies nor any provider
      variable is set. */
  lemma DetectionComplete(userProviders: map<string, string>, env: map<string, string>, order: seq<string>)
    requires forall p :: p in MergedProviders(userProviders) ==> p in order
    ensures DetectBranch(Some(true), userProviders, env, order).None? <==>
      && (Defaults.GitHubActionsProvider !in userProviders ==> GitHubBranch(env).None?)
      && forall p :: p in MergedProviders(userProviders) ==> !Reports(MergedProviders(userProviders), env, p)
  {
    var m := MergedProviders(userProviders);
    if FirstReported(m, env, order).None? {
      forall p | p in m
        ensures !Reports(m, env, p)
      {
        var k :| 0 <= k < |order| && order[k] == p;
      }
    }
  }

  /** A user entry named "github-actions" switches the special case off: a
      branch `GITHUB_REF` alone is then not enough. */
  lemma OverrideIgnoresGitHubRef(userProviders: map<string, string>, env: map<string, string>, order: seq<string>)
    requires Defaults.GitHubActionsProvider in userProviders
    requires forall p :: p in order ==> !Reports(MergedProviders(userProviders), env, p)
    ensures DetectBranch(Some(true), userProviders, env, order) == None
  {
    var m := MergedProviders(userProviders);
    assert forall k :: 0 <= k < |order| ==> order[k] in order;
  }
}
