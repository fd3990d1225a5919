/** The repository queries autoversion makes, over an immutable snapshot of
    the repository: where HEAD points, the local and `origin` branches, the
    tags in iteration order, the shallow flag, and for each commit the
    sequence of commits a history walk from it visits. */
module Git {
  import opened Wrappers
  import opened Strings
  import opened SemVer
  import opened BranchNames
  import opened TagSelection

  /** A commit hash.  Only equality matters. */
  type CommitId = nat

  /** HEAD names a branch (which may not exist yet) or is detached at a commit. */
  datatype Head = OnBranch(branch: string) | Detached(commit: CommitId)

  /** A tag and the commit it marks.  A lightweight tag points at the commit
      itself; an annotated tag's target is that commit. */
  datatype Tag = Tag(name: string, target: CommitId)

  /** The snapshot.  `log[c]` is the history walk from `c`, starting at `c`;
      a commit that is not a key of `log` is not in the object store. */
  datatype Repository = Repository(
    head: Head,
    local: map<string, CommitId>,
    origin: map<string, CommitId>,
    tags: seq<Tag>,
    shallow: bool,
    log: map<CommitId, seq<CommitId>>)

  datatype GitError =
    | HeadUnresolved
    | NotOnBranch
    | NoMainBranch(candidates: seq<string>)
    | BranchNotFound(name: string)
    | TagNotFound(name: string)
    | MissingCommit(commit: CommitId)
    | NoCommonAncestor

  /** What every real history walk satisfies: it starts at its own commit and
      visits no commit twice. */
  predicate WellFormed(repo: Repository) {
    forall c :: c in repo.log ==>
      && |repo.log[c]| >= 1
      && repo.log[c][0] == c
      && (forall i, j :: 0 <= i < j < |repo.log[c]| ==> repo.log[c][i] != repo.log[c][j])
  }

  // ---------------------------------------------------------------------
  // HEAD, branches and walks
  // ---------------------------------------------------------------------

  /** The commit HEAD resolves to; a branch HEAD that has no commit yet does
      not resolve. */
  function HeadCommit(repo: Repository): (r: Result<CommitId, GitError>)
    ensures r.Ok? <==> repo.head.Detached? || repo.head.branch in repo.local
    ensures r.Err? ==> r.error == HeadUnresolved
  {
    match repo.head
    case Detached(c) => Ok(c)
    case OnBranch(b) => if b in repo.local then Ok(repo.local[b]) else Err(HeadUnresolved)
  }

  /** The history walk from a commit. */
  function Log(repo: Repository, c: CommitId): (r: Result<seq<CommitId>, GitError>)
    ensures r.Ok? <==> c in repo.log
    ensures r.Err? ==> r.error == MissingCommit(c)
  {
    if c in repo.log then Ok(repo.log[c]) else Err(MissingCommit(c))
  }

  /** `GetCurrentBranch`: the branch HEAD names; a detached HEAD has none. */
  function GetCurrentBranch(repo: Repository): (r: Result<string, GitError>)
    ensures r.Ok? <==> repo.head.OnBranch? && repo.head.branch in repo.local
    ensures r.Ok? ==> r.value == repo.head.branch
    ensures repo.head.Detached? ==> r == Err(NotOnBranch)
  {
    var _ :- HeadCommit(repo);
    if repo.head.OnBranch? then Ok(repo.head.branch) else Err(NotOnBranch)
  }

  /** `IsMainBranch`: the loop over the candidates finds the current branch
      exactly when it is one of them. */
  function IsMainBranch(current: string, mainBranches: seq<string>): (r: bool)
    ensures r <==> current in mainBranches
    decreases |mainBranches|
  {
    if |mainBranches| == 0 then false
    else if mainBranches[0] == current then true
    else
      assert mainBranches == [mainBranches[0]] + mainBranches[1..];
      IsMainBranch(current, mainBranches[1..])
  }

  /** A branch of that name exists locally or on `origin`. */
  predicate BranchExists(repo: Repository, name: string) {
    name in repo.local || name in repo.origin
  }

  /** Position of the first candidate that exists, or `|candidates|`. */
  function FirstExisting(repo: Repository, candidates: seq<string>): (k: nat)
    ensures k <= |candidates|
    ensures k < |candidates| ==> BranchExists(repo, candidates[k])
    ensures forall j :: 0 <= j < k ==> !BranchExists(repo, candidates[j])
    decreases |candidates|
  {
    if |candidates| == 0 then 0
    else if BranchExists(repo, candidates[0]) then 0
    else 1 + FirstExisting(repo, candidates[1..])
  }

  /** `GetMainBranch`: the first candidate, in order, that exists locally or
      on `origin`; an error exactly when none does. */
  function GetMainBranch(repo: Repository, candidates: seq<string>): (r: Result<string, GitError>)
    ensures r.Err? <==> forall j :: 0 <= j < |candidates| ==> !BranchExists(repo, candidates[j])
    ensures r.Err? ==> r.error == NoMainBranch(candidates)
    ensures r.Ok? ==> exists k :: (0 <= k < |candidates| && r.value == candidates[k]
      && BranchExists(repo, candidates[k])
      && forall j :: 0 <= j < k ==> !BranchExists(repo, candidates[j]))
  {
    var k := FirstExisting(repo, candidates);
    if k == |candidates| then Err(NoMainBranch(candidates)) else Ok(candidates[k])
  }

  /** A branch's commit: the local branch, else the `origin` branch. */
  function ResolveBranch(repo: Repository, name: string): (r: Result<CommitId, GitError>)
    ensures r.Ok? <==> BranchExists(repo, name)
    ensures r.Ok? ==> r.value == if name in repo.local then repo.local[name] else repo.origin[name]
    ensures r.Err? ==> r.error == BranchNotFound(name)
  {
    if name in repo.local then Ok(repo.local[name])
    else if name in repo.origin then Ok(repo.origin[name])
    else Err(BranchNotFound(name))
  }

  /** The current branch's commit: the local branch, else the `origin`
      branch, else whatever HEAD resolves to. */
  function ResolveCurrent(repo: Repository, name: string): (r: Result<CommitId, GitError>)
    ensures BranchExists(repo, name) ==> r == ResolveBranch(repo, name)
    ensures !BranchExists(repo, name) ==> r == HeadCommit(repo)
  {
    if BranchExists(repo, name) then ResolveBranch(repo, name) else HeadCommit(repo)
  }

  /** `GetCommitCount`: the length of the walk from HEAD. */
  function GetCommitCount(repo: Repository): (r: Result<nat, GitError>)
    ensures r.Ok? <==> HeadCommit(repo).Ok? && HeadCommit(repo).value in repo.log
    ensures r.Ok? ==> r.value == |repo.log[HeadCommit(repo).value]|
  {
    var h :- HeadCommit(repo);
    var walk :- Log(repo, h);
    Ok(|walk|)
  }

  /** `GetMainBranchCommitCount`: the length of the walk from the main
      branch, local or `origin`. */
  function GetMainBranchCommitCount(repo: Repository, mainBranch: string): (r: Result<nat, GitError>)
    ensures r.Ok? <==> ResolveBranch(repo, mainBranch).Ok? && ResolveBranch(repo, mainBranch).value in repo.log
    ensures r.Ok? ==> r.value == |repo.log[ResolveBranch(repo, mainBranch).value]|
  {
    var c :- ResolveBranch(repo, mainBranch);
    var walk :- Log(repo, c);
    Ok(|walk|)
  }

  // ---------------------------------------------------------------------
  // Merge base and the since-branch-point queries
  // ---------------------------------------------------------------------

  /** Position of the first element of `a` that occurs in `b`, or `|a|`. */
  function FirstShared(a: seq<CommitId>, b: seq<CommitId>): (i: nat)
    ensures i <= |a|
    ensures i < |a| ==> a[i] in b
    ensures forall j :: 0 <= j < i ==> a[j] !in b
    decreases |a|
  {
    if |a| == 0 then 0
    else if a[0] in b then 0
    else 1 + FirstShared(a[1..], b)
  }

  /** `findMergeBase`: the first commit of the walk from `c2` that the walk
      from `c1` also visits; an error when the walks are disjoint. */
  function FindMergeBase(repo: Repository, c1: CommitId, c2: CommitId): (r: Result<CommitId, GitError>)
    ensures c1 !in repo.log ==> r == Err(MissingCommit(c1))
    ensures c1 in repo.log && c2 !in repo.log ==> r == Err(MissingCommit(c2))
    ensures c1 in repo.log && c2 in repo.log ==>
      (r.Err? <==> forall x :: x in repo.log[c2] ==> x !in repo.log[c1])
    ensures r.Err? && c1 in repo.log && c2 in repo.log ==> r.error == NoCommonAncestor
    ensures r.Ok? ==> (
      && c1 in repo.log && c2 in repo.log
      && r.value in repo.log[c1]
      && exists k :: (0 <= k < |repo.log[c2]| && repo.log[c2][k] == r.value
           && forall j :: 0 <= j < k ==> repo.log[c2][j] !in repo.log[c1]))
  {
    var walk1 :- Log(repo, c1);
    var walk2 :- Log(repo, c2);
    var i := FirstShared(walk2, walk1);
    if i == |walk2| then
      assert forall x :: x in walk2 ==> x !in walk1 by {
        forall x | x in walk2 ensures x !in walk1 {
          var j :| 0 <= j < |walk2| && walk2[j] == x;
        }
      }
      Err(NoCommonAncestor)
    else Ok(walk2[i])
  }

  /** The commits the since-branch-point queries work from. */
  datatype BranchPoint = BranchPoint(currentTip: CommitId, mainTip: CommitId, base: CommitId)

  /** The prologue the since-branch-point queries share: resolve the current
      branch (local, `origin`, HEAD), then the main branch (local, `origin`),
      then their merge base. */
  function FindBranchPoint(repo: Repository, mainBranch: string, currentBranch: string): (r: Result<BranchPoint, GitError>)
    ensures r.Ok? ==>
      && ResolveCurrent(repo, currentBranch) == Ok(r.value.currentTip)
      && ResolveBranch(repo, mainBranch) == Ok(r.value.mainTip)
      && FindMergeBase(repo, r.value.currentTip, r.value.mainTip) == Ok(r.value.base)
  {
    var currentTip :- ResolveCurrent(repo, currentBranch);
    var mainTip :- ResolveBranch(repo, mainBranch);
    var base :- FindMergeBase(repo, currentTip, mainTip);
    Ok(BranchPoint(currentTip, mainTip, base))
  }

  /** `GetCommitCountSinceBranchPoint`: 0 on the main branch itself;
      otherwise the number of commits the walk from the current branch visits
      before the merge base. */
  function GetCommitCountSinceBranchPoint(repo: Repository, mainBranch: string, currentBranch: string): (r: Result<nat, GitError>)
    ensures currentBranch == mainBranch ==> r == Ok(0)
    ensures currentBranch != mainBranch ==> (r.Ok? <==> FindBranchPoint(repo, mainBranch, currentBranch).Ok?)
    ensures currentBranch != mainBranch && r.Ok? ==>
      var bp := FindBranchPoint(repo, mainBranch, currentBranch).value;
      && r.value < |repo.log[bp.currentTip]|
      && repo.log[bp.currentTip][r.value] == bp.base
      && bp.base !in repo.log[bp.currentTip][..r.value]
  {
    if currentBranch == mainBranch then Ok(0)
    else
      var bp :- FindBranchPoint(repo, mainBranch, currentBranch);
      Ok(IndexOf(repo.log[bp.currentTip], bp.base))
  }

  /** `GetMainBranchCommitsSinceBranchPoint`: 0 on the main branch itself;
      otherwise the number of commits the walk from the main branch visits
      before the merge base. */
  function GetMainBranchCommitsSinceBranchPoint(repo: Repository, mainBranch: string, currentBranch: string): (r: Result<nat, GitError>)
    ensures currentBranch == mainBranch ==> r == Ok(0)
    ensures currentBranch != mainBranch ==> (r.Ok? <==> FindBranchPoint(repo, mainBranch, currentBranch).Ok?)
    ensures currentBranch != mainBranch && r.Ok? ==>
      var bp := FindBranchPoint(repo, mainBranch, currentBranch).value;
      && r.value < |repo.log[bp.mainTip]|
      && repo.log[bp.mainTip][r.value] == bp.base
      && bp.base !in repo.log[bp.mainTip][..r.value]
  {
    if currentBranch == mainBranch then Ok(0)
    else
      var bp :- FindBranchPoint(repo, mainBranch, currentBranch);
      Ok(IndexOf(repo.log[bp.mainTip], bp.base))
  }

  // ---------------------------------------------------------------------
  // Outdated-base checks
  // ---------------------------------------------------------------------

  /** Some tag marks this commit. */
  predicate IsTagged(tags: seq<Tag>, c: CommitId) {
    exists t :: t in tags && t.target == c
  }

  /** The commit-to-tag-name map built by iterating the tags: a later tag on
      the same commit overwrites an earlier one. */
  function TagMap(tags: seq<Tag>): (m: map<CommitId, string>)
    ensures forall c :: c in m <==> IsTagged(tags, c)
    decreases |tags|
  {
    if |tags| == 0 then map[]
    else
      var init := tags[..|tags| - 1];
      var last := tags[|tags| - 1];
      assert forall t :: t in init ==> t in tags;
      assert forall t :: t in tags ==> t in init || t == last;
      TagMap(init)[last.target := last.name]
  }

  /** Each commit of the map carries the name of the last-listed tag on it:
      a later tag on the same commit overwrites an earlier one. */
  lemma {:induction false} TagMapNamesLastTag(tags: seq<Tag>, c: CommitId)
    requires c in TagMap(tags)
    ensures exists i :: LastTagOn(tags, c, i) && TagMap(tags)[c] == tags[i].name
    decreases |tags|
  {
    var init := tags[..|tags| - 1];
    var last := tags[|tags| - 1];
    if c == last.target {
      assert LastTagOn(tags, c, |tags| - 1);
    } else {
      TagMapNamesLastTag(init, c);
      var i :| LastTagOn(init, c, i) && TagMap(init)[c] == init[i].name;
      LastTagOnExtend(init, last, c, i);
      assert tags == init + [last];
    }
  }

  /** Appending a tag on another commit keeps the last tag on `c`. */
  lemma LastTagOnExtend(init: seq<Tag>, last: Tag, c: CommitId, i: int)
    requires LastTagOn(init, c, i) && last.target != c
    ensures LastTagOn(init + [last], c, i)
  {
  }

  /** Entry `i` is the last tag in the list that marks commit `c`. */
  predicate LastTagOn(tags: seq<Tag>, c: CommitId, i: int) {
    0 <= i < |tags| && tags[i].target == c && forall k :: i < k < |tags| ==> tags[k].target != c
  }

  /** The name of the first commit of `walk` that carries a non-empty tag
      name, or "". */
  function FirstTagName(walk: seq<CommitId>, m: map<CommitId, string>): (r: string)
    ensures r == "" ==> forall k :: 0 <= k < |walk| ==> !NamedIn(walk[k], m)
    ensures r != "" ==> exists j :: FirstNamedAt(walk, m, j) && m[walk[j]] == r
    decreases |walk|
  {
    if |walk| == 0 then ""
    else if walk[0] in m && m[walk[0]] != "" then m[walk[0]]
    else FirstTagName(walk[1..], m)
  }

  /** The map gives commit `c` a non-empty name. */
  predicate NamedIn(c: CommitId, m: map<CommitId, string>) {
    c in m && m[c] != ""
  }

  /** `walk[j]` is the first commit of the walk that the map names. */
  predicate FirstNamedAt(walk: seq<CommitId>, m: map<CommitId, string>, j: int) {
    0 <= j < |walk| && NamedIn(walk[j], m) && forall k :: 0 <= k < j ==> !NamedIn(walk[k], m)
  }

  /** Some commit of `walk` is tagged. */
  function AnyTagged(walk: seq<CommitId>, m: map<CommitId, string>): (b: bool)
    ensures b <==> exists j :: 0 <= j < |walk| && walk[j] in m
    decreases |walk|
  {
    if |walk| == 0 then false
    else if walk[0] in m then true
    else
      var b := AnyTagged(walk[1..], m);
      assert b <==> exists j :: 1 <= j < |walk| && walk[j] in m by {
        assert forall j :: 1 <= j < |walk| ==> walk[j] == walk[1..][j - 1];
        if b {
          var j :| 0 <= j < |walk| - 1 && walk[1..][j] in m;
          assert walk[j + 1] in m;
        }
      }
      b
  }

  /** `CheckMainBranchHasNewTagsSinceBranchPoint`: false on the main branch
      itself; otherwise whether a commit the main branch's walk visits before
      the merge base is any tag's target, with the first such tag's name.
      No prefix or version filter applies. */
  function CheckMainBranchHasNewTags(repo: Repository, mainBranch: string, currentBranch: string): (r: Result<(bool, string), GitError>)
    ensures currentBranch == mainBranch ==> r == Ok((false, ""))
    ensures currentBranch != mainBranch ==> (r.Ok? <==> FindBranchPoint(repo, mainBranch, currentBranch).Ok?)
    ensures currentBranch != mainBranch && r.Ok? ==>
      var bp := FindBranchPoint(repo, mainBranch, currentBranch).value;
      var walk := repo.log[bp.mainTip];
      (r.value.0 <==> exists j :: 0 <= j < IndexOf(walk, bp.base) && IsTagged(repo.tags, walk[j]))
  {
    if currentBranch == mainBranch then Ok((false, ""))
    else
      var bp :- FindBranchPoint(repo, mainBranch, currentBranch);
      var walk := repo.log[bp.mainTip];
      var m := TagMap(repo.tags);
      var newer := walk[..IndexOf(walk, bp.base)];
      Ok((AnyTagged(newer, m), FirstTagName(newer, m)))
  }

  /** The tag name the new-tags check reports is the last-listed tag on a
      commit the main branch's walk visits before the merge base. */
  lemma NewTagNameIsOnMainWalk(repo: Repository, mainBranch: string, currentBranch: string)
    requires currentBranch != mainBranch
    requires CheckMainBranchHasNewTags(repo, mainBranch, currentBranch).Ok?
    requires CheckMainBranchHasNewTags(repo, mainBranch, currentBranch).value.1 != ""
    ensures var bp := FindBranchPoint(repo, mainBranch, currentBranch).value;
      var walk := repo.log[bp.mainTip];
      exists j, i :: 0 <= j < IndexOf(walk, bp.base) && LastTagOn(repo.tags, walk[j], i)
        && repo.tags[i].name == CheckMainBranchHasNewTags(repo, mainBranch, currentBranch).value.1
  {
    var bp := FindBranchPoint(repo, mainBranch, currentBranch).value;
    var walk := repo.log[bp.mainTip];
    NewTagNameSource(walk, IndexOf(walk, bp.base), repo.tags);
  }

  /** A name found among the first `n` commits of a walk is the last-listed
      tag on one of them. */
  lemma NewTagNameSource(walk: seq<CommitId>, n: int, tags: seq<Tag>)
    requires 0 <= n <= |walk|
    ensures var name := FirstTagName(walk[..n], TagMap(tags));
      name != "" ==> exists j, i :: 0 <= j < n && LastTagOn(tags, walk[j], i) && tags[i].name == name
  {
    var m := TagMap(tags);
    var newer := walk[..n];
    var name := FirstTagName(newer, m);
    if name != "" {
      var j :| FirstNamedAt(newer, m, j) && m[newer[j]] == name;
      assert newer[j] == walk[j];
      TagMapNamesLastTag(tags, walk[j]);
      var i :| LastTagOn(tags, walk[j], i) && m[walk[j]] == tags[i].name;
    }
  }

  /** `CheckMainBranchHasNewCommitsSinceBranchPoint`: false on the main
      branch itself; otherwise whether the main branch's tip differs from the
      merge base. */
  function CheckMainBranchHasNewCommits(repo: Repository, mainBranch: string, currentBranch: string): (r: Result<bool, GitError>)
    ensures currentBranch == mainBranch ==> r == Ok(false)
    ensures currentBranch != mainBranch ==> (r.Ok? <==> FindBranchPoint(repo, mainBranch, currentBranch).Ok?)
    ensures currentBranch != mainBranch && r.Ok? ==>
      var bp := FindBranchPoint(repo, mainBranch, currentBranch).value;
      (r.value <==> bp.mainTip != bp.base)
  {
    if currentBranch == mainBranch then Ok(false)
    else
      var bp :- FindBranchPoint(repo, mainBranch, currentBranch);
      Ok(bp.mainTip != bp.base)
  }

  // ---------------------------------------------------------------------
  // Tags
  // ---------------------------------------------------------------------

  /** Names of the tags on commit `c`, in iteration order. */
  function TagsOnCommit(tags: seq<Tag>, c: CommitId): (names: seq<string>)
    ensures |names| == 0 <==> !IsTagged(tags, c)
    ensures forall n :: n in names <==> exists t :: t in tags && t.target == c && t.name == n
    decreases |tags|
  {
    if |tags| == 0 then []
    else
      var rest := TagsOnCommit(tags[1..], c);
      assert forall t :: t in tags <==> t == tags[0] || t in tags[1..];
      if tags[0].target == c then [tags[0].name] + rest else rest
  }

  /** `GetTagOnCurrentCommit`: "" when no tag marks HEAD; otherwise the tag
      with the highest version among those on HEAD, judged on the raw names
      (no prefix is stripped or required), the earliest winning ties and the
      first one standing in when none parses. */
  function GetTagOnCurrentCommit(repo: Repository): (r: Result<string, GitError>)
    ensures r.Ok? <==> HeadCommit(repo).Ok?
    ensures r.Ok? ==>
      var names := TagsOnCommit(repo.tags, HeadCommit(repo).value);
      && (names == [] ==> r.value == "")
      && (names != [] ==> exists k :: 0 <= k < |names| && r.value == names[k] && IsSelection(Keys(names, ""), k))
  {
    var h :- HeadCommit(repo);
    var found := TagsOnCommit(repo.tags, h);
    if |found| == 0 then Ok("")
    else if |found| > 1 then Ok(SelectHighestSemverTag(found))
    else
      assert IsSelection(Keys(found, ""), 0);
      Ok(found[0])
  }

  /** A reachable tag: its name and its distance from HEAD. */
  datatype Candidate = Candidate(name: string, distance: nat)

  /** The tag's name carries the prefix (`strings.HasPrefix`); an empty
      prefix admits every tag. */
  predicate MatchesPrefix(name: string, prefix: string) {
    prefix == "" || prefix <= name
  }

  /** The tags, in order, that match the prefix and whose commit the walk
      from HEAD visits, each with its position in the walk (the last one,
      as the distance map built from the walk keeps the last). */
  function Candidates(tags: seq<Tag>, prefix: string, walk: seq<CommitId>): (cs: seq<Candidate>)
    ensures |cs| <= |tags|
    ensures forall c :: c in cs ==> exists t :: (t in tags && t.name == c.name
      && MatchesPrefix(t.name, prefix) && c.distance == LastIndexOf(walk, t.target) && t.target in walk)
    ensures forall t :: t in tags && MatchesPrefix(t.name, prefix) && t.target in walk ==>
      Candidate(t.name, LastIndexOf(walk, t.target)) in cs
    decreases |tags|
  {
    if |tags| == 0 then []
    else
      var rest := Candidates(tags[1..], prefix, walk);
      var t := tags[0];
      assert forall u :: u in tags <==> u == t || u in tags[1..];
      var d := LastIndexOf(walk, t.target);
      if MatchesPrefix(t.name, prefix) && d >= 0 then
        assert t.target in walk by {
          assert walk[d] == t.target;
        }
        [Candidate(t.name, d)] + rest
      else
        assert MatchesPrefix(t.name, prefix) ==> t.target !in walk;
        rest
  }

  function Names(cs: seq<Candidate>): (names: seq<string>)
    ensures |names| == |cs| && forall i :: 0 <= i < |cs| ==> names[i] == cs[i].name
  {
    seq(|cs|, i requires 0 <= i < |cs| => cs[i].name)
  }

  /** `GetMostRecentTag`: among the reachable, prefix-matching tags, the one
      whose stripped name has the highest version (earliest on ties; the
      first candidate when none parses), with its distance from HEAD;
      ("", 0) when there is no candidate. */
  function GetMostRecentTag(repo: Repository, prefix: string): (r: Result<(string, nat), GitError>)
    ensures r.Ok? <==> HeadCommit(repo).Ok? && HeadCommit(repo).value in repo.log
    ensures r.Ok? ==>
      var cs := Candidates(repo.tags, prefix, repo.log[HeadCommit(repo).value]);
      && (cs == [] ==> r.value == ("", 0))
      && (cs != [] ==> exists k :: (0 <= k < |cs| && r.value == (cs[k].name, cs[k].distance)
            && IsSelection(Keys(Names(cs), prefix), k)))
  {
    var h :- HeadCommit(repo);
    var walk :- Log(repo, h);
    var cs := Candidates(repo.tags, prefix, walk);
    if |cs| == 0 then Ok(("", 0))
    else
      var keys := Keys(Names(cs), prefix);
      assert RecentInvariant(keys, 0, None, false);
      ScanRecentIsSelection(keys, 0, None, false);
      var k := ScanRecent(keys, 0, None, false).value;
      Ok((cs[k].name, cs[k].distance))
  }

  /** `IsTagInHistory`: whether the walk from HEAD visits the commit the
      named tag marks; the first tag of that name is the one looked up. */
  function IsTagInHistory(repo: Repository, tagName: string): (r: Result<bool, GitError>)
    ensures r.Ok? <==> (HeadCommit(repo).Ok? && (exists t :: t in repo.tags && t.name == tagName)
      && HeadCommit(repo).value in repo.log)
    ensures r.Ok? ==> (r.value <==> exists t :: (t in repo.tags && t.name == tagName
      && FirstNamed(repo.tags, tagName) == t && t.target in repo.log[HeadCommit(repo).value]))
  {
    var h :- HeadCommit(repo);
    if forall t :: t in repo.tags ==> t.name != tagName then Err(TagNotFound(tagName))
    else
      var t := FirstNamed(repo.tags, tagName);
      var walk :- Log(repo, h);
      Ok(t.target in walk)
  }

  /** The first tag of that name. */
  function FirstNamed(tags: seq<Tag>, tagName: string): (t: Tag)
    requires exists t :: t in tags && t.name == tagName
    ensures t in tags && t.name == tagName
    decreases |tags|
  {
    if tags[0].name == tagName then tags[0]
    else
      assert forall u :: u in tags && u != tags[0] ==> u in tags[1..];
      FirstNamed(tags[1..], tagName)
  }

  // ---------------------------------------------------------------------
  // Properties
  // ---------------------------------------------------------------------

  /** Of two tags that both yield a candidate, the earlier one's candidate
      comes first: it lies among the candidates of the tags before the later
      one, and the later one's candidate follows them directly. */
  lemma CandidatesKeepOrder(tags: seq<Tag>, prefix: string, walk: seq<CommitId>, i: int, j: int)
    requires 0 <= i < j < |tags|
    requires MatchesPrefix(tags[i].name, prefix) && tags[i].target in walk
    requires MatchesPrefix(tags[j].name, prefix) && tags[j].target in walk
    ensures var cs := Candidates(tags, prefix, walk);
      var n := |Candidates(tags[..j], prefix, walk)|;
      && n < |cs|
      && cs[n] == Candidate(tags[j].name, LastIndexOf(walk, tags[j].target))
      && Candidate(tags[i].name, LastIndexOf(walk, tags[i].target)) in cs[..n]
  {
    var front, back := tags[..j], tags[j..];
    assert tags == front + back;
    CandidatesConcat(front, back, prefix, walk);
    assert back[0] == tags[j];
    assert tags[i] in front by {
      assert front[i] == tags[i];
    }
    var cs := Candidates(tags, prefix, walk);
    var n := |Candidates(front, prefix, walk)|;
    assert cs[..n] == Candidates(front, prefix, walk);
  }

  /** The candidates of one tag: itself with its distance, when its name
      matches the prefix and the walk visits its commit; none otherwise. */
  lemma CandidatesOfOne(t: Tag, prefix: string, walk: seq<CommitId>)
    ensures Candidates([t], prefix, walk) ==
      if MatchesPrefix(t.name, prefix) && t.target in walk then [Candidate(t.name, LastIndexOf(walk, t.target))] else []
  {
    assert [t][1..] == [];
  }

  /** Candidates are gathered tag by tag, in the order of the tags: those of
      an earlier stretch of tags all come before those of a later one, which
      is the order `GetMostRecentTag` breaks ties in. */
  lemma {:induction false} CandidatesConcat(a: seq<Tag>, b: seq<Tag>, prefix: string, walk: seq<CommitId>)
    ensures Candidates(a + b, prefix, walk) == Candidates(a, prefix, walk) + Candidates(b, prefix, walk)
    decreases |a|
  {
    if |a| == 0 {
      assert a + b == b;
    } else {
      assert (a + b)[0] == a[0];
      assert (a + b)[1..] == a[1..] + b;
      CandidatesConcat(a[1..], b, prefix, walk);
    }
  }

  /** Whether two walks share a commit does not depend on which one is
      searched: the merge base exists in one order exactly when it exists
      in the other. */
  lemma MergeBaseExistsSymmetric(repo: Repository, c1: CommitId, c2: CommitId)
    requires c1 in repo.log && c2 in repo.log
    ensures FindMergeBase(repo, c1, c2).Ok? <==> FindMergeBase(repo, c2, c1).Ok?
  {
    if FindMergeBase(repo, c1, c2).Ok? {
      var b := FindMergeBase(repo, c1, c2).value;
      assert b in repo.log[c2] && b in repo.log[c1];
    }
    if FindMergeBase(repo, c2, c1).Ok? {
      var b := FindMergeBase(repo, c2, c1).value;
      assert b in repo.log[c1] && b in repo.log[c2];
    }
  }

  /** When the walk from `c1` visits `c2` (the main branch is an ancestor of
      the current one), the merge base is `c2` itself. */
  lemma MergeBaseOfAncestor(repo: Repository, c1: CommitId, c2: CommitId)
    requires WellFormed(repo)
    requires c1 in repo.log && c2 in repo.log && c2 in repo.log[c1]
    ensures FindMergeBase(repo, c1, c2) == Ok(c2)
  {
    assert repo.log[c2][0] == c2;
  }

  /** The commits check and the main-branch count agree: the main branch has
      new commits exactly when it is ahead of the merge base by at least one. */
  lemma NewCommitsIffMainCount(repo: Repository, mainBranch: string, currentBranch: string)
    requires WellFormed(repo)
    ensures CheckMainBranchHasNewCommits(repo, mainBranch, currentBranch).Ok?
      == GetMainBranchCommitsSinceBranchPoint(repo, mainBranch, currentBranch).Ok?
    ensures CheckMainBranchHasNewCommits(repo, mainBranch, currentBranch).Ok? ==>
      var hasNew := CheckMainBranchHasNewCommits(repo, mainBranch, currentBranch).value;
      var count := GetMainBranchCommitsSinceBranchPoint(repo, mainBranch, currentBranch).value;
      hasNew <==> count > 0
  {
    if currentBranch != mainBranch && FindBranchPoint(repo, mainBranch, currentBranch).Ok? {
      var bp := FindBranchPoint(repo, mainBranch, currentBranch).value;
      assert repo.log[bp.mainTip][0] == bp.mainTip;
    }
  }

  /** The current branch has no commits of its own exactly when its tip is
      the merge base. */
  lemma BranchCountZeroIffAtBase(repo: Repository, mainBranch: string, currentBranch: string)
    requires WellFormed(repo)
    requires currentBranch != mainBranch
    requires FindBranchPoint(repo, mainBranch, currentBranch).Ok?
    ensures var bp := FindBranchPoint(repo, mainBranch, currentBranch).value;
      GetCommitCountSinceBranchPoint(repo, mainBranch, currentBranch) == Ok(0) <==> bp.currentTip == bp.base
  {
    var bp := FindBranchPoint(repo, mainBranch, currentBranch).value;
    assert repo.log[bp.currentTip][0] == bp.currentTip;
  }

  /** New tags on the main branch need new commits there: when its tip is
      the merge base there is nothing to find. */
  lemma NoNewTagsWithoutNewCommits(repo: Repository, mainBranch: string, currentBranch: string)
    requires WellFormed(repo)
    requires CheckMainBranchHasNewCommits(repo, mainBranch, currentBranch) == Ok(false)
    ensures CheckMainBranchHasNewTags(repo, mainBranch, currentBranch) == Ok((false, ""))
  {
    if currentBranch != mainBranch {
      var bp := FindBranchPoint(repo, mainBranch, currentBranch).value;
      assert repo.log[bp.mainTip][0] == bp.mainTip;
    }
  }

  /** In a well-formed walk from HEAD, a tag is at distance 0 exactly when
      it marks HEAD. */
  lemma DistanceZeroIffOnHead(repo: Repository, h: CommitId, target: CommitId)
    requires WellFormed(repo)
    requires h in repo.log && target in repo.log[h]
    ensures LastIndexOf(repo.log[h], target) == 0 <==> target == h
  {
    var walk := repo.log[h];
    var d := LastIndexOf(walk, target);
    var j :| 0 <= j < |walk| && walk[j] == target;
    assert d >= j;
    if target == h {
      assert walk[0] == h && walk[d] == h;
    }
  }
}
