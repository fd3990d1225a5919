/** Tag-prefix stripping and the conversion of a branch name into a
    prerelease identifier. */
module BranchNames {
  import opened Strings
  import Defaults

  /** `StripTagPrefix`: with an empty prefix the tag is returned as is;
      otherwise one leading copy of the prefix is removed, if present. */
  function StripTagPrefix(tag: string, prefix: string): (r: string)
    ensures prefix != "" && prefix <= tag ==> prefix + r == tag
    ensures prefix == "" || !(prefix <= tag) ==> r == tag
  {
    if prefix == "" then tag else TrimPrefix(tag, prefix)
  }

  // ---------------------------------------------------------------------
  // The steps of SanitizeBranchName
  // ---------------------------------------------------------------------

  /** Removes each prefix of the list in turn, case-sensitively: a later
      prefix is tried on what the earlier ones left. */
  function TrimPrefixes(s: string, prefixes: seq<string>): (r: string)
    ensures |r| <= |s| && s[|s| - |r|..] == r
    decreases |prefixes|
  {
    if |prefixes| == 0 then s
    else
      var t := TrimPrefix(s, prefixes[0]);
      assert s[|s| - |t|..] == t;
      TrimPrefixes(t, prefixes[1..])
  }

  /** A character of the class `[a-zA-Z0-9-]`. */
  predicate IsBranchChar(c: char) {
    IsAsciiAlnum(c) || c == '-'
  }

  /** A character the sanitised name may contain: `[a-z0-9-]`. */
  predicate IsLowerBranchChar(c: char) {
    IsBranchChar(c) && !('A' <= c <= 'Z')
  }

  predicate AllBranchChars(s: string) {
    forall i :: 0 <= i < |s| ==> IsBranchChar(s[i])
  }

  /** Replaces every character outside `[a-zA-Z0-9-]` by '-'. */
  function ReplaceInvalid(s: string): (r: string)
    ensures |r| == |s|
    ensures AllBranchChars(r)
    ensures forall i :: 0 <= i < |r| ==> IsBranchChar(s[i]) ==> r[i] == s[i]
    ensures forall i :: 0 <= i < |r| ==> !IsBranchChar(s[i]) ==> r[i] == '-'
    decreases |s|
  {
    if |s| == 0 then ""
    else [if IsBranchChar(s[0]) then s[0] else '-'] + ReplaceInvalid(s[1..])
  }

  /** Removes every leading '-'. */
  function TrimLeadingHyphens(s: string): (r: string)
    ensures |r| <= |s| && s[|s| - |r|..] == r
    ensures |r| > 0 ==> r[0] != '-'
    ensures forall i :: 0 <= i < |s| - |r| ==> s[i] == '-'
    ensures r == "" ==> forall i :: 0 <= i < |s| ==> s[i] == '-'
    decreases |s|
  {
    if |s| > 0 && s[0] == '-' then TrimLeadingHyphens(s[1..]) else s
  }

  /** Removes every trailing '-'. */
  function TrimTrailingHyphens(s: string): (r: string)
    ensures |r| <= |s| && r == s[..|r|]
    ensures |r| > 0 ==> r[|r| - 1] != '-'
    ensures forall i :: |r| <= i < |s| ==> s[i] == '-'
    decreases |s|
  {
    if |s| > 0 && s[|s| - 1] == '-' then TrimTrailingHyphens(s[..|s| - 1]) else s
  }

  /** `r` is the slice of `s` that starts at `i`, and everything of `s`
      before and after that slice is '-'. */
  predicate HyphenCut(s: string, i: int, r: string) {
    && 0 <= i <= |s| - |r|
    && r == s[i..i + |r|]
    && (forall k :: 0 <= k < i ==> s[k] == '-')
    && (forall k :: i + |r| <= k < |s| ==> s[k] == '-')
  }

  /** `strings.Trim(s, "-")`: removes the '-' at both ends.  The result is
      the slice of `s` left once the runs of '-' at its two ends are cut. */
  function TrimHyphens(s: string): (r: string)
    ensures exists i :: HyphenCut(s, i, r)
    ensures AllBranchChars(s) ==> AllBranchChars(r)
    ensures |r| > 0 ==> r[0] != '-' && r[|r| - 1] != '-'
  {
    var t := TrimLeadingHyphens(s);
    var r := TrimTrailingHyphens(t);
    CutBothEnds(s, t, r);
    assert HyphenCut(s, |s| - |t|, r);
    r
  }

  /** Cutting a run of '-' from the front of `s`, leaving `t`, and then one
      from the back of `t`, leaving `r`. */
  lemma CutBothEnds(s: string, t: string, r: string)
    requires |t| <= |s| && s[|s| - |t|..] == t
    requires forall k :: 0 <= k < |s| - |t| ==> s[k] == '-'
    requires |r| <= |t| && r == t[..|r|]
    requires forall k :: |r| <= k < |t| ==> t[k] == '-'
    ensures HyphenCut(s, |s| - |t|, r)
    ensures AllBranchChars(s) ==> AllBranchChars(r)
    ensures |r| > 0 ==> r[0] == t[0]
  {
    var i := |s| - |t|;
    assert r == s[i..i + |r|];
    forall k | i + |r| <= k < |s|
      ensures s[k] == '-'
    {
      assert s[k] == t[k - i];
    }
    assert AllBranchChars(s) ==> AllBranchChars(r) by {
      if AllBranchChars(s) {
        forall k | 0 <= k < |r|
          ensures IsBranchChar(r[k])
        {
          assert r[k] == s[i + k];
        }
      }
    }
  }

  /** No two adjacent '-'. */
  predicate NoDoubleHyphen(s: string) {
    forall i :: 0 <= i < |s| - 1 ==> !(s[i] == '-' && s[i + 1] == '-')
  }

  /** Replaces every run of '-' by a single '-'. */
  function CollapseHyphens(s: string): (r: string)
    ensures |r| <= |s|
    ensures |s| > 0 ==> |r| > 0 && r[0] == s[0] && r[|r| - 1] == s[|s| - 1]
    ensures AllBranchChars(s) ==> AllBranchChars(r)
    ensures NoDoubleHyphen(r)
    decreases |s|
  {
    if |s| < 2 then s
    else
      var rest := CollapseHyphens(s[1..]);
      assert rest[0] == s[1];
      assert AllBranchChars(s) ==> AllBranchChars(s[1..]);
      if s[0] == '-' && s[1] == '-' then rest
      else
        var r := [s[0]] + rest;
        assert forall i :: 1 <= i < |r| - 1 ==> r[i] == rest[i - 1] && r[i + 1] == rest[i];
        r
  }

  /** The characters of `s` other than '-', in order. */
  function WithoutHyphens(s: string): string
    decreases |s|
  {
    if |s| == 0 then "" else (if s[0] == '-' then "" else [s[0]]) + WithoutHyphens(s[1..])
  }

  /** The ASCII letters and digits of `s`, in order. */
  function AlnumOnly(s: string): string
    decreases |s|
  {
    if |s| == 0 then "" else (if IsAsciiAlnum(s[0]) then [s[0]] else "") + AlnumOnly(s[1..])
  }

  /** ASCII lower-casing, character by character. */
  function LowerAscii(s: string): (r: string)
    ensures |r| == |s|
    ensures forall i :: 0 <= i < |s| ==> r[i] == AsciiLower(s[i])
    decreases |s|
  {
    if |s| == 0 then "" else [AsciiLower(s[0])] + LowerAscii(s[1..])
  }

  /** The shape of every sanitised branch name: a non-empty run of
      `[a-z0-9-]` that neither starts nor ends with '-' and has no "--". */
  predicate IsSanitized(s: string) {
    && |s| >= 1
    && (forall i :: 0 <= i < |s| ==> IsLowerBranchChar(s[i]))
    && s[0] != '-' && s[|s| - 1] != '-'
    && NoDoubleHyphen(s)
  }

  /** Everything `SanitizeBranchName` does after the prefixes are gone:
      replace invalid characters by '-', trim '-' at both ends, collapse runs
      of '-', lower the case, and fall back to "unknown" when nothing is left. */
  function Normalize(s: string): (r: string)
    ensures IsSanitized(r)
  {
    var replaced := ReplaceInvalid(s);
    var trimmed := TrimHyphens(replaced);
    var collapsed := CollapseHyphens(trimmed);
    var lowered := LowerAscii(collapsed);
    if |lowered| == 0 then
      assert Defaults.UnknownBranchName == "unknown";
      Defaults.UnknownBranchName
    else
      LowerKeepsShape(collapsed);
      lowered
  }

  /** `SanitizeBranchName`: strip the conventional prefixes, then normalise. */
  function SanitizeBranchName(branch: string): (r: string)
    ensures IsSanitized(r)
  {
    Normalize(TrimPrefixes(branch, Defaults.BranchPrefixesToStrip))
  }

  /** Lower-casing a run of `[a-zA-Z0-9-]` without "--" or '-' at its ends
      gives a sanitised name. */
  lemma LowerKeepsShape(c: string)
    requires |c| >= 1 && c[0] != '-' && c[|c| - 1] != '-' && NoDoubleHyphen(c)
    requires AllBranchChars(c)
    ensures IsSanitized(LowerAscii(c))
  {
    var l := LowerAscii(c);
    forall i | 0 <= i < |l| - 1
      ensures !(l[i] == '-' && l[i + 1] == '-')
    {
      assert l[i] == AsciiLower(c[i]) && l[i + 1] == AsciiLower(c[i + 1]);
    }
  }

  // ---------------------------------------------------------------------
  // Properties
  // ---------------------------------------------------------------------

  /** A name without '/' is unaffected by prefix stripping: every
      conventional prefix ends with '/'. */
  lemma {:induction false} TrimPrefixesNoSlash(s: string, prefixes: seq<string>)
    requires '/' !in s
    requires forall k :: 0 <= k < |prefixes| ==> '/' in prefixes[k]
    ensures TrimPrefixes(s, prefixes) == s
    decreases |prefixes|
  {
    if |prefixes| > 0 {
      TrimPrefixesNoSlash(s, prefixes[1..]);
    }
  }

  /** None of `prefixes` begins `t`. */
  predicate StartsWithNoneOf(t: string, prefixes: seq<string>) {
    forall k :: 0 <= k < |prefixes| ==> !(prefixes[k] <= t)
  }

  /** A name that begins with none of the prefixes is left as it is. */
  lemma {:induction false} TrimPrefixesNone(t: string, prefixes: seq<string>)
    requires StartsWithNoneOf(t, prefixes)
    ensures TrimPrefixes(t, prefixes) == t
    decreases |prefixes|
  {
    if |prefixes| > 0 {
      TrimPrefixesNone(t, prefixes[1..]);
    }
  }

  lemma PrefixKeepsChar(q: string, t: string, j: int)
    requires 0 <= j < |q|
    ensures q <= t ==> j < |t| && t[j] == q[j]
  {
  }

  /** Every conventional prefix ends with '/', so a name without '/' begins
      with none of them. */
  lemma SlashlessStartsWithNone(t: string, prefixes: seq<string>)
    requires '/' !in t
    requires forall k :: 0 <= k < |prefixes| ==> '/' in prefixes[k]
    ensures StartsWithNoneOf(t, prefixes)
  {
    forall k | 0 <= k < |prefixes|
      ensures !(prefixes[k] <= t)
    {
      var q := prefixes[k];
      var j :| 0 <= j < |q| && q[j] == '/';
      PrefixKeepsChar(q, t, j);
    }
  }

  /** When the prefixes start with distinct characters, a name made of one of
      them followed by a rest that begins with none of them loses exactly
      that prefix. */
  lemma {:induction false} TrimPrefixesOnce(p: string, t: string, prefixes: seq<string>)
    requires p in prefixes && |p| > 0
    requires forall k :: 0 <= k < |prefixes| ==> |prefixes[k]| > 0 && (prefixes[k][0] == p[0] ==> prefixes[k] == p)
    requires StartsWithNoneOf(t, prefixes)
    ensures TrimPrefixes(p + t, prefixes) == t
    decreases |prefixes|
  {
    var q := prefixes[0];
    if q == p {
      assert (p + t)[|p|..] == t;
      assert TrimPrefix(p + t, p) == t;
      TrimPrefixesNone(t, prefixes[1..]);
    } else {
      assert !(q <= p + t) by {
        assert q[0] != p[0];
        assert (p + t)[0] == p[0];
      }
      assert TrimPrefix(p + t, q) == p + t;
      TrimPrefixesOnce(p, t, prefixes[1..]);
    }
  }

  /** The conventional prefixes begin with four different letters. */
  lemma ConventionalPrefixesDistinct(p: string)
    requires p in Defaults.BranchPrefixesToStrip
    ensures |p| > 0
    ensures forall k :: 0 <= k < |Defaults.BranchPrefixesToStrip| ==>
      |Defaults.BranchPrefixesToStrip[k]| > 0
      && (Defaults.BranchPrefixesToStrip[k][0] == p[0] ==> Defaults.BranchPrefixesToStrip[k] == p)
  {
    var ps := Defaults.BranchPrefixesToStrip;
    assert ps == ["feature/", "bugfix/", "hotfix/", "release/"];
    assert ps[0][0] == 'f' && ps[1][0] == 'b' && ps[2][0] == 'h' && ps[3][0] == 'r';
  }

  /** One of "feature/", "bugfix/", "hotfix/" or "release/" in front of a
      name that begins with none of them is removed, and the prerelease
      identifier is the one the rest alone gives. */
  lemma StripsConventionalPrefix(p: string, t: string)
    requires p in Defaults.BranchPrefixesToStrip
    requires StartsWithNoneOf(t, Defaults.BranchPrefixesToStrip)
    ensures TrimPrefixes(p + t, Defaults.BranchPrefixesToStrip) == t
    ensures SanitizeBranchName(p + t) == SanitizeBranchName(t)
  {
    ConventionalPrefixesDistinct(p);
    TrimPrefixesOnce(p, t, Defaults.BranchPrefixesToStrip);
    TrimPrefixesNone(t, Defaults.BranchPrefixesToStrip);
  }

  /** The prefixes are non-empty and begin with pairwise different
      characters. */
  predicate DistinctInitials(ps: seq<string>) {
    && (forall k :: 0 <= k < |ps| ==> |ps[k]| > 0)
    && (forall k, l :: 0 <= k < l < |ps| ==> ps[k][0] != ps[l][0])
  }

  /** Two listed prefixes stacked in front of a rest that begins with none
      of them.  The list is tried in order, each prefix on what the earlier
      ones left: when the outer prefix comes first in the list both go, and
      when it comes later the inner one stays. */
  lemma TrimPrefixesStacked(i: nat, j: nat, t: string, ps: seq<string>)
    requires i < |ps| && j < |ps| && i != j
    requires DistinctInitials(ps)
    requires StartsWithNoneOf(t, ps)
    ensures i < j ==> TrimPrefixes(ps[i] + (ps[j] + t), ps) == t
    ensures j < i ==> TrimPrefixes(ps[i] + (ps[j] + t), ps) == ps[j] + t
  {
    var u := ps[j] + t;
    var s := ps[i] + u;
    assert ps[0..] == ps;
    assert s[0] == ps[i][0] && u[0] == ps[j][0];
    DistinctAbsent(ps, i, 0, i);
    TrimPrefixesSkip(s, ps, 0, i);
    StripAt(u, ps, i);
    if i < j {
      DistinctAbsent(ps, j, i + 1, j);
      TrimPrefixesSkip(u, ps, i + 1, j);
      StripAt(t, ps, j);
      NoneOfSuffix(t, ps, j + 1);
      TrimPrefixesNone(t, ps[j + 1..]);
    } else {
      DistinctAbsent(ps, j, i + 1, |ps|);
      TrimPrefixesSkip(u, ps, i + 1, |ps|);
    }
  }

  /** No entry of the list begins with the character `c`. */
  predicate InitialAbsent(c: char, ps: seq<string>) {
    forall k :: 0 <= k < |ps| ==> |ps[k]| > 0 && ps[k][0] != c
  }

  /** Under distinct initials, the initial of entry `i` begins no entry of
      a stretch that leaves `i` out. */
  lemma DistinctAbsent(ps: seq<string>, i: nat, lo: nat, hi: nat)
    requires DistinctInitials(ps) && i < |ps| && lo <= hi <= |ps| && (i < lo || hi <= i)
    ensures InitialAbsent(ps[i][0], ps[lo..hi])
  {
    forall k | 0 <= k < hi - lo
      ensures |ps[lo..hi][k]| > 0 && ps[lo..hi][k][0] != ps[i][0]
    {
      assert ps[lo..hi][k] == ps[lo + k];
    }
  }

  lemma NoneOfSuffix(t: string, ps: seq<string>, lo: nat)
    requires lo <= |ps| && StartsWithNoneOf(t, ps)
    ensures StartsWithNoneOf(t, ps[lo..])
  {
    assert forall k :: 0 <= k < |ps| - lo ==> ps[lo..][k] == ps[lo + k];
  }

  /** Entries whose initial differs from the name's first character are
      passed over. */
  lemma {:induction false} TrimPrefixesSkip(s: string, ps: seq<string>, lo: nat, hi: nat)
    requires lo <= hi <= |ps| && |s| > 0
    requires InitialAbsent(s[0], ps[lo..hi])
    ensures TrimPrefixes(s, ps[lo..]) == TrimPrefixes(s, ps[hi..])
    decreases hi - lo
  {
    if lo < hi {
      AbsentRest(s[0], ps, lo, hi);
      SkipOne(s, ps, lo);
      TrimPrefixesSkip(s, ps, lo + 1, hi);
    }
  }

  lemma AbsentRest(c: char, ps: seq<string>, lo: nat, hi: nat)
    requires lo < hi <= |ps| && InitialAbsent(c, ps[lo..hi])
    ensures |ps[lo]| > 0 && ps[lo][0] != c
    ensures InitialAbsent(c, ps[lo + 1..hi])
  {
    assert ps[lo..hi][0] == ps[lo];
    var q := ps[lo + 1..hi];
    forall k | 0 <= k < |q|
      ensures |q[k]| > 0 && q[k][0] != c
    {
      assert q[k] == ps[lo..hi][k + 1];
    }
  }

  lemma SkipOne(s: string, ps: seq<string>, lo: nat)
    requires lo < |ps| && |ps[lo]| > 0 && |s| > 0 && ps[lo][0] != s[0]
    ensures TrimPrefixes(s, ps[lo..]) == TrimPrefixes(s, ps[lo + 1..])
  {
    PrefixKeepsChar(ps[lo], s, 0);
    assert ps[lo..][0] == ps[lo] && ps[lo..][1..] == ps[lo + 1..];
  }

  /** Entry `i` in front of a rest is removed, and the later entries carry
      on with the rest. */
  lemma StripAt(u: string, ps: seq<string>, i: nat)
    requires i < |ps|
    ensures TrimPrefixes(ps[i] + u, ps[i..]) == TrimPrefixes(u, ps[i + 1..])
  {
    var s := ps[i] + u;
    assert s[|ps[i]|..] == u;
    assert ps[i..][0] == ps[i] && ps[i..][1..] == ps[i + 1..];
  }

  lemma ConventionalInitialsDistinct()
    ensures DistinctInitials(Defaults.BranchPrefixesToStrip)
  {
    var ps := Defaults.BranchPrefixesToStrip;
    assert ps == ["feature/", "bugfix/", "hotfix/", "release/"];
    assert ps[0][0] == 'f' && ps[1][0] == 'b' && ps[2][0] == 'h' && ps[3][0] == 'r';
  }

  /** Conventional prefixes are stripped cumulatively in list order:
      "feature/bugfix/x" loses both, while "bugfix/feature/x" keeps
      "feature/", which was tried before "bugfix/" went. */
  lemma StackedConventionalPrefixes(t: string)
    requires StartsWithNoneOf(t, Defaults.BranchPrefixesToStrip)
    ensures TrimPrefixes("feature/" + ("bugfix/" + t), Defaults.BranchPrefixesToStrip) == t
    ensures TrimPrefixes("bugfix/" + ("feature/" + t), Defaults.BranchPrefixesToStrip) == "feature/" + t
  {
    var ps := Defaults.BranchPrefixesToStrip;
    assert ps[0] == "feature/" && ps[1] == "bugfix/";
    ConventionalInitialsDistinct();
    TrimPrefixesStacked(0, 1, t, ps);
    TrimPrefixesStacked(1, 0, t, ps);
  }

  /** The first characters of the conventional prefixes. */
  lemma ConventionalInitials()
    ensures forall k :: 0 <= k < |Defaults.BranchPrefixesToStrip| ==>
      |Defaults.BranchPrefixesToStrip[k]| > 0 && Defaults.BranchPrefixesToStrip[k][0] in "fbhr"
  {
    var ps := Defaults.BranchPrefixesToStrip;
    assert ps == ["feature/", "bugfix/", "hotfix/", "release/"];
    assert ps[0][0] == 'f' && ps[1][0] == 'b' && ps[2][0] == 'h' && ps[3][0] == 'r';
  }

  /** A name whose first character begins none of the conventional prefixes
      is left as it is. */
  lemma OtherInitialKeepsName(t: string)
    requires |t| > 0 && t[0] != 'f' && t[0] != 'b' && t[0] != 'h' && t[0] != 'r'
    ensures StartsWithNoneOf(t, Defaults.BranchPrefixesToStrip)
    ensures TrimPrefixes(t, Defaults.BranchPrefixesToStrip) == t
  {
    OtherInitialStartsWithNone(t);
    TrimPrefixesNone(t, Defaults.BranchPrefixesToStrip);
  }

  lemma OtherInitialStartsWithNone(t: string)
    requires |t| > 0 && t[0] != 'f' && t[0] != 'b' && t[0] != 'h' && t[0] != 'r'
    ensures StartsWithNoneOf(t, Defaults.BranchPrefixesToStrip)
  {
    var ps := Defaults.BranchPrefixesToStrip;
    ConventionalInitials();
    forall k | 0 <= k < |ps|
      ensures !(ps[k] <= t)
    {
      PrefixKeepsChar(ps[k], t, 0);
    }
  }

  /** Prefix stripping is case-sensitive: a name that begins with an upper-case
      letter, "FEATURE/..." among them, keeps its prefix. */
  lemma UppercaseNameKeepsPrefix(t: string)
    requires |t| > 0 && 'A' <= t[0] <= 'Z'
    ensures TrimPrefixes(t, Defaults.BranchPrefixesToStrip) == t
  {
    OtherInitialKeepsName(t);
  }

  lemma {:induction false} WithoutHyphensConcat(a: string, b: string)
    ensures WithoutHyphens(a + b) == WithoutHyphens(a) + WithoutHyphens(b)
    decreases |a|
  {
    if |a| > 0 {
      assert (a + b)[1..] == a[1..] + b;
      WithoutHyphensConcat(a[1..], b);
    } else {
      assert a + b == b;
    }
  }

  lemma {:induction false} OnlyHyphensVanish(s: string)
    requires forall k :: 0 <= k < |s| ==> s[k] == '-'
    ensures WithoutHyphens(s) == ""
    decreases |s|
  {
    if |s| > 0 {
      OnlyHyphensVanish(s[1..]);
    }
  }

  /** Replacing the invalid characters keeps the letters and digits, in order,
      and every other character is '-' afterwards. */
  lemma {:induction false} ReplaceInvalidKeepsAlnum(s: string)
    ensures WithoutHyphens(ReplaceInvalid(s)) == AlnumOnly(s)
    decreases |s|
  {
    if |s| > 0 {
      var r := ReplaceInvalid(s);
      assert r[1..] == ReplaceInvalid(s[1..]);
      ReplaceInvalidKeepsAlnum(s[1..]);
    }
  }

  /** Collapsing removes nothing but '-': the other characters stay, in
      order. */
  lemma {:induction false} CollapseKeepsRest(s: string)
    ensures WithoutHyphens(CollapseHyphens(s)) == WithoutHyphens(s)
    decreases |s|
  {
    if |s| >= 2 {
      CollapseKeepsRest(s[1..]);
      var rest := CollapseHyphens(s[1..]);
      if !(s[0] == '-' && s[1] == '-') {
        assert ([s[0]] + rest)[1..] == rest;
      }
    }
  }

  /** `k` copies of '-'. */
  function Hyphens(k: nat): string
    decreases k
  {
    if k == 0 then "" else "-" + Hyphens(k - 1)
  }

  /** Collapsing works piece by piece when the join is not inside a run of
      '-'. */
  lemma {:induction false} CollapseConcat(a: string, x: string)
    requires |a| == 0 || |x| == 0 || a[|a| - 1] != '-' || x[0] != '-'
    ensures CollapseHyphens(a + x) == CollapseHyphens(a) + CollapseHyphens(x)
    decreases |a|
  {
    var s := a + x;
    if |a| == 0 {
      assert s == x;
    } else if |x| == 0 {
      assert s == a;
    } else if |a| == 1 {
      assert s[1..] == x;
      assert s[0] == a[0] && s[1] == x[0];
      assert a == [a[0]];
    } else {
      assert s[1..] == a[1..] + x;
      assert s[0] == a[0] && s[1] == a[1];
      CollapseConcat(a[1..], x);
    }
  }

  /** A run of '-' in front of a name that does not begin with '-'
      collapses to a single '-'. */
  lemma {:induction false} CollapseLeadingRun(k: nat, b: string)
    requires k >= 1 && (|b| == 0 || b[0] != '-')
    ensures CollapseHyphens(Hyphens(k) + b) == "-" + CollapseHyphens(b)
    decreases k
  {
    if k == 1 {
      assert Hyphens(1) == "-";
      CollapseConcat("-", b);
    } else {
      var s := Hyphens(k) + b;
      assert s[1..] == Hyphens(k - 1) + b;
      assert s[0] == '-' && s[1] == Hyphens(k - 1)[0] == '-';
      CollapseLeadingRun(k - 1, b);
    }
  }

  /** A run of '-' between a part that does not end with '-' and one that
      does not begin with '-' becomes exactly one '-', and each part
      collapses on its own. */
  lemma CollapseRun(a: string, k: nat, b: string)
    requires k >= 1
    requires |a| == 0 || a[|a| - 1] != '-'
    requires |b| == 0 || b[0] != '-'
    ensures CollapseHyphens(a + (Hyphens(k) + b)) == CollapseHyphens(a) + ("-" + CollapseHyphens(b))
  {
    assert (Hyphens(k) + b)[0] == '-';
    CollapseConcat(a, Hyphens(k) + b);
    CollapseLeadingRun(k, b);
  }

  lemma {:induction false} HyphensAreBranchChars(k: nat)
    ensures AllBranchChars(Hyphens(k))
    decreases k
  {
    if k > 0 {
      HyphensAreBranchChars(k - 1);
    }
  }

  /** Two parts over `[a-zA-Z0-9-]` joined by a run of '-' are over
      `[a-zA-Z0-9-]` as well. */
  lemma RunJoinedBranchChars(a: string, k: nat, b: string)
    requires AllBranchChars(a) && AllBranchChars(b)
    ensures AllBranchChars(a + (Hyphens(k) + b))
  {
    var h := Hyphens(k) + b;
    var s := a + h;
    HyphensAreBranchChars(k);
    assert AllBranchChars(h) by {
      forall i | 0 <= i < |h|
        ensures IsBranchChar(h[i])
      {
        if i >= |Hyphens(k)| {
          assert h[i] == b[i - |Hyphens(k)|];
        }
      }
    }
    forall i | 0 <= i < |s|
      ensures IsBranchChar(s[i])
    {
      if i >= |a| {
        assert s[i] == h[i - |a|];
      }
    }
  }

  /** On a name over `[a-zA-Z0-9-]` with no '-' at its ends, normalising
      only collapses and lower-cases. */
  lemma NormalizeTrimmed(s: string)
    requires |s| >= 1 && s[0] != '-' && s[|s| - 1] != '-' && AllBranchChars(s)
    ensures Normalize(s) == LowerAscii(CollapseHyphens(s))
  {
    ReplaceInvalidValid(s);
    TrimHyphensTrimmed(s);
  }

  /** Between two clean parts over `[a-zA-Z0-9-]`, a run of '-' normalises
      to exactly one '-'. */
  lemma NormalizeJoinsRun(a: string, k: nat, b: string)
    requires k >= 1 && IsClean(a) && IsClean(b) && AllBranchChars(a) && AllBranchChars(b)
    ensures Normalize(a + (Hyphens(k) + b)) == LowerAscii(a + ("-" + b))
  {
    var s := a + (Hyphens(k) + b);
    RunJoinedBranchChars(a, k, b);
    assert s[0] == a[0] && s[|s| - 1] == b[|b| - 1];
    NormalizeTrimmed(s);
    CollapseRun(a, k, b);
    CollapseNoDouble(a);
    CollapseNoDouble(b);
  }

  /** A name that begins with no conventional prefix and is two clean parts
      joined by a run of '-' sanitises to the two parts joined by one '-',
      lower-cased. */
  lemma SanitizeJoinsRun(a: string, k: nat, b: string)
    requires k >= 1 && IsClean(a) && IsClean(b) && AllBranchChars(a) && AllBranchChars(b)
    requires StartsWithNoneOf(a + (Hyphens(k) + b), Defaults.BranchPrefixesToStrip)
    ensures SanitizeBranchName(a + (Hyphens(k) + b)) == LowerAscii(a + ("-" + b))
  {
    TrimPrefixesNone(a + (Hyphens(k) + b), Defaults.BranchPrefixesToStrip);
    NormalizeJoinsRun(a, k, b);
  }

  /** Trimming removes nothing but '-'. */
  lemma TrimHyphensKeepsRest(s: string)
    ensures WithoutHyphens(TrimHyphens(s)) == WithoutHyphens(s)
  {
    var r := TrimHyphens(s);
    var i :| HyphenCut(s, i, r);
    CutKeepsRest(s, i, r);
  }

  lemma CutKeepsRest(s: string, i: int, r: string)
    requires HyphenCut(s, i, r)
    ensures WithoutHyphens(r) == WithoutHyphens(s)
  {
    var front, back := s[..i], s[i + |r|..];
    assert s == front + s[i..];
    assert s[i..] == r + back;
    OnlyHyphensVanish(front);
    OnlyHyphensVanish(back);
    WithoutHyphensConcat(front, s[i..]);
    WithoutHyphensConcat(r, back);
  }

  /** Lower-casing commutes with dropping the '-'. */
  lemma {:induction false} LowerKeepsRest(s: string)
    ensures WithoutHyphens(LowerAscii(s)) == LowerAscii(WithoutHyphens(s))
    decreases |s|
  {
    if |s| > 0 {
      var l := LowerAscii(s);
      assert l[1..] == LowerAscii(s[1..]);
      LowerKeepsRest(s[1..]);
      if s[0] != '-' {
        var w := WithoutHyphens(s[1..]);
        assert ([s[0]] + w)[1..] == w;
      }
    }
  }

  /** Normalising keeps exactly the letters and digits, lower-cased and in
      order, with single '-' between some of them; a name with none becomes
      "unknown". */
  lemma NormalizeKeepsAlnum(s: string)
    ensures AlnumOnly(s) == "" ==> Normalize(s) == Defaults.UnknownBranchName
    ensures AlnumOnly(s) != "" ==> WithoutHyphens(Normalize(s)) == LowerAscii(AlnumOnly(s))
  {
    var replaced := ReplaceInvalid(s);
    var trimmed := TrimHyphens(replaced);
    var collapsed := CollapseHyphens(trimmed);
    var lowered := LowerAscii(collapsed);
    assert WithoutHyphens(collapsed) == AlnumOnly(s) by {
      ReplaceInvalidKeepsAlnum(s);
      TrimHyphensKeepsRest(replaced);
      CollapseKeepsRest(trimmed);
    }
    LowerKeepsRest(collapsed);
    if |lowered| == 0 {
      assert collapsed == "";
    } else {
      assert collapsed[0] != '-';
      assert WithoutHyphens(collapsed) != "";
      assert Normalize(s) == lowered;
    }
  }

  lemma {:induction false} ReplaceInvalidConcat(a: string, b: string)
    ensures ReplaceInvalid(a + b) == ReplaceInvalid(a) + ReplaceInvalid(b)
    decreases |a|
  {
    if |a| > 0 {
      assert (a + b)[1..] == a[1..] + b;
      ReplaceInvalidConcat(a[1..], b);
    } else {
      assert a + b == b;
    }
  }

  lemma {:induction false} ReplaceInvalidValid(s: string)
    requires AllBranchChars(s)
    ensures ReplaceInvalid(s) == s
  {
  }

  lemma {:induction false} CollapseNoDouble(s: string)
    requires NoDoubleHyphen(s)
    ensures CollapseHyphens(s) == s
    decreases |s|
  {
    if |s| >= 2 {
      CollapseNoDouble(s[1..]);
    }
  }

  lemma {:induction false} LowerOfLower(s: string)
    requires forall i :: 0 <= i < |s| ==> !('A' <= s[i] <= 'Z')
    ensures LowerAscii(s) == s
  {
  }

  lemma TrimHyphensTrimmed(s: string)
    requires |s| >= 1 && s[0] != '-' && s[|s| - 1] != '-'
    ensures TrimHyphens(s) == s
  {
    assert TrimLeadingHyphens(s) == s;
    assert TrimTrailingHyphens(s) == s;
  }

  /** A sanitised name is a fixed point of sanitisation. */
  lemma SanitizedIsFixedPoint(s: string)
    requires IsSanitized(s)
    ensures SanitizeBranchName(s) == s
  {
    assert '/' !in s by {
      assert forall i :: 0 <= i < |s| ==> s[i] != '/';
    }
    TrimPrefixesNoSlash(s, Defaults.BranchPrefixesToStrip);
    NormalizeSanitized(s);
  }

  /** Each normalising step leaves a sanitised name as it is. */
  lemma NormalizeSanitized(s: string)
    requires IsSanitized(s)
    ensures Normalize(s) == s
  {
    ReplaceInvalidValid(s);
    TrimHyphensTrimmed(s);
    CollapseNoDouble(s);
    LowerOfLower(s);
  }

  /** Sanitisation leaves a name unchanged exactly when the name already has
      the sanitised shape. */
  lemma SanitizeFixedPoints(s: string)
    ensures SanitizeBranchName(s) == s <==> IsSanitized(s)
  {
    if IsSanitized(s) {
      SanitizedIsFixedPoint(s);
    }
  }

  /** What replacing leaves when trimming and collapsing have nothing to do:
      no '-' at the ends and no "--". */
  predicate IsClean(r: string) {
    |r| >= 1 && r[0] != '-' && r[|r| - 1] != '-' && NoDoubleHyphen(r)
  }

  /** When replacing the invalid characters already leaves a clean name,
      normalising only replaces and lower-cases. */
  lemma NormalizeWithoutHyphenRuns(s: string)
    requires IsClean(ReplaceInvalid(s))
    ensures Normalize(s) == LowerAscii(ReplaceInvalid(s))
  {
    var r := ReplaceInvalid(s);
    TrimHyphensTrimmed(r);
    CollapseNoDouble(r);
  }

  /** A name that begins with no conventional prefix and whose replacement is
      clean sanitises to that replacement, lower-cased. */
  lemma SanitizeClean(t: string, r: string)
    requires StartsWithNoneOf(t, Defaults.BranchPrefixesToStrip)
    requires ReplaceInvalid(t) == r && IsClean(r)
    ensures SanitizeBranchName(t) == LowerAscii(r)
  {
    assert Normalize(t) == LowerAscii(r) by {
      NormalizeWithoutHyphenRuns(t);
    }
    assert SanitizeBranchName(t) == Normalize(t) by {
      TrimPrefixesNone(t, Defaults.BranchPrefixesToStrip);
    }
  }

  /** Sanitising twice is sanitising once. */
  lemma SanitizeIdempotent(b: string)
    ensures SanitizeBranchName(SanitizeBranchName(b)) == SanitizeBranchName(b)
  {
    SanitizedIsFixedPoint(SanitizeBranchName(b));
  }

  /** A sanitised name has no '.', so it is one prerelease identifier, and it
      is a valid one unless it is a numeral with a leading zero. */
  lemma SanitizedPrereleaseIdentifier(s: string)
    requires IsSanitized(s)
    ensures '.' !in s && '+' !in s
    ensures !(AllDigits(s) && s[0] == '0' && |s| > 1) ==>
      (IsCanonicalDecimal(s) || exists i :: 0 <= i < |s| && !IsDigit(s[i]))
  {
    assert forall i :: 0 <= i < |s| ==> s[i] != '.' && s[i] != '+';
  }
}

/** Sanitised names of branch names that occur in practice. */
module BranchNameExamples {
  import opened Strings
  import opened BranchNames
  import Defaults

  /** A name made only of invalid characters becomes "unknown". */
  lemma NothingLeftIsUnknown()
    ensures SanitizeBranchName("///") == "unknown"
  {
    OtherInitialKeepsName("///");
    assert AlnumOnly("///") == "";
    NormalizeKeepsAlnum("///");
  }

  /** A non-empty run of ASCII letters and digits. */
  predicate IsWord(w: string) {
    |w| >= 1 && forall i :: 0 <= i < |w| ==> IsAsciiAlnum(w[i])
  }

  /** A word, one invalid character and a rest: the character becomes '-'. */
  lemma ReplaceJoined(a: string, c: char, b: string)
    requires IsWord(a) && !IsBranchChar(c)
    ensures ReplaceInvalid(a + ([c] + b)) == a + ("-" + ReplaceInvalid(b))
  {
    ReplaceInvalidConcat(a, [c] + b);
    ReplaceInvalidValid(a);
    ReplaceInvalidConcat([c], b);
  }

  lemma WordIsClean(w: string)
    requires IsWord(w)
    ensures IsClean(w)
  {
  }

  /** A word, '-' and a clean rest make a clean name. */
  lemma CleanJoined(a: string, b: string)
    requires IsWord(a) && IsClean(b)
    ensures IsClean(a + ("-" + b))
  {
    var r := a + ("-" + b);
    forall i | 0 <= i < |r| - 1
      ensures !(r[i] == '-' && r[i + 1] == '-')
    {
      if i < |a| {
        assert r[i] == a[i];
      } else if i == |a| {
        assert r[i + 1] == b[0];
      } else {
        assert r[i] == b[i - |a| - 1] && r[i + 1] == b[i - |a|];
      }
    }
  }

  /** A word, an invalid character and a rest whose replacement is clean,
      none of them beginning with a conventional prefix, sanitise to the
      lower-cased word, '-' and that replacement. */
  lemma SanitizeJoined(a: string, c: char, b: string, rb: string)
    requires IsWord(a) && !IsBranchChar(c)
    requires ReplaceInvalid(b) == rb && IsClean(rb)
    requires StartsWithNoneOf(a + ([c] + b), Defaults.BranchPrefixesToStrip)
    ensures ReplaceInvalid(a + ([c] + b)) == a + ("-" + rb)
    ensures SanitizeBranchName(a + ([c] + b)) == LowerAscii(a + ("-" + rb))
  {
    var t := a + ([c] + b);
    var r := a + ("-" + rb);
    assert ReplaceInvalid(t) == r by {
      ReplaceJoined(a, c, b);
    }
    assert IsClean(r) by {
      CleanJoined(a, rb);
    }
    SanitizeClean(t, r);
  }

  /** Three words separated by invalid characters, beginning with no
      conventional prefix, sanitise to the lower-cased words joined by '-'. */
  lemma SanitizeThreeWords(a: string, c: char, b: string, d: char, e: string)
    requires IsWord(a) && IsWord(b) && IsWord(e) && !IsBranchChar(c) && !IsBranchChar(d)
    requires StartsWithNoneOf(a + ([c] + (b + ([d] + e))), Defaults.BranchPrefixesToStrip)
    ensures SanitizeBranchName(a + ([c] + (b + ([d] + e)))) == LowerAscii(a + ("-" + (b + ("-" + e))))
  {
    assert ReplaceInvalid(b + ([d] + e)) == b + ("-" + e) by {
      ReplaceJoined(b, d, e);
      ReplaceInvalidValid(e);
    }
    assert IsClean(b + ("-" + e)) by {
      WordIsClean(e);
      CleanJoined(b, e);
    }
    SanitizeJoined(a, c, b + ([d] + e), b + ("-" + e));
  }

  /** "feature/" goes, and the remaining '/' becomes '-'. */
  lemma FeatureSlashes()
    ensures SanitizeBranchName("feature/user/login") == "user-login"
  {
    FeaturePrefixGoes();
    UserLoginJoined();
    UserLoginLowered();
  }

  lemma FeaturePrefixGoes()
    ensures SanitizeBranchName("feature/user/login") == SanitizeBranchName("user/login")
  {
    var t := "user/login";
    assert "feature/user/login" == "feature/" + t;
    OtherInitialKeepsName(t);
    StripsConventionalPrefix("feature/", t);
  }

  lemma UserLoginJoined()
    ensures SanitizeBranchName("user/login") == LowerAscii("user-login")
  {
    assert StartsWithNoneOf("user/login", Defaults.BranchPrefixesToStrip) by {
      OtherInitialKeepsName("user/login");
    }
    assert IsWord("user") && IsWord("login");
    assert "user" + ("/" + "login") == "user/login";
    assert "user" + ("-" + "login") == "user-login";
    ReplaceInvalidValid("login");
    WordIsClean("login");
    SanitizeJoined("user", '/', "login", "login");
  }

  lemma UserLoginLowered()
    ensures LowerAscii("user-login") == "user-login"
  {
    LowerOfLower("user-login");
  }

  /** Underscores become '-'. */
  lemma Underscores()
    ensures SanitizeBranchName("fix_memory_leak") == "fix-memory-leak"
  {
    UnderscoresJoined();
    UnderscoresLowered();
  }

  lemma FixMemoryLeakUnprefixed()
    ensures StartsWithNoneOf("fix_memory_leak", Defaults.BranchPrefixesToStrip)
  {
    SlashlessStartsWithNone("fix_memory_leak", Defaults.BranchPrefixesToStrip);
  }

  lemma FixMemoryLeakWords()
    ensures IsWord("fix") && IsWord("memory") && IsWord("leak")
    ensures "fix" + ("_" + ("memory" + ("_" + "leak"))) == "fix_memory_leak"
    ensures "fix" + ("-" + ("memory" + ("-" + "leak"))) == "fix-memory-leak"
  {
  }

  lemma UnderscoresJoined()
    ensures SanitizeBranchName("fix_memory_leak") == LowerAscii("fix-memory-leak")
  {
    FixMemoryLeakUnprefixed();
    FixMemoryLeakWords();
    SanitizeThreeWords("fix", '_', "memory", '_', "leak");
  }

  lemma UnderscoresLowered()
    ensures LowerAscii("fix-memory-leak") == "fix-memory-leak"
  {
    LowerOfLower("fix-memory-leak");
  }

  lemma {:induction false} LowerAsciiConcat(a: string, b: string)
    ensures LowerAscii(a + b) == LowerAscii(a) + LowerAscii(b)
    decreases |a|
  {
    if |a| == 0 {
      assert a + b == b;
    } else {
      assert (a + b)[1..] == a[1..] + b;
      LowerAsciiConcat(a[1..], b);
    }
  }

  /** A run of '-' becomes a single '-'. */
  lemma HyphenRun()
    ensures SanitizeBranchName("feature---test") == "feature-test"
  {
    HyphenRunJoined();
    HyphenRunLowered();
  }

  lemma HyphenRunJoined()
    ensures SanitizeBranchName("feature---test") == LowerAscii("feature-test")
  {
    HyphenRunParts();
    HyphenRunUnprefixed();
    SanitizeJoinsRun("feature", 3, "test");
  }

  lemma HyphenRunParts()
    ensures IsClean("feature") && IsClean("test") && AllBranchChars("feature") && AllBranchChars("test")
    ensures "feature" + (Hyphens(3) + "test") == "feature---test"
    ensures "feature" + ("-" + "test") == "feature-test"
  {
    HyphenRunWords();
    ThreeHyphens();
  }

  lemma HyphenRunWords()
    ensures IsWord("feature") && IsWord("test")
  {
  }

  lemma ThreeHyphens()
    ensures Hyphens(3) == "---"
  {
  }

  lemma HyphenRunUnprefixed()
    ensures StartsWithNoneOf("feature---test", Defaults.BranchPrefixesToStrip)
  {
    SlashlessStartsWithNone("feature---test", Defaults.BranchPrefixesToStrip);
  }

  lemma HyphenRunLowered()
    ensures LowerAscii("feature-test") == "feature-test"
  {
    LowerOfLower("feature-test");
  }

  /** An upper-case prefix is not stripped; it is lower-cased with the rest. */
  lemma UppercasePrefix()
    ensures SanitizeBranchName("FEATURE/TEST") == "feature-test"
  {
    UppercaseJoined();
    UppercaseLowered();
  }

  lemma UppercaseJoined()
    ensures SanitizeBranchName("FEATURE/TEST") == LowerAscii("FEATURE-TEST")
  {
    assert StartsWithNoneOf("FEATURE/TEST", Defaults.BranchPrefixesToStrip) by {
      OtherInitialKeepsName("FEATURE/TEST");
    }
    assert IsWord("FEATURE") && IsWord("TEST");
    assert "FEATURE" + ("/" + "TEST") == "FEATURE/TEST";
    assert "FEATURE" + ("-" + "TEST") == "FEATURE-TEST";
    ReplaceInvalidValid("TEST");
    WordIsClean("TEST");
    SanitizeJoined("FEATURE", '/', "TEST", "TEST");
  }

  lemma UppercaseLowered()
    ensures LowerAscii("FEATURE-TEST") == "feature-test"
  {
    UppercaseSplit();
    UppercasePartsLowered();
  }

  lemma UppercaseSplit()
    ensures "FEATURE-TEST" == "FEATURE" + ("-" + "TEST")
    ensures "feature" + ("-" + "test") == "feature-test"
  {
  }

  lemma UppercasePartsLowered()
    ensures LowerAscii("FEATURE" + ("-" + "TEST")) == "feature" + ("-" + "test")
  {
    LowerAsciiConcat("FEATURE", "-" + "TEST");
    LowerAsciiConcat("-", "TEST");
    FeatureLowered();
    TestLowered();
    assert LowerAscii("-") == "-";
  }

  lemma FeatureLowered()
    ensures LowerAscii("FEATURE") == "feature"
  {
  }

  lemma TestLowered()
    ensures LowerAscii("TEST") == "test"
  {
  }
}
