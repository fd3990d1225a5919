/** Version values, their rendering, MAJOR.MINOR.PATCH parsing, and the
    Semantic Versioning 2.0.0 validity check. */
module SemVer {
  import opened Wrappers
  import opened Strings

  /** A computed version.  An empty `prerelease` means a release; `build` is
      only rendered when there is a prerelease. */
  datatype Version = Version(major: nat, minor: nat, patch: nat, prerelease: string, build: nat)

  /** The numeric part of a version, as far as tag comparison is concerned. */
  datatype Core = Core(major: nat, minor: nat, patch: nat)

  /** "MAJOR.MINOR.PATCH" in decimal. */
  function CoreString(major: nat, minor: nat, patch: nat): string {
    NatToString(major) + "." + NatToString(minor) + "." + NatToString(patch)
  }

  /** `Version.String`: "M.m.p" for a release, "M.m.p-prerelease.build" otherwise. */
  function ToString(v: Version): (s: string)
    ensures CoreString(v.major, v.minor, v.patch) <= s
    ensures v.prerelease == "" ==> |s| == |CoreString(v.major, v.minor, v.patch)|
    ensures v.prerelease != "" ==>
      |s| > |CoreString(v.major, v.minor, v.patch)| && s[|CoreString(v.major, v.minor, v.patch)|] == '-'
  {
    var core := CoreString(v.major, v.minor, v.patch);
    if v.prerelease != "" then core + "-" + v.prerelease + "." + NatToString(v.build)
    else core
  }

  // ---------------------------------------------------------------------
  // Parsing
  // ---------------------------------------------------------------------

  function Min(a: nat, b: nat): nat {
    if a <= b then a else b
  }

  /** The text before the first '-' or '+': the part of a version string that
      carries MAJOR.MINOR.PATCH. */
  function VersionCoreText(s: string): string {
    s[..Min(IndexOf(s, '-'), IndexOf(s, '+'))]
  }

  /** Three dot-separated, non-empty runs of decimal digits (leading zeros
      allowed): what `parseVersion` accepts as a core. */
  predicate IsNumericCore(text: string) {
    var parts := Split(text, '.');
    && |parts| == 3
    && |parts[0]| >= 1 && AllDigits(parts[0])
    && |parts[1]| >= 1 && AllDigits(parts[1])
    && |parts[2]| >= 1 && AllDigits(parts[2])
  }

  /** The numbers a numeric core denotes. */
  function NumericCoreValue(text: string): Core
    requires IsNumericCore(text)
  {
    var parts := Split(text, '.');
    Core(DecimalValue(parts[0]), DecimalValue(parts[1]), DecimalValue(parts[2]))
  }

  /** `parseVersion` (and its duplicate `parseSemverSimple`): drop everything
      from the first '-', then from the first '+', split the rest at '.', and
      require exactly three parts accepted by `Atoi`.  Both sign characters
      were cut away before `Atoi` sees a part, so a part is accepted exactly
      when it is a non-empty digit string and no component is negative. */
  function ParseCore(s: string): (r: Option<Core>)
    ensures r.Some? <==> IsNumericCore(VersionCoreText(s))
    ensures r.Some? ==> r.value == NumericCoreValue(VersionCoreText(s))
  {
    var core := Split(Split(s, '-')[0], '+')[0];
    var parts := Split(core, '.');
    CoreTextOfSplits(s);
    SplitPartsAvoid(core, '.', '-');
    SplitPartsAvoid(core, '.', '+');
    if |parts| != 3 then None
    else
      var major := Atoi(parts[0]);
      var minor := Atoi(parts[1]);
      var patch := Atoi(parts[2]);
      if major.None? || minor.None? || patch.None? then None
      else
        assert major.value >= 0 && minor.value >= 0 && patch.value >= 0 by {
          assert '-' !in parts[0] && '-' !in parts[1] && '-' !in parts[2];
          assert |parts[1]| > 0 ==> parts[1][0] in parts[1];
          assert |parts[2]| > 0 ==> parts[2][0] in parts[2];
        }
        Some(Core(major.value, minor.value, patch.value))
  }

  /** The version `parseVersion` returns: the numeric core, no prerelease. */
  function ParseVersion(s: string): (r: Option<Version>)
    ensures r.Some? <==> IsNumericCore(VersionCoreText(s))
    ensures r.Some? ==> var c := NumericCoreValue(VersionCoreText(s));
      r.value == Version(c.major, c.minor, c.patch, "", 0)
  {
    match ParseCore(s)
    case None => None
    case Some(c) => Some(Version(c.major, c.minor, c.patch, "", 0))
  }

  /** The splits `ParseCore` performs leave exactly `VersionCoreText`. */
  lemma CoreTextOfSplits(s: string)
    ensures Split(Split(s, '-')[0], '+')[0] == VersionCoreText(s)
    ensures '-' !in VersionCoreText(s) && '+' !in VersionCoreText(s)
  {
    var i := IndexOf(s, '-');
    SplitHead(s, '-');
    var x := s[..i];
    SplitHead(x, '+');
    IndexOfPrefix(s, i, '+');
  }

  // ---------------------------------------------------------------------
  // Semantic Versioning 2.0.0
  // ---------------------------------------------------------------------

  /** A character of `[0-9A-Za-z-]`. */
  predicate IsIdentifierChar(c: char) {
    IsAsciiAlnum(c) || c == '-'
  }

  /** A prerelease identifier: a numeral without leading zeros, or a non-empty
      run of identifier characters containing at least one letter or '-'. */
  predicate IsPrereleaseIdentifier(id: string) {
    || IsCanonicalDecimal(id)
    || (&& |id| >= 1
        && (forall i :: 0 <= i < |id| ==> IsIdentifierChar(id[i]))
        && (exists i :: 0 <= i < |id| && !IsDigit(id[i])))
  }

  /** A build-metadata identifier: a non-empty run of identifier characters. */
  predicate IsBuildIdentifier(id: string) {
    |id| >= 1 && forall i :: 0 <= i < |id| ==> IsIdentifierChar(id[i])
  }

  /** Three dot-separated numerals without leading zeros. */
  predicate IsVersionCore(core: string) {
    var parts := Split(core, '.');
    |parts| == 3 && IsCanonicalDecimal(parts[0]) && IsCanonicalDecimal(parts[1]) && IsCanonicalDecimal(parts[2])
  }

  /** Non-empty dot-separated prerelease identifiers. */
  predicate IsPrerelease(text: string) {
    var ids := Split(text, '.');
    forall i :: 0 <= i < |ids| ==> IsPrereleaseIdentifier(ids[i])
  }

  /** Non-empty dot-separated build identifiers. */
  predicate IsBuildMetadata(text: string) {
    var ids := Split(text, '.');
    forall i :: 0 <= i < |ids| ==> IsBuildIdentifier(ids[i])
  }

  /** `IsValidSemver`: MAJOR.MINOR.PATCH, then optionally '-' and a
      prerelease, then optionally '+' and build metadata.  Neither the core
      nor a prerelease can contain '+', and the core cannot contain '-', so
      the first '+' starts the build metadata and a first '-' before it
      starts the prerelease. */
  predicate IsValidSemver(s: string) {
    var dash := IndexOf(s, '-');
    var plus := IndexOf(s, '+');
    && IsVersionCore(VersionCoreText(s))
    && (dash < plus ==> IsPrerelease(s[dash + 1..plus]))
    && (plus < |s| ==> IsBuildMetadata(s[plus + 1..]))
  }

  // ---------------------------------------------------------------------
  // Properties
  // ---------------------------------------------------------------------

  /** The rendered core contains neither sign character nor the letter 'a'. */
  lemma CoreStringChars(major: nat, minor: nat, patch: nat)
    ensures var c := CoreString(major, minor, patch); '-' !in c && '+' !in c && 'a' !in c
  {
  }

  /** The rendered core is three numerals without leading zeros. */
  lemma CoreStringShape(major: nat, minor: nat, patch: nat)
    ensures var c := CoreString(major, minor, patch);
      && Split(c, '.') == [NatToString(major), NatToString(minor), NatToString(patch)]
      && IsVersionCore(c)
      && IsNumericCore(c)
      && NumericCoreValue(c) == Core(major, minor, patch)
  {
    var a, b, d := NatToString(major), NatToString(minor), NatToString(patch);
    assert '.' !in a && '.' !in b && '.' !in d;
    SplitThree(a, b, d, '.');
    assert CoreString(major, minor, patch) == a + ['.'] + b + ['.'] + d;
  }

  /** Appending text that starts with '-' leaves a sign-free core as the core. */
  lemma CoreTextOfSuffixed(c: string, t: string)
    requires '-' !in c && '+' !in c
    requires t == "" || t[0] == '-'
    ensures VersionCoreText(c + t) == c
  {
    IndexOfAfter(c, t, '-');
    IndexOfAfter(c, t, '+');
  }

  /** The core text of a rendering is its "M.m.p" part. */
  lemma CoreTextOfRendering(v: Version)
    ensures VersionCoreText(ToString(v)) == CoreString(v.major, v.minor, v.patch)
  {
    var c := CoreString(v.major, v.minor, v.patch);
    CoreStringChars(v.major, v.minor, v.patch);
    if v.prerelease == "" {
      CoreTextOfSuffixed(c, "");
      assert c + "" == c;
    } else {
      var t := "-" + v.prerelease + "." + NatToString(v.build);
      assert ToString(v) == c + t;
      CoreTextOfSuffixed(c, t);
    }
  }

  /** `parseVersion` of a rendering recovers major, minor and patch and drops
      the prerelease and build. */
  lemma ParseOfRendering(v: Version)
    ensures ParseVersion(ToString(v)) == Some(Version(v.major, v.minor, v.patch, "", 0))
  {
    CoreTextOfRendering(v);
    CoreStringShape(v.major, v.minor, v.patch);
  }

  /** A valid core is numeric, and rendering its value gives it back. */
  lemma VersionCoreRoundTrip(t: string)
    requires IsVersionCore(t)
    ensures IsNumericCore(t)
    ensures var c := NumericCoreValue(t); CoreString(c.major, c.minor, c.patch) == t
  {
    var parts := Split(t, '.');
    CanonicalDecimalRoundTrip(parts[0]);
    CanonicalDecimalRoundTrip(parts[1]);
    CanonicalDecimalRoundTrip(parts[2]);
    assert Join(parts[2..], '.') == parts[2] by {
      assert parts[2..] == [parts[2]];
    }
    assert Join(parts[1..], '.') == parts[1] + ['.'] + parts[2] by {
      assert parts[1..][1..] == parts[2..];
    }
    assert t == Join(parts, '.');
  }

  /** Every valid semantic version parses, and re-rendering the parsed value
      gives back exactly its MAJOR.MINOR.PATCH text. */
  lemma ValidSemverParses(s: string)
    requires IsValidSemver(s)
    ensures ParseVersion(s).Some?
    ensures ToString(ParseVersion(s).value) == VersionCoreText(s)
  {
    VersionCoreRoundTrip(VersionCoreText(s));
  }

  /** A prerelease never contains '+'. */
  lemma PrereleaseHasNoPlus(p: string)
    requires IsPrerelease(p)
    ensures '+' !in p
  {
    var ids := Split(p, '.');
    forall i | 0 <= i < |ids|
      ensures '+' !in ids[i]
    {
      assert IsPrereleaseIdentifier(ids[i]);
      assert forall k :: 0 <= k < |ids[i]| ==> IsIdentifierChar(ids[i][k]);
    }
    SplitPartsCover(p, '.', '+');
  }

  /** Appending ".N" for a numeral N keeps a prerelease valid. */
  lemma PrereleaseWithCounter(p: string, b: string)
    requires IsPrerelease(p) && IsCanonicalDecimal(b)
    ensures IsPrerelease(p + "." + b)
  {
    assert '.' !in b;
    SplitConcat(p, '.', b);
    SplitNoSeparator(b, '.');
    assert Split(p + "." + b, '.') == Split(p, '.') + [b];
  }

  /** A core followed by '-' and a valid prerelease is valid semver. */
  lemma CoreWithPrereleaseIsValid(c: string, q: string)
    requires IsVersionCore(c) && '-' !in c && '+' !in c
    requires IsPrerelease(q)
    ensures IsValidSemver(c + "-" + q)
  {
    var s := c + "-" + q;
    PrereleaseHasNoPlus(q);
    assert '+' !in s by {
      forall i | 0 <= i < |s|
        ensures s[i] != '+'
      {
        if i < |c| {
          assert s[i] == c[i];
        } else if i > |c| {
          assert s[i] == q[i - |c| - 1];
        }
      }
    }
    DashSection(c, q);
    assert VersionCoreText(s) == c by {
      assert s == c + ("-" + q);
      CoreTextOfSuffixed(c, "-" + q);
    }
  }

  /** A bare core is valid semver. */
  lemma CoreIsValid(c: string)
    requires IsVersionCore(c) && '-' !in c && '+' !in c
    ensures IsValidSemver(c)
  {
    CoreTextOfSuffixed(c, "");
    assert c + "" == c;
  }

  /** A rendering is valid semver whenever its prerelease is empty or itself
      a valid prerelease; the build counter is always a valid identifier. */
  lemma RenderingIsValidSemver(v: Version)
    requires v.prerelease == "" || IsPrerelease(v.prerelease)
    ensures IsValidSemver(ToString(v))
  {
    var c := CoreString(v.major, v.minor, v.patch);
    CoreStringChars(v.major, v.minor, v.patch);
    CoreStringShape(v.major, v.minor, v.patch);
    if v.prerelease == "" {
      CoreIsValid(c);
    } else {
      var q := v.prerelease + "." + NatToString(v.build);
      PrereleaseWithCounter(v.prerelease, NatToString(v.build));
      CoreWithPrereleaseIsValid(c, q);
      assert ToString(v) == c + "-" + q;
    }
  }

  /** The first '-' after a '-'-free prefix is the one right after it. */
  lemma FirstDashAfter(c: string, q: string)
    requires '-' !in c
    ensures IndexOf(c + "-" + q, '-') == |c|
    ensures (c + "-" + q)[..|c|] == c && (c + "-" + q)[|c| + 1..] == q
  {
    assert c + "-" + q == c + ("-" + q);
    IndexOfAfter(c, "-" + q, '-');
  }

  /** A rendering has no '+' when its prerelease has none. */
  lemma NoPlusInRendering(v: Version)
    requires '+' !in v.prerelease
    ensures '+' !in ToString(v)
  {
    var c := CoreString(v.major, v.minor, v.patch);
    var n := NatToString(v.build);
    var s := ToString(v);
    CoreStringChars(v.major, v.minor, v.patch);
    if v.prerelease != "" {
      var p := v.prerelease;
      assert s == c + "-" + p + "." + n;
      assert forall i :: 0 <= i < |n| ==> IsDigit(n[i]);
      forall i | 0 <= i < |s|
        ensures s[i] != '+'
      {
        if i < |c| {
          assert s[i] == c[i];
        } else if |c| < i < |c| + 1 + |p| {
          assert s[i] == p[i - |c| - 1];
        } else if i > |c| + 1 + |p| {
          assert s[i] == n[i - |c| - |p| - 2];
        }
      }
    }
  }

  /** A string whose text between the first '-' and the first '+' is not a
      valid prerelease is not valid SemVer. */
  lemma InvalidPrereleaseRejected(s: string)
    requires IndexOf(s, '-') < IndexOf(s, '+')
    requires !IsPrerelease(s[IndexOf(s, '-') + 1..IndexOf(s, '+')])
    ensures !IsValidSemver(s)
  {
  }

  /** In the rendering of a version with a prerelease, the text between the
      first '-' and the first '+' is the prerelease and the build number. */
  lemma PrereleaseSection(v: Version)
    requires v.prerelease != "" && '+' !in v.prerelease
    ensures var s := ToString(v);
      && IndexOf(s, '-') < IndexOf(s, '+')
      && s[IndexOf(s, '-') + 1..IndexOf(s, '+')] == v.prerelease + "." + NatToString(v.build)
  {
    var c := CoreString(v.major, v.minor, v.patch);
    var q := v.prerelease + "." + NatToString(v.build);
    CoreStringChars(v.major, v.minor, v.patch);
    NoPlusInRendering(v);
    assert ToString(v) == c + "-" + q;
    DashSection(c, q);
  }

  /** In a '+'-free string made of a '-'-free prefix, '-' and a rest, the
      rest lies between the first '-' and the (absent) first '+'. */
  lemma DashSection(c: string, q: string)
    requires '-' !in c && '+' !in c + "-" + q
    ensures var s := c + "-" + q;
      IndexOf(s, '-') == |c| && IndexOf(s, '+') == |s| && s[|c| + 1..|s|] == q
  {
    FirstDashAfter(c, q);
  }
}

/** Verdicts of the validity check on tags that occur in practice. */
module SemVerExamples {
  import opened Strings
  import opened SemVer

  /** The default initial version is a valid version. */
  lemma ReleaseCoreAccepted()
    ensures IsValidSemver("1.0.0")
  {
    SplitThree("1", "0", "0", '.');
    assert "1" + ['.'] + "0" + ['.'] + "0" == "1.0.0";
    CoreIsValid("1.0.0");
  }

  /** Prefixed or non-numeric tag names are not versions. */
  lemma VPrefixRejected()
    ensures !IsValidSemver("v3.0.0")
  {
  }

  lemma PathPrefixRejected()
    ensures !IsValidSemver("IGNORE/3.0.0")
  {
  }

  lemma YearTagRejected()
    ensures !IsValidSemver("release-2023")
  {
  }

  /** A numeric prerelease identifier may not have a leading zero. */
  lemma LeadingZeroPrereleaseRejected()
    ensures !IsValidSemver("1.0.0-01")
  {
    var c, q := "1.0.0", "01";
    assert c + "-" + q == "1.0.0-01";
    assert '-' !in c && '+' !in c + "-" + q by {
      assert c == ['1', '.', '0', '.', '0'];
      assert c + "-" + q == ['1', '.', '0', '.', '0', '-', '0', '1'];
    }
    DashSection(c, q);
    assert !IsPrerelease(q) by {
      SplitNoSeparator(q, '.');
      assert q[1] == '1';
    }
    InvalidPrereleaseRejected(c + "-" + q);
  }
}
