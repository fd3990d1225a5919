/** Conversion of a computed semantic version to the PEP 440 pre-release form
    "MAJOR.MINOR.PATCHaN", and the validity check for the strings it produces. */
module Pep440 {
  import opened Wrappers
  import opened Strings
  import opened SemVer

  /** The conversion fails only when the text after the first '-' has no '.'
      to mark the build number; the offending version is carried along. */
  datatype Pep440Error = MissingBuildNumber(version: string)

  /** `ConvertToPEP440`: a string without '-' is a release and is returned as
      is.  Otherwise the text before the first '-' is kept, the prerelease
      identifier is dropped, and the text after the prerelease's last '.'
      becomes the alpha number. */
  function ConvertToPep440(s: string): (r: Result<string, Pep440Error>)
    ensures '-' !in s ==> r == Ok(s)
    ensures r.Err? ==> r.error == MissingBuildNumber(s)
  {
    if '-' !in s then Ok(s)
    else
      var dash := IndexOf(s, '-');
      var core := s[..dash];
      var prerelease := s[dash + 1..];
      var lastDot := LastIndexOf(prerelease, '.');
      if lastDot == -1 then Err(MissingBuildNumber(s))
      else Ok(core + "a" + prerelease[lastDot + 1..])
  }

  /** With a '-', the conversion fails exactly when no '.' follows the first
      '-'. */
  lemma ConvertFailsIff(s: string)
    requires '-' in s
    ensures ConvertToPep440(s).Err? <==> '.' !in s[IndexOf(s, '-') + 1..]
  {
    var q := s[IndexOf(s, '-') + 1..];
    var lastDot := LastIndexOf(q, '.');
    if lastDot != -1 {
      assert q[lastDot] == '.';
    }
  }

  /** On success with a '-', the result is the text before the first '-',
      then 'a', then the last of the '.'-separated fields of the input. */
  lemma ConvertResultShape(s: string)
    requires '-' in s && ConvertToPep440(s).Ok?
    ensures ConvertToPep440(s).value == s[..IndexOf(s, '-')] + "a" + Last(Split(s, '.'))
  {
    var k := ConvertValue(s);
    LastFieldAt(s, '.', k);
  }

  /** The last element of a non-empty sequence. */
  function Last<T>(xs: seq<T>): T
    requires |xs| >= 1
  {
    xs[|xs| - 1]
  }

  /** The position `k` of the last '.' of a convertible string, and the
      conversion's value in terms of it. */
  lemma ConvertValue(s: string) returns (k: nat)
    requires '-' in s && ConvertToPep440(s).Ok?
    ensures IndexOf(s, '-') < k < |s| && s[k] == '.' && '.' !in s[k + 1..]
    ensures ConvertToPep440(s).value == s[..IndexOf(s, '-')] + "a" + s[k + 1..]
  {
    var dash := IndexOf(s, '-');
    var q := s[dash + 1..];
    var lastDot := LastIndexOf(q, '.');
    assert lastDot >= 0;
    k := dash + 1 + lastDot;
    assert ConvertToPep440(s).value == s[..dash] + "a" + q[lastDot + 1..];
    assert q[lastDot + 1..] == s[k + 1..];
    assert s[k] == q[lastDot];
    assert '.' !in s[k + 1..] by {
      AfterLastDot(q);
    }
  }

  /** When the separator at `k` is the last one, the last field of the split
      is the text after it. */
  lemma LastFieldAt(s: string, sep: char, k: nat)
    requires k < |s| && s[k] == sep && sep !in s[k + 1..]
    ensures Last(Split(s, sep)) == s[k + 1..]
  {
    var a, b := s[..k], s[k + 1..];
    assert s == a + [sep] + b;
    LastField(a, sep, b);
  }

  /** The last field of a split is the text after the last separator. */
  lemma LastField(a: string, sep: char, b: string)
    requires sep !in b
    ensures Last(Split(a + [sep] + b, sep)) == b
  {
    SplitConcat(a, sep, b);
    SplitNoSeparator(b, sep);
  }

  /** The text after the last '.' is dot-free. */
  lemma AfterLastDot(q: string)
    requires LastIndexOf(q, '.') >= 0
    ensures '.' !in q[LastIndexOf(q, '.') + 1..]
  {
    var i := LastIndexOf(q, '.');
    var t := q[i + 1..];
    assert forall k :: 0 <= k < |t| ==> t[k] == q[i + 1 + k];
  }

  /** `IsValidPEP440`: three dot-separated numerals without leading zeros,
      optionally followed by 'a' and at least one digit.  No character of the
      numeric part is 'a', so the first 'a' is where the suffix starts. */
  predicate IsValidPep440(s: string) {
    var a := IndexOf(s, 'a');
    && IsVersionCore(s[..a])
    && (a < |s| ==> |s[a + 1..]| >= 1 && AllDigits(s[a + 1..]))
  }

  // ---------------------------------------------------------------------
  // Properties
  // ---------------------------------------------------------------------

  /** The two shapes `IsValidPep440` accepts: a version core alone, and a
      version core, 'a' and a digit string. */
  lemma AlphaFormIsValid(c: string, n: string)
    requires IsVersionCore(c) && 'a' !in c
    requires |n| >= 1 && AllDigits(n)
    ensures IsValidPep440(c + "a" + n)
  {
    var s := c + "a" + n;
    assert s == c + ("a" + n);
    IndexOfAfter(c, "a" + n, 'a');
    assert s[..|c|] == c;
    assert s[|c| + 1..] == n;
  }

  lemma ReleaseFormIsValid(c: string)
    requires IsVersionCore(c) && 'a' !in c
    ensures IsValidPep440(c)
  {
    assert IndexOf(c, 'a') == |c|;
    assert c[..|c|] == c;
  }

  /** The last '.' of `p + "." + n` is the one before `n` when `n` has none. */
  lemma LastDotBeforeSuffix(p: string, n: string)
    requires '.' !in n
    ensures LastIndexOf(p + "." + n, '.') == |p|
  {
    var q := p + "." + n;
    var i := LastIndexOf(q, '.');
    assert q[|p|] == '.';
  }

  /** A '-'-free core, '-', any prerelease identifier, '.' and a dot-free
      build number convert to the core, 'a' and the build number. */
  lemma ConvertShape(c: string, p: string, n: string)
    requires '-' !in c && '.' !in n
    ensures ConvertToPep440(c + "-" + p + "." + n) == Ok(c + "a" + n)
  {
    var q := p + "." + n;
    var s := c + "-" + q;
    assert c + "-" + p + "." + n == s;
    FirstDashAfter(c, q);
    assert '-' in s by {
      assert s[|c|] == '-';
    }
    LastDotBeforeSuffix(p, n);
    assert q[|p| + 1..] == n;
  }

  /** Converting the rendering of a prerelease version gives "M.m.paB": the
      prerelease identifier is dropped and the build counter becomes the
      alpha number.  The result is valid PEP 440. */
  lemma ConvertPrereleaseRendering(v: Version)
    requires v.prerelease != ""
    ensures ConvertToPep440(ToString(v)) ==
      Ok(CoreString(v.major, v.minor, v.patch) + "a" + NatToString(v.build))
    ensures IsValidPep440(CoreString(v.major, v.minor, v.patch) + "a" + NatToString(v.build))
  {
    var c := CoreString(v.major, v.minor, v.patch);
    var n := NatToString(v.build);
    CoreStringChars(v.major, v.minor, v.patch);
    CoreStringShape(v.major, v.minor, v.patch);
    assert '.' !in n;
    ConvertShape(c, v.prerelease, n);
    AlphaFormIsValid(c, n);
  }

  /** With a sign-free core before the first '-', the conversion fails
      exactly when the rest has no '.'. */
  lemma ConvertFailsWithoutDot(c: string, p: string)
    requires '-' !in c
    ensures ConvertToPep440(c + "-" + p).Err? <==> '.' !in p
  {
    FirstDashAfter(c, p);
    assert '-' in c + "-" + p by {
      assert (c + "-" + p)[|c|] == '-';
    }
  }

  /** The characters of a rendered core are digits and dots. */
  lemma CoreStringCharset(major: nat, minor: nat, patch: nat)
    ensures var c := CoreString(major, minor, patch);
      forall i :: 0 <= i < |c| ==> IsDigit(c[i]) || c[i] == '.'
  {
    var a, b, d := NatToString(major), NatToString(minor), NatToString(patch);
    var c := CoreString(major, minor, patch);
    assert c == a + "." + b + "." + d;
    forall i | 0 <= i < |c|
      ensures IsDigit(c[i]) || c[i] == '.'
    {
      if i < |a| {
        assert c[i] == a[i];
      } else if |a| < i < |a| + 1 + |b| {
        assert c[i] == b[i - |a| - 1];
      } else if |a| + 1 + |b| < i {
        assert c[i] == d[i - |a| - |b| - 2];
      }
    }
  }

  /** A valid PEP 440 string consists of digits, dots and at most the letter
      'a': any other character rules a string out. */
  lemma ValidPep440Charset(s: string)
    requires IsValidPep440(s)
    ensures forall i :: 0 <= i < |s| ==> IsDigit(s[i]) || s[i] == '.' || s[i] == 'a'
  {
    var a := IndexOf(s, 'a');
    VersionCoreRoundTrip(s[..a]);
    var k := NumericCoreValue(s[..a]);
    CoreStringCharset(k.major, k.minor, k.patch);
    forall i | 0 <= i < |s|
      ensures IsDigit(s[i]) || s[i] == '.' || s[i] == 'a'
    {
      if i < a {
        assert s[i] == s[..a][i];
      } else if i > a {
        assert s[i] == s[a + 1..][i - a - 1];
      }
    }
  }

  /** One character other than a digit, '.' or 'a' rules a string out. */
  lemma ForeignCharRejected(s: string, i: nat)
    requires i < |s| && !(IsDigit(s[i]) || s[i] == '.' || s[i] == 'a')
    ensures !IsValidPep440(s)
  {
    if IsValidPep440(s) {
      ValidPep440Charset(s);
    }
  }

  /** Converting the rendering of a release leaves it unchanged, and it is
      valid PEP 440. */
  lemma ConvertReleaseRendering(v: Version)
    requires v.prerelease == ""
    ensures ConvertToPep440(ToString(v)) == Ok(ToString(v))
    ensures IsValidPep440(ToString(v))
  {
    var c := CoreString(v.major, v.minor, v.patch);
    CoreStringChars(v.major, v.minor, v.patch);
    CoreStringShape(v.major, v.minor, v.patch);
    assert ToString(v) == c;
    ReleaseFormIsValid(c);
  }

  /** Every version rendering converts successfully to a valid PEP 440 string. */
  lemma ConvertRenderingIsValid(v: Version)
    ensures ConvertToPep440(ToString(v)).Ok?
    ensures IsValidPep440(ConvertToPep440(ToString(v)).value)
  {
    if v.prerelease == "" {
      ConvertReleaseRendering(v);
    } else {
      ConvertPrereleaseRendering(v);
    }
  }
}

/** Conversions and verdicts on the strings the conversion is documented with. */
module Pep440Examples {
  import opened Wrappers
  import opened Strings
  import opened SemVer
  import opened Pep440

  /** A prerelease without a build number is an error, whatever the core
      ("1.0.0-pre" in particular). */
  lemma MissingBuildNumberRejected(c: string)
    requires '-' !in c
    ensures ConvertToPep440(c + "-pre").Err?
  {
    var p := "pre";
    assert c + "-pre" == c + "-" + p by {
      assert "-" + p == "-pre";
    }
    assert ConvertToPep440(c + "-" + p).Err? by {
      assert '.' !in p by {
        assert p == ['p', 'r', 'e'];
      }
      ConvertFailsWithoutDot(c, p);
    }
  }

  /** Hyphens inside the prerelease do not stand in for the '.' before the
      build number ("1.0.0-pre-test-more" in particular). */
  lemma HyphenatedWithoutBuildRejected(c: string)
    requires '-' !in c
    ensures ConvertToPep440(c + "-pre-test-more").Err?
  {
    var p := "pre-test-more";
    assert c + "-pre-test-more" == c + "-" + p by {
      assert "-" + p == "-pre-test-more";
    }
    assert ConvertToPep440(c + "-" + p).Err? by {
      assert '.' !in p by {
        assert forall i :: 0 <= i < |p| ==> p[i] != '.';
      }
      ConvertFailsWithoutDot(c, p);
    }
  }

  /** A hyphenated identifier is dropped in favour of the build number
      ("1.0.2-setup-build.1" becomes "1.0.2a1"). */
  lemma HyphenatedIdentifierDropped(c: string)
    requires '-' !in c
    ensures ConvertToPep440(c + "-" + "setup-build" + "." + "1") == Ok(c + "a" + "1")
  {
    ConvertShape(c, "setup-build", "1");
  }

  /** A beta marker is not the alpha form. */
  lemma BetaRejected()
    ensures !IsValidPep440("1.0.0b1")
  {
    ForeignCharRejected("1.0.0b1", 5);
  }

  /** The semantic-version prerelease syntax is not PEP 440. */
  lemma SemverPrereleaseRejected()
    ensures !IsValidPep440("1.0.0-pre.1")
  {
    ForeignCharRejected("1.0.0-pre.1", 5);
  }
}
