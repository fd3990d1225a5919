/** Choosing one tag out of several by semantic version: the loop of
    `selectHighestSemverTag` (tags on HEAD) and the loop of
    `GetMostRecentTag` (reachable tags), both measured against one
    declarative description of the intended choice. */
module TagSelection {
  import opened Wrappers
  import opened SemVer
  import opened BranchNames

  /** `isGreaterThan`: lexicographic comparison of major, minor and patch. */
  predicate IsGreaterThan(v: Core, other: Core) {
    if v.major != other.major then v.major > other.major
    else if v.minor != other.minor then v.minor > other.minor
    else v.patch > other.patch
  }

  /** `IsGreaterThan` is a strict total order. */
  lemma GreaterIsStrictTotalOrder(a: Core, b: Core, c: Core)
    ensures !IsGreaterThan(a, a)
    ensures IsGreaterThan(a, b) ==> !IsGreaterThan(b, a)
    ensures a != b ==> IsGreaterThan(a, b) || IsGreaterThan(b, a)
    ensures IsGreaterThan(a, b) && IsGreaterThan(b, c) ==> IsGreaterThan(a, c)
  {
  }

  /** The comparison key of each name: its core after prefix stripping, if
      it parses. */
  function Keys(names: seq<string>, prefix: string): (keys: seq<Option<Core>>)
    ensures |keys| == |names|
    ensures forall i :: 0 <= i < |names| ==> keys[i] == ParseCore(StripTagPrefix(names[i], prefix))
  {
    seq(|names|, i requires 0 <= i < |names| => ParseCore(StripTagPrefix(names[i], prefix)))
  }

  /** Some of the first `n` keys parse. */
  predicate AnyParsesIn(keys: seq<Option<Core>>, n: nat)
    requires n <= |keys|
  {
    exists j :: 0 <= j < n && keys[j].Some?
  }

  /** Among the first `n` keys, `r` parses, no parsed key is greater, and
      every parsed key before it is strictly smaller: the first of the
      highest. */
  predicate IsFirstHighestIn(keys: seq<Option<Core>>, n: nat, r: nat)
    requires n <= |keys|
  {
    && r < n
    && keys[r].Some?
    && (forall j :: 0 <= j < n && keys[j].Some? ==> !IsGreaterThan(keys[j].value, keys[r].value))
    && (forall j :: 0 <= j < r && keys[j].Some? ==> IsGreaterThan(keys[r].value, keys[j].value))
  }

  /** The intended choice: the first of the highest parsed keys, or the
      first entry when none parses. */
  predicate IsSelection(keys: seq<Option<Core>>, r: nat) {
    && r < |keys|
    && (if AnyParsesIn(keys, |keys|) then IsFirstHighestIn(keys, |keys|, r) else r == 0)
  }

  /** At most one index is the intended choice. */
  lemma SelectionUnique(keys: seq<Option<Core>>, r1: nat, r2: nat)
    requires IsSelection(keys, r1) && IsSelection(keys, r2)
    ensures r1 == r2
  {
  }

  // ---------------------------------------------------------------------
  // The loop of selectHighestSemverTag
  // ---------------------------------------------------------------------

  /** The state of `selectHighestSemverTag`'s loop after `i` entries: the
      best index so far and whether any entry has parsed. */
  predicate HighestInvariant(keys: seq<Option<Core>>, i: nat, best: nat, hasValid: bool) {
    && 1 <= i <= |keys|
    && best < i
    && (hasValid <==> AnyParsesIn(keys, i))
    && (hasValid ==> IsFirstHighestIn(keys, i, best))
    && (!hasValid ==> best == 0)
  }

  /** The loop of `selectHighestSemverTag` from entry `i` on: an entry that
      parses replaces the best one when nothing has parsed yet or when it is
      strictly greater. */
  function ScanHighest(keys: seq<Option<Core>>, i: nat, best: nat, hasValid: bool): (r: nat)
    requires best < |keys| && i <= |keys|
    requires hasValid ==> keys[best].Some?
    ensures r < |keys|
    decreases |keys| - i
  {
    if i == |keys| then best
    else if keys[i].Some? && (!hasValid || IsGreaterThan(keys[i].value, keys[best].value)) then
      ScanHighest(keys, i + 1, i, true)
    else
      ScanHighest(keys, i + 1, best, hasValid)
  }

  /** One entry more: a parsed entry that is not greater leaves the choice. */
  lemma HighestStepKeep(keys: seq<Option<Core>>, i: nat, best: nat)
    requires i < |keys| && best < i
    requires IsFirstHighestIn(keys, i, best)
    requires keys[i].Some? ==> !IsGreaterThan(keys[i].value, keys[best].value)
    ensures IsFirstHighestIn(keys, i + 1, best)
  {
  }

  /** One entry more: a parsed entry greater than the best so far becomes the
      choice. */
  lemma HighestStepTake(keys: seq<Option<Core>>, i: nat, best: nat)
    requires i < |keys| && best < i
    requires IsFirstHighestIn(keys, i, best)
    requires keys[i].Some? && IsGreaterThan(keys[i].value, keys[best].value)
    ensures IsFirstHighestIn(keys, i + 1, i)
  {
    var top, prev := keys[i].value, keys[best].value;
    forall j | 0 <= j < i && keys[j].Some?
      ensures IsGreaterThan(top, keys[j].value)
    {
      GreaterIsStrictTotalOrder(top, prev, keys[j].value);
      GreaterIsStrictTotalOrder(prev, keys[j].value, prev);
    }
    GreaterIsStrictTotalOrder(top, top, top);
    forall j | 0 <= j < i + 1 && keys[j].Some?
      ensures !IsGreaterThan(keys[j].value, top)
    {
      if j < i {
        GreaterIsStrictTotalOrder(top, keys[j].value, top);
      }
    }
  }

  /** One entry more: the first parsed entry becomes the choice. */
  lemma HighestStepFirst(keys: seq<Option<Core>>, i: nat)
    requires i < |keys| && keys[i].Some?
    requires !AnyParsesIn(keys, i)
    ensures IsFirstHighestIn(keys, i + 1, i)
  {
    GreaterIsStrictTotalOrder(keys[i].value, keys[i].value, keys[i].value);
  }

  /** `selectHighestSemverTag`'s loop makes the intended choice. */
  lemma {:induction false} ScanHighestIsSelection(keys: seq<Option<Core>>, i: nat, best: nat, hasValid: bool)
    requires HighestInvariant(keys, i, best, hasValid)
    ensures IsSelection(keys, ScanHighest(keys, i, best, hasValid))
    decreases |keys| - i
  {
    if i < |keys| {
      if keys[i].Some? && (!hasValid || IsGreaterThan(keys[i].value, keys[best].value)) {
        if hasValid {
          HighestStepTake(keys, i, best);
        } else {
          HighestStepFirst(keys, i);
        }
        assert AnyParsesIn(keys, i + 1);
        ScanHighestIsSelection(keys, i + 1, i, true);
      } else {
        if hasValid {
          HighestStepKeep(keys, i, best);
          assert AnyParsesIn(keys, i + 1) by {
            assert keys[best].Some?;
          }
        } else {
          assert !AnyParsesIn(keys, i + 1);
        }
        ScanHighestIsSelection(keys, i + 1, best, hasValid);
      }
    }
  }

  /** `selectHighestSemverTag`: the tag with the highest version, comparing
      the raw names; the earliest wins a tie, and the first tag is returned
      when none parses. */
  function SelectHighestSemverTag(tags: seq<string>): (r: string)
    ensures tags == [] ==> r == ""
    ensures tags != [] ==> exists k :: 0 <= k < |tags| && r == tags[k] && IsSelection(Keys(tags, ""), k)
  {
    if |tags| == 0 then ""
    else
      var keys := Keys(tags, "");
      var k := ScanHighest(keys, 1, 0, keys[0].Some?);
      ScanHighestFromStart(keys);
      assert IsSelection(Keys(tags, ""), k) && tags[k] == tags[k];
      tags[k]
  }

  /** The loop as `selectHighestSemverTag` starts it, on the first entry. */
  lemma ScanHighestFromStart(keys: seq<Option<Core>>)
    requires |keys| > 0
    ensures IsSelection(keys, ScanHighest(keys, 1, 0, keys[0].Some?))
  {
    assert HighestInvariant(keys, 1, 0, keys[0].Some?) by {
      if keys[0].Some? {
        HighestStepFirst(keys, 0);
      }
    }
    ScanHighestIsSelection(keys, 1, 0, keys[0].Some?);
  }

  // ---------------------------------------------------------------------
  // The loop of GetMostRecentTag
  // ---------------------------------------------------------------------

  /** The state of `GetMostRecentTag`'s loop after `i` candidates: the chosen
      candidate so far (none before the first) and whether any has parsed. */
  predicate RecentInvariant(keys: seq<Option<Core>>, i: nat, best: Option<nat>, hasValid: bool) {
    && i <= |keys|
    && (hasValid <==> AnyParsesIn(keys, i))
    && (hasValid ==> best.Some? && IsFirstHighestIn(keys, i, best.value))
    && (!hasValid ==> best == if i == 0 then None else Some(0))
  }

  /** The loop of `GetMostRecentTag` from candidate `i` on: a candidate that
      does not parse is kept only as a fallback when nothing is chosen yet;
      one that parses replaces the choice when nothing has parsed yet or when
      it is strictly greater. */
  function ScanRecent(keys: seq<Option<Core>>, i: nat, best: Option<nat>, hasValid: bool): (r: Option<nat>)
    requires i <= |keys|
    requires best.Some? ==> best.value < |keys|
    requires hasValid ==> best.Some? && keys[best.value].Some?
    ensures r.Some? ==> r.value < |keys|
    decreases |keys| - i
  {
    if i == |keys| then best
    else if keys[i].None? then
      ScanRecent(keys, i + 1, if best.None? then Some(i) else best, hasValid)
    else if !hasValid || IsGreaterThan(keys[i].value, keys[best.value].value) then
      ScanRecent(keys, i + 1, Some(i), true)
    else
      ScanRecent(keys, i + 1, best, hasValid)
  }

  /** `GetMostRecentTag`'s loop makes the intended choice whenever there is
      a candidate, and chooses nothing otherwise. */
  lemma {:induction false} ScanRecentIsSelection(keys: seq<Option<Core>>, i: nat, best: Option<nat>, hasValid: bool)
    requires RecentInvariant(keys, i, best, hasValid)
    ensures var r := ScanRecent(keys, i, best, hasValid);
      if |keys| == 0 then r == None else r.Some? && IsSelection(keys, r.value)
    decreases |keys| - i
  {
    if i < |keys| {
      if keys[i].None? {
        if hasValid {
          HighestStepKeep(keys, i, best.value);
          assert AnyParsesIn(keys, i + 1) by {
            assert keys[best.value].Some?;
          }
        } else {
          assert !AnyParsesIn(keys, i + 1);
        }
        ScanRecentIsSelection(keys, i + 1, if best.None? then Some(i) else best, hasValid);
      } else if !hasValid || IsGreaterThan(keys[i].value, keys[best.value].value) {
        if hasValid {
          HighestStepTake(keys, i, best.value);
        } else {
          HighestStepFirst(keys, i);
        }
        assert AnyParsesIn(keys, i + 1);
        ScanRecentIsSelection(keys, i + 1, Some(i), true);
      } else {
        HighestStepKeep(keys, i, best.value);
        assert AnyParsesIn(keys, i + 1) by {
          assert keys[best.value].Some?;
        }
        ScanRecentIsSelection(keys, i + 1, best, hasValid);
      }
    } else if |keys| > 0 && !hasValid {
      assert best == Some(0);
    }
  }

  /** The two loops differ in how they start, yet on the same keys they
      choose the same entry. */
  lemma ScansAgree(keys: seq<Option<Core>>)
    requires |keys| > 0
    ensures ScanRecent(keys, 0, None, false) == Some(ScanHighest(keys, 1, 0, keys[0].Some?))
  {
    assert RecentInvariant(keys, 0, None, false);
    ScanRecentIsSelection(keys, 0, None, false);
    ScanHighestFromStart(keys);
    SelectionUnique(keys, ScanRecent(keys, 0, None, false).value, ScanHighest(keys, 1, 0, keys[0].Some?));
  }
}
