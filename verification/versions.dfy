/**
 The `Version` record every fetcher produces, the caller's version preference,
 and the two per-candidate decisions of the resolver: extracting the version
 with the user's pattern (`extract_version`) and classifying it as unstable
 (`is_unstable`), from nix_update/version/__init__.py.
 */
module Versions {
  import opened Wrappers
  import opened Text

  /** A candidate version: the version text, the fetcher's own prerelease
      flag when it knows one, and the commit of a branch snapshot. */
  datatype Version = Version(number: string, prerelease: Option<bool>, rev: Option<string>)

  /** How the caller wants the latest version chosen. */
  datatype Preference = Stable | Unstable | Branch

  /** What `re.match(pattern, text)` followed by `.group(1)` yields: no match,
      or a match whose first group may not have taken part (`None`). */
  datatype Match = NoMatch | Matched(group: Option<string>)

  /** The user's version pattern, compiled; the regular-expression engine
      itself is not part of this model. */
  type Matcher = string -> Match

  /** The default pattern `(.*)`: anchored at the start, `.` stops at the
      first newline, and the group is whatever it consumed. */
  function MatchAll(text: string): (m: Match)
    ensures m.Matched? && m.group.Some?
    ensures '\n' !in m.group.value
    ensures |m.group.value| <= |text| && text == m.group.value + text[|m.group.value|..]
    ensures |m.group.value| < |text| ==> text[|m.group.value|] == '\n'
  {
    Matched(Some(UpToNewline(text)))
  }

  function UpToNewline(text: string): (r: string)
    ensures |r| <= |text| && r == text[..|r|] && '\n' !in r
    ensures |r| < |text| ==> text[|r|] == '\n'
  {
    if text == [] || text[0] == '\n' then [] else [text[0]] + UpToNewline(text[1..])
  }

  /** `extract_version`: the capture group replaces the number, the
      prerelease flag and the revision are carried over; no match, or a group
      that did not participate, yields no version. */
  function ExtractVersion(v: Version, m: Matcher): (r: Option<Version>)
    ensures r.None? <==> (m(v.number).NoMatch? || m(v.number).group.None?)
    ensures r.Some? ==> m(v.number) == Matched(Some(r.value.number))
    ensures r.Some? ==> r.value.prerelease == v.prerelease && r.value.rev == v.rev
  {
    match m(v.number)
    case NoMatch => None
    case Matched(None) => None
    case Matched(Some(g)) => Some(Version(g, v.prerelease, v.rev))
  }

  /** With the pattern `(.*)` a single-line version comes back unchanged. */
  lemma ExtractAllIsIdentity(v: Version)
    requires '\n' !in v.number
    ensures ExtractVersion(v, MatchAll) == Some(v)
  {
    var g := UpToNewline(v.number);
    assert g == v.number;
  }

  // ---- is_unstable ----

  /** ASCII case folding to lower case. */
  function LowerChar(c: char): char {
    if 'A' <= c <= 'Z' then (c as int + 32) as char else c
  }

  function Lower(s: string): (r: string)
    ensures |r| == |s| && forall k :: 0 <= k < |s| ==> r[k] == LowerChar(s[k])
  {
    seq(|s|, k requires 0 <= k < |s| => LowerChar(s[k]))
  }

  predicate IsDigit(c: char) {
    '0' <= c <= '9'
  }

  /** The literal alternatives of the pattern `rc|alpha|beta|preview|nightly|m[0-9]+`. */
  const UnstableWords: seq<string> := ["rc", "alpha", "beta", "preview", "nightly"]

  /** One alternative of the unstable pattern matches the (lower-cased) text
      at index `i`; `m[0-9]+` matches there exactly when an `m` is followed
      by a digit. */
  predicate UnstableTokenAt(t: string, i: nat) {
    || (exists w | w in UnstableWords :: OccursAt(t, w, i))
    || (i + 1 < |t| && t[i] == 'm' && IsDigit(t[i + 1]))
  }

  /** `re.search(pattern, t)` on an already lower-cased text: scan from the
      left for the first index where some alternative matches. */
  function SearchUnstable(t: string): (found: bool)
    ensures found <==> exists i: nat :: i < |t| && UnstableTokenAt(t, i)
    decreases |t|
  {
    if t == [] then false
    else if UnstableTokenAt(t, 0) then true
    else
      var rest := SearchUnstable(t[1..]);
      TokensOfTail(t);
      assert rest ==> exists i: nat :: i < |t| && UnstableTokenAt(t, i) by {
        if rest {
          var i: nat :| i < |t| - 1 && UnstableTokenAt(t[1..], i);
          assert UnstableTokenAt(t, i + 1);
        }
      }
      assert (exists i: nat :: i < |t| && UnstableTokenAt(t, i)) ==> rest by {
        if exists i: nat :: i < |t| && UnstableTokenAt(t, i) {
          var i: nat :| i < |t| && UnstableTokenAt(t, i);
          assert i > 0;
          assert UnstableTokenAt(t[1..], i - 1);
        }
      }
      rest
  }

  lemma TokensOfTail(t: string)
    requires t != []
    ensures forall i: nat :: i < |t| - 1 ==> (UnstableTokenAt(t[1..], i) <==> UnstableTokenAt(t, i + 1))
  {
    forall i: nat | i < |t| - 1
      ensures UnstableTokenAt(t[1..], i) <==> UnstableTokenAt(t, i + 1)
    {
      forall w | w in UnstableWords
        ensures OccursAt(t[1..], w, i) <==> OccursAt(t, w, i + 1)
      {
        OccursInSuffix(t, w, 1, i);
      }
    }
  }

  /** `is_unstable(version, extracted)`: an explicit prerelease flag wins;
      only without one is the extracted text searched, ignoring case, for
      `rc`, `alpha`, `beta`, `preview`, `nightly` or `m` followed by digits. */
  function IsUnstable(v: Version, extracted: string): (r: bool)
    ensures v.prerelease.Some? ==> r == v.prerelease.value
    ensures v.prerelease.None? ==>
      (r <==> exists i: nat :: i < |extracted| && UnstableTokenAt(Lower(extracted), i))
  {
    match v.prerelease
    case Some(flag) => flag
    case None => SearchUnstable(Lower(extracted))
  }

  /** The search ignores ASCII case: two texts that agree letter by letter
      up to case are both unstable or both not. */
  lemma UnstableIgnoresAsciiCase(v: Version, a: string, b: string)
    requires |a| == |b| && forall k :: 0 <= k < |a| ==> LowerChar(a[k]) == LowerChar(b[k])
    ensures IsUnstable(v, a) == IsUnstable(v, b)
  {
    assert Lower(a) == Lower(b);
  }
}
