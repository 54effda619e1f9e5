/**
 Concrete cases: the git fixture of tests/test_branch_git.py, the
 feed case of tests/test_branch_github.py, and small registry and patching
 examples.
 */
module Scenarios {
  import opened Wrappers
  import opened Text
  import opened Versions
  import opened Git
  import opened Resolver
  import opened Patching

  // ---- the git fixture ----

  /** The commit dates of the fixture repository, oldest first: one commit
      on 1970-01-01, ten on 1970-01-02 (where `short` branches off), ten on
      1970-01-03 and ninety on 2038-01-19. */
  function FixtureDate(k: nat): string {
    if k == 0 then "1970-01-01"
    else if k <= 10 then "1970-01-02"
    else if k <= 20 then "1970-01-03"
    else "2038-01-19"
  }

  /** The first `n` commits of the fixture; `hashOf` names the commits. */
  function FixtureHistory(n: nat, hashOf: nat -> string): seq<Commit> {
    seq(n, k requires 0 <= k < n => Commit(FixtureDate(k), hashOf(k)))
  }

  const MasterLength: nat := 111
  const ShortLength: nat := 11

  /** A file URL: neither snapshot feed knows it. */
  function NoFeeds(): SnapshotOracle {
    (s: SnapshotSource, u: Url, b: string) => Snapshots([])
  }

  /** The remote of the fixture: `master` and `short`. */
  function FixtureRemote(hashOf: nat -> string): RemoteOracle {
    (u: Url, b: string) =>
      if b == "short" then RemoteOf(FixtureHistory(ShortLength, hashOf))
      else RemoteOf(FixtureHistory(MasterLength, hashOf))
  }

  lemma DatesAreWords(k: nat)
    ensures IsWord(FixtureDate(k))
  {
  }

  /** Resolving a branch of the fixture through the git fallback gives the
      snapshot of its tip. */
  lemma FixtureBranchResolves(hashOf: nat -> string, url: Url, b: string, n: nat)
    requires n > 0 && IsWord(hashOf(n - 1))
    requires FixtureRemote(hashOf)(url, b) == RemoteOf(FixtureHistory(n, hashOf))
    ensures FetchLatestBranch(NoFeeds(), FixtureRemote(hashOf), url, Some(b))
      == Success(Version(SnapshotPrefix + FixtureDate(n - 1), None, Some(hashOf(n - 1))))
  {
    var h := FixtureHistory(n, hashOf);
    assert h[n - 1] == Commit(FixtureDate(n - 1), hashOf(n - 1));
    DatesAreWords(n - 1);
    EmptyFeedsGoToGit(NoFeeds(), FixtureRemote(hashOf), url, b);
    FetchTip(h);
  }

  /** `master` resolves to the newest commit's date. */
  lemma MasterResolves(hashOf: nat -> string, url: Url)
    requires IsWord(hashOf(MasterLength - 1))
    ensures var r := FetchLatestBranch(NoFeeds(), FixtureRemote(hashOf), url, Some("master"));
      r.Success? && r.value.number == "unstable-2038-01-19"
  {
    FixtureBranchResolves(hashOf, url, "master", MasterLength);
    assert SnapshotPrefix + FixtureDate(MasterLength - 1) == "unstable-2038-01-19";
  }

  /** `short` resolves to the date of its own tip, not master's. */
  lemma ShortResolves(hashOf: nat -> string, url: Url)
    requires IsWord(hashOf(ShortLength - 1))
    ensures var r := FetchLatestBranch(NoFeeds(), FixtureRemote(hashOf), url, Some("short"));
      r.Success? && r.value.number == "unstable-1970-01-02"
  {
    FixtureBranchResolves(hashOf, url, "short", ShortLength);
    assert SnapshotPrefix + FixtureDate(ShortLength - 1) == "unstable-1970-01-02";
  }

  // ---- the feed suffices ----

  /** With a GitHub feed listing the tip of `short`, the result is that
      snapshot whatever git would do, so git is never needed. */
  lemma FeedWithoutGit(snap: SnapshotOracle, remote: RemoteOracle, hash: string)
    requires snap(GithubSnapshots, "https://github.com/_/_", "short")
      == Snapshots([Version("unstable-1970-01-02", None, Some(hash))])
    ensures FetchLatestBranch(snap, remote, "https://github.com/_/_", Some("short"))
      == Success(Version("unstable-1970-01-02", None, Some(hash)))
  {
    FeedShortCircuits(snap, remote, "https://github.com/_/_", "short",
      [Version("unstable-1970-01-02", None, Some(hash))]);
  }

  // ---- a registry with a release candidate ----

  const Candidate: Version := Version("2.0.0-rc1", None, None)
  const Release: Version := Version("1.9.0", None, None)

  /** Only PyPI knows the project, newest first. */
  function Registry(): seq<Listing> {
    [Listed([]), Listed([Candidate, Release]), Listed([]), Listed([]), Listed([]), Listed([]), Listed([])]
  }

  lemma CandidateIsUnstable()
    ensures IsUnstable(Candidate, "2.0.0-rc1")
  {
    assert UnstableTokenAt(Lower("2.0.0-rc1"), 6) by {
      assert Lower("2.0.0-rc1")[6..8] == "rc";
      assert UnstableWords[0] == "rc";
      assert OccursAt(Lower("2.0.0-rc1"), UnstableWords[0], 6);
    }
  }

  /** A text without lower-case letters holds none of the unstable tokens,
      each of which starts with a letter. */
  lemma NoLettersNoToken(t: string)
    requires forall k :: 0 <= k < |t| ==> !('a' <= t[k] <= 'z')
    ensures forall i: nat :: i < |t| ==> !UnstableTokenAt(t, i)
  {
    forall i: nat | i < |t|
      ensures !UnstableTokenAt(t, i)
    {
      forall w | w in UnstableWords
        ensures !OccursAt(t, w, i)
      {
        assert 'a' <= w[0] <= 'z';
        if i + |w| <= |t| {
          assert t[i..i + |w|][0] == t[i];
        }
      }
    }
  }

  lemma ReleaseIsStable()
    ensures !IsUnstable(Release, "1.9.0")
  {
    var t := Lower("1.9.0");
    assert t == "1.9.0";
    NoLettersNoToken(t);
  }

  /** Two candidates are judged in turn. */
  lemma TallyPair(a: Version, b: Version, pref: Preference, m: Matcher)
    ensures TallyOf([a, b], pref, m) == Add(Add(NoTally, Judge(a, pref, m)), Judge(b, pref, m))
  {
    assert [a, b][..1] == [a];
    assert [a][..0] == [];
    assert TallyOf([a], pref, m) == Add(NoTally, Judge(a, pref, m));
  }

  lemma StableJudgements()
    ensures Judge(Candidate, Stable, MatchAll) == Held("2.0.0-rc1")
    ensures Judge(Release, Stable, MatchAll) == Kept(Release)
  {
    ExtractAllIsIdentity(Candidate);
    ExtractAllIsIdentity(Release);
    CandidateIsUnstable();
    ReleaseIsStable();
  }

  /** The stable preference skips the release candidate. */
  lemma StablePicksRelease()
    ensures Expected(Registry(), Stable, MatchAll) == Success(Release)
  {
    StableJudgements();
    RegistryPool();
    TallyPair(Candidate, Release, Stable, MatchAll);
  }

  lemma UnstableJudgements()
    ensures Judge(Candidate, Unstable, MatchAll) == Kept(Candidate)
    ensures Judge(Release, Unstable, MatchAll) == Kept(Release)
  {
    ExtractAllIsIdentity(Candidate);
    ExtractAllIsIdentity(Release);
  }

  /** The unstable preference takes the newest candidate. */
  lemma UnstablePicksCandidate()
    ensures Expected(Registry(), Unstable, MatchAll) == Success(Candidate)
  {
    UnstableJudgements();
    RegistryPool();
    TallyPair(Candidate, Release, Unstable, MatchAll);
  }

  lemma RegistryPool()
    ensures FirstRaise(Registry()) == 7
    ensures Pool(Registry(), 7) == [Candidate, Release]
  {
    var l := Registry();
    assert FirstRaise(l) == 7;
    assert Pool(l, 1) == [];
    assert Pool(l, 2) == [Candidate, Release];
    assert Pool(l, 7) == Pool(l, 2);
  }

  /** A pattern that matches nothing lists every raw version found. */
  function NothingMatches(t: string): Match {
    NoMatch
  }

  lemma FilterMismatchListsRaw()
    ensures Expected(Registry(), Stable, NothingMatches)
      == Failure(NoVersionMatched(["2.0.0-rc1", "1.9.0"]))
  {
    RegistryPool();
    TallyPair(Candidate, Release, Stable, NothingMatches);
    assert Judge(Candidate, Stable, NothingMatches) == Filtered("2.0.0-rc1");
    assert Judge(Release, Stable, NothingMatches) == Filtered("1.9.0");
    assert [] + ["2.0.0-rc1"] + ["1.9.0"] == ["2.0.0-rc1", "1.9.0"];
  }

  // ---- patching ----

  /** Bumping `1.0` to `v1.1` rewrites the version line only. */
  lemma BumpVersionLine()
    ensures UpdateVersion(["x\n", "1.0\n"], "1.0", Some("v1.1"))
      == Success(Rewritten(["x\n", "1.1\n"]))
  {
    assert StripLeadingV("v1.1") == "1.1";
    assert "1.0\n"[..3] == "1.0" && "1.0\n"[3..] == "\n";
    assert Replace("1.0\n", "1.0", "1.1") == "1.1" + Replace("\n", "1.0", "1.1");
    assert Replace("\n", "1.0", "1.1") == "\n";
    assert Replace("x\n", "1.0", "1.1") == "x\n";
    var r := UpdateVersion(["x\n", "1.0\n"], "1.0", Some("v1.1"));
    assert r.value.lines[0] == "x\n" && r.value.lines[1] == "1.1\n";
    assert r.value.lines == ["x\n", "1.1\n"];
  }

  /** A version tag equal to the old version but for its `v` leaves the
      file alone. */
  lemma SameVersionUntouched(lines: seq<string>)
    ensures UpdateVersion(lines, "1.0", Some("v1.0")) == Success(Untouched)
  {
    assert StripLeadingV("v1.0") == "1.0";
  }
}
