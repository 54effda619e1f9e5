/**
 Version resolution of nix_update/version/__init__.py: `fetch_latest_version`
 asks the ecosystem fetchers in a fixed order for candidate versions, extracts
 each candidate with the user's pattern, and returns the first eligible one;
 `fetch_latest_branch` asks the snapshot feeds and falls back to git.

 The fetchers are HTTP clients and are abstract here: an `Upstream` gives,
 for each fetcher and URL, the list it would return or the exception it would
 raise, and for each URL and branch the remote branch the git fallback sees.
 */
module Resolver {
  import opened Wrappers
  import opened Text
  import opened Versions
  import opened Git

  /** A URL as `urlparse` leaves it; parsing and unparsing are the identity. */
  type Url = string

  /** The stable fetchers, in the order `fetchers` lists them. */
  datatype Ecosystem = Crate | Pypi | Github | Gitlab | Rubygems | Savannah | Sourcehut

  const VersionFetchers: seq<Ecosystem> := [Crate, Pypi, Github, Gitlab, Rubygems, Savannah, Sourcehut]

  /** The snapshot fetchers, in the order `branch_snapshots_fetchers` lists them. */
  datatype SnapshotSource = GithubSnapshots | GitlabSnapshots

  const SnapshotFetchers: seq<SnapshotSource> := [GithubSnapshots, GitlabSnapshots]

  /** What a stable fetcher does for a URL: return its candidates (the empty
      list when the URL is not one of its own) or raise. */
  datatype Listing = Listed(versions: seq<Version>) | Raised(reason: string)

  /** What a snapshot fetcher does for a URL and branch: return snapshots,
      raise `FetchGitFallback` with the URL git should use, or raise anything
      else. */
  datatype SnapshotListing =
    | Snapshots(versions: seq<Version>)
    | FallbackToGit(url: Url)
    | SnapshotRaised(reason: string)

  type VersionOracle = (Ecosystem, Url) -> Listing
  type SnapshotOracle = (SnapshotSource, Url, string) -> SnapshotListing
  type RemoteOracle = (Url, string) -> Remote

  /** Everything the resolver learns from the network. */
  datatype Upstream = Upstream(versions: VersionOracle, snapshots: SnapshotOracle, remote: RemoteOracle)

  /** How resolution fails: the four `VersionError`s, the `assert` on a
      missing branch, an exception raised by a fetcher, and the unpacking
      error of the git fallback. */
  datatype ResolveError =
    | NoVersionMatched(found: seq<string>)
    | UnstableIgnored(version: string)
    | UnsupportedSource
    | NoCommitFound(branch: string, url: Url)
    | BranchMissing
    | FetcherRaised(reason: string)
    | GitFailed(error: GitError)

  predicate IsVersionError(e: ResolveError) {
    e.NoVersionMatched? || e.UnstableIgnored? || e.UnsupportedSource? || e.NoCommitFound?
  }

  const NoMatchHeader: string := "Not version matched the regex. The following versions were found:\n"

  /** The text of each `VersionError`. */
  function Message(e: ResolveError): string
    requires IsVersionError(e)
  {
    match e
    case NoVersionMatched(found) => NoMatchHeader + Join(found, "\n")
    case UnstableIgnored(v) =>
      "Found an unstable version " + v
        + ", which is being ignored. To update to unstable version, please use '--version=unstable'"
    case UnsupportedSource =>
      "Please specify the version. We can only get the latest version from github/gitlab/pypi/rubygems projects right now"
    case NoCommitFound(b, u) => "Cannot find a git commit for " + b + " in " + u + "."
  }

  /** The regex error lists the found versions one per line after its
      header, so they can be read back from the message. */
  lemma NoMatchMessageListsFound(found: seq<string>)
    requires found != [] && forall k :: 0 <= k < |found| ==> '\n' !in found[k]
    ensures var msg := Message(NoVersionMatched(found));
      && |NoMatchHeader| <= |msg| && msg[..|NoMatchHeader|] == NoMatchHeader
      && Split(msg[|NoMatchHeader|..], "\n") == found
  {
    var msg := Message(NoVersionMatched(found));
    assert msg[|NoMatchHeader|..] == Join(found, "\n");
    SplitJoin(found, '\n');
  }

  // ---- one candidate ----

  /** Where the inner loop of `fetch_latest_version` puts a candidate: its
      raw number into `filtered`, its extracted number into `unstable`, or
      its extracted version into `final`. */
  datatype Judgement = Filtered(raw: string) | Held(extracted: string) | Kept(version: Version)

  function Judge(v: Version, pref: Preference, m: Matcher): Judgement {
    match ExtractVersion(v, m)
    case None => Filtered(v.number)
    case Some(x) =>
      if pref == Stable && IsUnstable(v, x.number) then Held(x.number) else Kept(x)
  }

  /** Under the stable preference a kept candidate is never unstable, and it
      is the candidate's extraction. */
  lemma StableKeepsOnlyStable(v: Version, m: Matcher)
    requires Judge(v, Stable, m).Kept?
    ensures var x := Judge(v, Stable, m).version;
      ExtractVersion(v, m) == Some(x) && !IsUnstable(v, x.number)
  {
  }

  /** Under any other preference every candidate the pattern matches is
      kept, and none is held back as unstable. */
  lemma OtherPreferenceKeepsEveryMatch(v: Version, pref: Preference, m: Matcher)
    requires pref != Stable
    ensures Judge(v, pref, m).Kept? <==> ExtractVersion(v, m).Some?
    ensures !Judge(v, pref, m).Held?
  {
  }

  // ---- the three lists ----

  /** The lists `final`, `filtered` and `unstable`. */
  datatype Tally = Tally(final: seq<Version>, filtered: seq<string>, unstable: seq<string>)

  const NoTally := Tally([], [], [])

  function Add(t: Tally, j: Judgement): Tally {
    match j
    case Filtered(raw) => t.(filtered := t.filtered + [raw])
    case Held(x) => t.(unstable := t.unstable + [x])
    case Kept(v) => t.(final := t.final + [v])
  }

  function Plus(a: Tally, b: Tally): Tally {
    Tally(a.final + b.final, a.filtered + b.filtered, a.unstable + b.unstable)
  }

  /** The lists after appending the judgement of each candidate in turn. */
  function TallyOf(cs: seq<Version>, pref: Preference, m: Matcher): Tally
    decreases |cs|
  {
    if cs == [] then NoTally
    else Add(TallyOf(cs[..|cs| - 1], pref, m), Judge(cs[|cs| - 1], pref, m))
  }

  /** Judging two runs of candidates one after the other appends their lists. */
  lemma {:induction false} TallyAppend(a: seq<Version>, b: seq<Version>, pref: Preference, m: Matcher)
    decreases |b|
    ensures TallyOf(a + b, pref, m) == Plus(TallyOf(a, pref, m), TallyOf(b, pref, m))
  {
    if b == [] {
      assert a + b == a;
    } else {
      var b' := b[..|b| - 1];
      InitOfAppend(a, b);
      TallyAppend(a, b', pref, m);
    }
  }

  lemma InitOfAppend<T>(a: seq<T>, b: seq<T>)
    requires b != []
    ensures (a + b)[..|a + b| - 1] == a + b[..|b| - 1]
    ensures (a + b)[|a + b| - 1] == b[|b| - 1]
  {
  }

  /** The first kept version is the extraction of the first candidate the
      judgement keeps; there is none exactly when no candidate is kept. */
  lemma {:induction false} FinalHeadIsFirstKept(cs: seq<Version>, pref: Preference, m: Matcher)
    decreases |cs|
    ensures var t := TallyOf(cs, pref, m);
      t.final == [] <==> forall i :: 0 <= i < |cs| ==> !Judge(cs[i], pref, m).Kept?
    ensures var t := TallyOf(cs, pref, m);
      t.final != [] ==> exists i :: FirstKeptAt(cs, i, t.final[0], pref, m)
  {
    if cs != [] {
      var init := cs[..|cs| - 1];
      FinalHeadIsFirstKept(init, pref, m);
      var t := TallyOf(init, pref, m);
      assert forall i :: 0 <= i < |init| ==> init[i] == cs[i];
      if t.final != [] {
        var i :| FirstKeptAt(init, i, t.final[0], pref, m);
        assert FirstKeptAt(cs, i, TallyOf(cs, pref, m).final[0], pref, m);
      } else if Judge(cs[|cs| - 1], pref, m).Kept? {
        assert FirstKeptAt(cs, |cs| - 1, TallyOf(cs, pref, m).final[0], pref, m);
      }
    }
  }

  /** Candidate `i` is the first that the judgement keeps, and it is kept
      as `v`. */
  predicate FirstKeptAt(cs: seq<Version>, i: int, v: Version, pref: Preference, m: Matcher) {
    && 0 <= i < |cs|
    && Judge(cs[i], pref, m) == Kept(v)
    && forall j :: 0 <= j < i ==> !Judge(cs[j], pref, m).Kept?
  }

  /** The three lists together hold as many entries as there are candidates. */
  lemma {:induction false} TallyCounts(cs: seq<Version>, pref: Preference, m: Matcher)
    decreases |cs|
    ensures var t := TallyOf(cs, pref, m);
      |t.final| + |t.filtered| + |t.unstable| == |cs|
  {
    if cs != [] {
      TallyCounts(cs[..|cs| - 1], pref, m);
    }
  }

  /** Reference lists, one candidate at a time from the front: the raw
      number of every candidate the pattern rejects, the extracted number of
      every candidate held back as unstable, and the extraction of every
      other candidate. */
  function RejectedOf(cs: seq<Version>, m: Matcher): seq<string>
    decreases |cs|
  {
    if cs == [] then [] else RejectedOne(cs[0], m) + RejectedOf(cs[1..], m)
  }

  function HeldOf(cs: seq<Version>, pref: Preference, m: Matcher): seq<string>
    decreases |cs|
  {
    if cs == [] then [] else HeldOne(cs[0], pref, m) + HeldOf(cs[1..], pref, m)
  }

  function KeptOf(cs: seq<Version>, pref: Preference, m: Matcher): seq<Version>
    decreases |cs|
  {
    if cs == [] then [] else KeptOne(cs[0], pref, m) + KeptOf(cs[1..], pref, m)
  }

  function RejectedOne(c: Version, m: Matcher): seq<string> {
    if ExtractVersion(c, m).None? then [c.number] else []
  }

  function HeldOne(c: Version, pref: Preference, m: Matcher): seq<string> {
    var x := ExtractVersion(c, m);
    if x.Some? && pref == Stable && IsUnstable(c, x.value.number) then [x.value.number] else []
  }

  function KeptOne(c: Version, pref: Preference, m: Matcher): seq<Version> {
    var x := ExtractVersion(c, m);
    if x.Some? && !(pref == Stable && IsUnstable(c, x.value.number)) then [x.value] else []
  }

  /** The three lists are exactly the reference lists: `filtered` holds the
      raw numbers of the candidates the pattern rejects, in order, and so on. */
  lemma {:induction false} TallyIsPartition(cs: seq<Version>, pref: Preference, m: Matcher)
    decreases |cs|
    ensures TallyOf(cs, pref, m) == Tally(KeptOf(cs, pref, m), RejectedOf(cs, m), HeldOf(cs, pref, m))
  {
    if cs != [] {
      var head, tail := [cs[0]], cs[1..];
      assert head + tail == cs;
      TallyAppend(head, tail, pref, m);
      TallyOne(cs[0], pref, m);
      TallyIsPartition(tail, pref, m);
    }
  }

  lemma TallyOne(c: Version, pref: Preference, m: Matcher)
    ensures TallyOf([c], pref, m) == Tally(KeptOne(c, pref, m), RejectedOne(c, m), HeldOne(c, pref, m))
  {
    assert [c][..0] == [];
  }

  /** The first unstable entry is the extraction of the first candidate held
      back; there is none exactly when no candidate is held back. */
  lemma {:induction false} UnstableHeadIsFirstHeld(cs: seq<Version>, pref: Preference, m: Matcher)
    decreases |cs|
    ensures var t := TallyOf(cs, pref, m);
      t.unstable == [] <==> forall i :: 0 <= i < |cs| ==> !Judge(cs[i], pref, m).Held?
    ensures var t := TallyOf(cs, pref, m);
      t.unstable != [] ==> exists i :: FirstHeldAt(cs, i, t.unstable[0], pref, m)
  {
    if cs != [] {
      var init := cs[..|cs| - 1];
      UnstableHeadIsFirstHeld(init, pref, m);
      var t := TallyOf(init, pref, m);
      var j := Judge(cs[|cs| - 1], pref, m);
      assert TallyOf(cs, pref, m).unstable == t.unstable + (if j.Held? then [j.extracted] else []);
      assert forall i :: 0 <= i < |init| ==> init[i] == cs[i];
      if t.unstable != [] {
        var i :| FirstHeldAt(init, i, t.unstable[0], pref, m);
        assert FirstHeldAt(cs, i, TallyOf(cs, pref, m).unstable[0], pref, m);
      } else if Judge(cs[|cs| - 1], pref, m).Held? {
        assert FirstHeldAt(cs, |cs| - 1, TallyOf(cs, pref, m).unstable[0], pref, m);
      }
    }
  }

  /** Candidate `i` is the first that the judgement holds back, and its
      extracted number is `x`. */
  predicate FirstHeldAt(cs: seq<Version>, i: int, x: string, pref: Preference, m: Matcher) {
    && 0 <= i < |cs|
    && Judge(cs[i], pref, m) == Held(x)
    && forall j :: 0 <= j < i ==> !Judge(cs[j], pref, m).Held?
  }

  // ---- the stable fetchers ----

  /** What each stable fetcher does for `url`, in order. */
  function Responses(versions: VersionOracle, url: Url): (l: seq<Listing>)
    ensures |l| == |VersionFetchers|
    ensures forall i :: 0 <= i < |l| ==> l[i] == versions(VersionFetchers[i], url)
  {
    seq(|VersionFetchers|, i requires 0 <= i < |VersionFetchers| => versions(VersionFetchers[i], url))
  }

  /** The position of the first fetcher that raises, or the number of
      fetchers when none does. */
  function FirstRaise(l: seq<Listing>): (n: nat)
    ensures n <= |l|
    ensures forall j :: 0 <= j < n ==> l[j].Listed?
    ensures n < |l| ==> l[n].Raised?
  {
    if l == [] || l[0].Raised? then 0 else 1 + FirstRaise(l[1..])
  }

  /** All candidates of the first `n` fetchers, in order. */
  function Pool(l: seq<Listing>, n: nat): seq<Version>
    requires n <= |l| && forall j :: 0 <= j < n ==> l[j].Listed?
  {
    if n == 0 then [] else Pool(l, n - 1) + l[n - 1].versions
  }

  lemma {:induction false} PoolExtends(l: seq<Listing>, k: nat, n: nat)
    requires k <= n <= |l| && forall j :: 0 <= j < n ==> l[j].Listed?
    decreases n
    ensures exists rest :: Pool(l, n) == Pool(l, k) + rest
  {
    if k < n {
      PoolExtends(l, k, n - 1);
      var rest :| Pool(l, n - 1) == Pool(l, k) + rest;
      assert Pool(l, n) == Pool(l, k) + (rest + l[n - 1].versions);
    } else {
      assert Pool(l, n) == Pool(l, k) + [];
    }
  }

  /** The outcome of `fetch_latest_version` for a non-branch preference, over
      the candidates of all fetchers before the first that raises: the first
      kept version; otherwise the exception; otherwise the regex error
      listing every filtered raw number, then the error naming the first
      unstable version, then the unsupported-source error. */
  function Expected(l: seq<Listing>, pref: Preference, m: Matcher): Result<Version, ResolveError> {
    var n := FirstRaise(l);
    var t := TallyOf(Pool(l, n), pref, m);
    if t.final != [] then Success(t.final[0])
    else if n < |l| then Failure(FetcherRaised(l[n].reason))
    else if t.filtered != [] then Failure(NoVersionMatched(t.filtered))
    else if t.unstable != [] then Failure(UnstableIgnored(t.unstable[0]))
    else Failure(UnsupportedSource)
  }

  /** `fetch_latest_version(url_str, preference, version_regex, branch)`. */
  method FetchLatestVersion(up: Upstream, urlStr: string, pref: Preference, m: Matcher, branch: Option<string>)
    returns (r: Result<Version, ResolveError>)
    ensures pref == Branch ==> r == FetchLatestBranch(up.snapshots, up.remote, urlStr, branch)
    ensures pref != Branch ==> r == Expected(Responses(up.versions, urlStr), pref, m)
  {
    var url: Url := urlStr;
    if pref == Branch {
      return FetchLatestBranch(up.snapshots, up.remote, url, branch);
    }
    r := ScanFetchers(up.versions, url, pref, m);
  }

  /** The loop over `fetchers` and the three errors after it. */
  method ScanFetchers(versions: VersionOracle, url: Url, pref: Preference, m: Matcher)
    returns (r: Result<Version, ResolveError>)
    ensures r == Expected(Responses(versions, url), pref, m)
  {
    ghost var l := Responses(versions, url);
    var unstable: seq<string> := [];
    var filtered: seq<string> := [];
    var i := 0;
    while i < |VersionFetchers|
      invariant 0 <= i <= |VersionFetchers|
      invariant forall j :: 0 <= j < i ==> l[j].Listed?
      invariant TallyOf(Pool(l, i), pref, m) == Tally([], filtered, unstable)
    {
      var listing := versions(VersionFetchers[i], url);
      assert l[i] == listing;
      if listing.Raised? {
        StopsAtRaise(l, i, pref, m);
        return Failure(FetcherRaised(listing.reason));
      }
      var found := listing.versions;
      if found == [] {
        assert Pool(l, i + 1) == Pool(l, i) + [] == Pool(l, i);
        i := i + 1;
        continue;
      }
      ghost var before := Tally([], filtered, unstable);
      var final;
      final, filtered, unstable := SortListing(found, pref, m, filtered, unstable);
      NextPool(l, i, pref, m, before);
      if final != [] {
        StopsAtKept(l, i + 1, pref, m);
        return Success(final[0]);
      }
      i := i + 1;
    }
    Exhausted(l, pref, m);
    if filtered != [] {
      return Failure(NoVersionMatched(filtered));
    }
    if unstable != [] {
      return Failure(UnstableIgnored(unstable[0]));
    }
    return Failure(UnsupportedSource);
  }

  /** The inner loop of `fetch_latest_version` over one fetcher's
      candidates: it appends each candidate's judgement to the lists. */
  method SortListing(versions: seq<Version>, pref: Preference, m: Matcher, filtered0: seq<string>, unstable0: seq<string>)
    returns (final: seq<Version>, filtered: seq<string>, unstable: seq<string>)
    ensures Tally(final, filtered, unstable) == Plus(Tally([], filtered0, unstable0), TallyOf(versions, pref, m))
  {
    final, filtered, unstable := [], filtered0, unstable0;
    var k := 0;
    while k < |versions|
      invariant 0 <= k <= |versions|
      invariant Tally(final, filtered, unstable) == Plus(Tally([], filtered0, unstable0), TallyOf(versions[..k], pref, m))
    {
      assert versions[..k + 1][..k] == versions[..k];
      var extracted := ExtractVersion(versions[k], m);
      if extracted.None? {
        filtered := filtered + [versions[k].number];
      } else if pref == Stable && IsUnstable(versions[k], extracted.value.number) {
        unstable := unstable + [extracted.value.number];
      } else {
        final := final + [extracted.value];
      }
      k := k + 1;
    }
    assert versions[..k] == versions;
  }

  /** The lists after fetcher `i` are those before it plus its own. */
  lemma NextPool(l: seq<Listing>, i: nat, pref: Preference, m: Matcher, before: Tally)
    requires i < |l| && forall j :: 0 <= j <= i ==> l[j].Listed?
    requires TallyOf(Pool(l, i), pref, m) == before
    ensures TallyOf(Pool(l, i + 1), pref, m) == Plus(before, TallyOf(l[i].versions, pref, m))
  {
    TallyAppend(Pool(l, i), l[i].versions, pref, m);
  }

  /** When no fetcher raises and none keeps a version, the lists decide the
      error. */
  lemma Exhausted(l: seq<Listing>, pref: Preference, m: Matcher)
    requires forall j :: 0 <= j < |l| ==> l[j].Listed?
    requires TallyOf(Pool(l, |l|), pref, m).final == []
    ensures var t := TallyOf(Pool(l, |l|), pref, m);
      Expected(l, pref, m) ==
        if t.filtered != [] then Failure(NoVersionMatched(t.filtered))
        else if t.unstable != [] then Failure(UnstableIgnored(t.unstable[0]))
        else Failure(UnsupportedSource)
  {
    assert FirstRaise(l) == |l|;
  }

  /** A fetcher that raises before any version is kept decides the outcome. */
  lemma StopsAtRaise(l: seq<Listing>, i: nat, pref: Preference, m: Matcher)
    requires i < |l| && l[i].Raised? && forall j :: 0 <= j < i ==> l[j].Listed?
    requires TallyOf(Pool(l, i), pref, m).final == []
    ensures Expected(l, pref, m) == Failure(FetcherRaised(l[i].reason))
  {
    assert FirstRaise(l) == i;
  }

  /** Once the first `k` fetchers have kept a version, later fetchers do not
      change which one is returned. */
  lemma StopsAtKept(l: seq<Listing>, k: nat, pref: Preference, m: Matcher)
    requires k <= |l| && forall j :: 0 <= j < k ==> l[j].Listed?
    requires TallyOf(Pool(l, k), pref, m).final != []
    ensures Expected(l, pref, m) == Success(TallyOf(Pool(l, k), pref, m).final[0])
  {
    var n := FirstRaise(l);
    assert k <= n;
    PoolExtends(l, k, n);
    var rest :| Pool(l, n) == Pool(l, k) + rest;
    TallyAppend(Pool(l, k), rest, pref, m);
  }

  // ---- properties of the outcome ----

  /** A successful outcome is the extraction of the first candidate, over all
      fetchers in order, that the judgement keeps. */
  lemma SuccessIsFirstKept(l: seq<Listing>, pref: Preference, m: Matcher)
    requires Expected(l, pref, m).Success?
    ensures exists i :: FirstKeptAt(Pool(l, FirstRaise(l)), i, Expected(l, pref, m).value, pref, m)
  {
    var cs := Pool(l, FirstRaise(l));
    FinalHeadIsFirstKept(cs, pref, m);
  }

  /** Conversely, when some candidate is kept, the outcome is a success. */
  lemma KeptCandidateSucceeds(l: seq<Listing>, pref: Preference, m: Matcher, i: nat)
    requires var cs := Pool(l, FirstRaise(l)); i < |cs| && Judge(cs[i], pref, m).Kept?
    ensures Expected(l, pref, m).Success?
  {
    FinalHeadIsFirstKept(Pool(l, FirstRaise(l)), pref, m);
  }

  /** Under the stable preference the returned version is never unstable. */
  lemma StableResultIsStable(l: seq<Listing>, m: Matcher)
    requires Expected(l, Stable, m).Success?
    ensures var v := Expected(l, Stable, m).value;
      exists c :: c in Pool(l, FirstRaise(l)) && ExtractVersion(c, m) == Some(v) && !IsUnstable(c, v.number)
  {
    SuccessIsFirstKept(l, Stable, m);
    var cs := Pool(l, FirstRaise(l));
    var i :| FirstKeptAt(cs, i, Expected(l, Stable, m).value, Stable, m);
    StableKeepsOnlyStable(cs[i], m);
  }

  /** Under any other non-branch preference no error names an unstable
      version: every matching candidate is eligible. */
  lemma {:induction false} NoneHeldUnlessStable(cs: seq<Version>, pref: Preference, m: Matcher)
    requires pref != Stable
    decreases |cs|
    ensures TallyOf(cs, pref, m).unstable == []
  {
    if cs != [] {
      NoneHeldUnlessStable(cs[..|cs| - 1], pref, m);
      OtherPreferenceKeepsEveryMatch(cs[|cs| - 1], pref, m);
    }
  }

  lemma NeverUnstableIgnoredUnlessStable(l: seq<Listing>, pref: Preference, m: Matcher)
    requires pref != Stable
    ensures !Expected(l, pref, m).Failure? || !Expected(l, pref, m).error.UnstableIgnored?
  {
    NoneHeldUnlessStable(Pool(l, FirstRaise(l)), pref, m);
  }

  /** The regex error lists the raw number of every filtered candidate, so it
      wins over unstable candidates seen as well. */
  lemma FilteredWinsOverUnstable(l: seq<Listing>, pref: Preference, m: Matcher)
    requires FirstRaise(l) == |l|
    requires var t := TallyOf(Pool(l, |l|), pref, m); t.final == [] && t.filtered != []
    ensures Expected(l, pref, m) == Failure(NoVersionMatched(TallyOf(Pool(l, |l|), pref, m).filtered))
  {
  }

  /** The regex error comes only after every fetcher answered and none kept a
      version, and it lists the raw number of exactly the candidates the
      pattern rejects, in fetcher order. */
  lemma NoMatchListsRejected(l: seq<Listing>, pref: Preference, m: Matcher)
    requires Expected(l, pref, m).Failure? && Expected(l, pref, m).error.NoVersionMatched?
    ensures var cs := Pool(l, FirstRaise(l));
      && FirstRaise(l) == |l|
      && KeptOf(cs, pref, m) == []
      && RejectedOf(cs, m) != []
      && Expected(l, pref, m).error.found == RejectedOf(cs, m)
  {
    TallyIsPartition(Pool(l, FirstRaise(l)), pref, m);
  }

  /** The unstable-version error comes only when no candidate was kept or
      rejected, and it names the first candidate held back as unstable. */
  lemma UnstableNamesFirstHeld(l: seq<Listing>, pref: Preference, m: Matcher)
    requires Expected(l, pref, m).Failure? && Expected(l, pref, m).error.UnstableIgnored?
    ensures var cs := Pool(l, FirstRaise(l));
      && FirstRaise(l) == |l|
      && KeptOf(cs, pref, m) == []
      && RejectedOf(cs, m) == []
      && exists i :: FirstHeldAt(cs, i, Expected(l, pref, m).error.version, pref, m)
  {
    var cs := Pool(l, FirstRaise(l));
    TallyIsPartition(cs, pref, m);
    UnstableHeadIsFirstHeld(cs, pref, m);
  }

  /** `l` with a fetcher that returns nothing inserted at position `i`. */
  function InsertEmpty(l: seq<Listing>, i: nat): (l': seq<Listing>)
    requires i <= |l|
    ensures |l'| == |l| + 1 && l'[i] == Listed([])
    ensures forall j :: 0 <= j < i ==> l'[j] == l[j]
    ensures forall j :: i < j < |l'| ==> l'[j] == l[j - 1]
  {
    l[..i] + [Listed([])] + l[i..]
  }

  /** A fetcher that returns nothing is skipped: inserting one anywhere does
      not change the outcome. */
  lemma EmptyListingSkipped(l: seq<Listing>, i: nat, pref: Preference, m: Matcher)
    requires i <= |l|
    ensures Expected(InsertEmpty(l, i), pref, m) == Expected(l, pref, m)
  {
    var l' := InsertEmpty(l, i);
    FirstRaiseSkipsEmpty(l, i);
    var n := FirstRaise(l);
    assert FirstRaise(l') == Shifted(n, i);
    PoolSkipsEmpty(l, i, n);
    if n < |l| {
      RaiseSkipsEmpty(l, i, n);
    }
    SameScan(l, l', pref, m);
  }

  /** Two scans that pool the same candidates and stop at the same raise
      (or at none) have the same outcome. */
  lemma SameScan(l1: seq<Listing>, l2: seq<Listing>, pref: Preference, m: Matcher)
    requires Pool(l1, FirstRaise(l1)) == Pool(l2, FirstRaise(l2))
    requires FirstRaise(l1) < |l1| <==> FirstRaise(l2) < |l2|
    requires FirstRaise(l1) < |l1| ==> l1[FirstRaise(l1)] == l2[FirstRaise(l2)]
    ensures Expected(l1, pref, m) == Expected(l2, pref, m)
  {
  }

  /** Where the `n`-th fetcher of `l` sits once the empty one is inserted. */
  function Shifted(n: nat, i: nat): nat {
    if n < i then n else n + 1
  }

  lemma PoolSkipsEmpty(l: seq<Listing>, i: nat, n: nat)
    requires i <= |l| && n <= |l| && forall j :: 0 <= j < n ==> l[j].Listed?
    ensures var l' := InsertEmpty(l, i);
      && (forall j :: 0 <= j < Shifted(n, i) ==> l'[j].Listed?)
      && Pool(l', Shifted(n, i)) == Pool(l, n)
  {
    if n < i {
      PoolAgrees(l, InsertEmpty(l, i), n);
    } else {
      PoolAfterInsert(l, i, n);
    }
  }

  lemma RaiseSkipsEmpty(l: seq<Listing>, i: nat, n: nat)
    requires i <= |l| && n < |l|
    ensures InsertEmpty(l, i)[Shifted(n, i)] == l[n]
  {
  }

  lemma {:induction false} FirstRaiseSkipsEmpty(l: seq<Listing>, i: nat)
    requires i <= |l|
    decreases i
    ensures FirstRaise(InsertEmpty(l, i)) == Shifted(FirstRaise(l), i)
  {
    if i == 0 {
      InsertEmptyTail(l, i);
    } else if l[0].Raised? {
      assert InsertEmpty(l, i)[0] == l[0];
    } else {
      FirstRaiseSkipsEmpty(l[1..], i - 1);
      InsertEmptyTail(l, i);
    }
  }

  lemma InsertEmptyTail(l: seq<Listing>, i: nat)
    requires i <= |l|
    ensures i == 0 ==> InsertEmpty(l, i)[1..] == l
    ensures i > 0 ==> InsertEmpty(l, i)[1..] == InsertEmpty(l[1..], i - 1)
  {
    if i > 0 {
      assert l[..i][1..] == l[1..][..i - 1];
      assert l[i..] == l[1..][i - 1..];
    }
  }

  /** The pool of the first `n` fetchers depends on those fetchers only. */
  lemma {:induction false} PoolAgrees(l1: seq<Listing>, l2: seq<Listing>, n: nat)
    requires n <= |l1| && n <= |l2|
    requires forall j :: 0 <= j < n ==> l1[j].Listed? && l1[j] == l2[j]
    decreases n
    ensures Pool(l1, n) == Pool(l2, n)
  {
    if n > 0 {
      PoolAgrees(l1, l2, n - 1);
    }
  }

  lemma {:induction false} PoolAfterInsert(l: seq<Listing>, i: nat, n: nat)
    requires i <= n <= |l| && forall j :: 0 <= j < n ==> l[j].Listed?
    decreases n
    ensures var l' := InsertEmpty(l, i);
      (forall j :: 0 <= j < n + 1 ==> l'[j].Listed?) && Pool(l', n + 1) == Pool(l, n)
  {
    var l' := InsertEmpty(l, i);
    if n == i {
      PoolAgrees(l, l', i);
      assert Pool(l', i + 1) == Pool(l', i) + [];
    } else {
      PoolAfterInsert(l, i, n - 1);
      assert l'[n] == l[n - 1];
    }
  }

  /** The unsupported-source error comes exactly when no fetcher raises and
      every fetcher returns nothing. */
  lemma UnsupportedIffAllEmpty(l: seq<Listing>, pref: Preference, m: Matcher)
    ensures Expected(l, pref, m) == Failure(UnsupportedSource) <==> forall j :: 0 <= j < |l| ==> l[j] == Listed([])
  {
    var n := FirstRaise(l);
    var cs := Pool(l, n);
    TallyCounts(cs, pref, m);
    if forall j :: 0 <= j < |l| ==> l[j] == Listed([]) {
      AllEmptyPool(l, n);
    }
    if Expected(l, pref, m) == Failure(UnsupportedSource) {
      EmptyPoolAllEmpty(l, n);
    }
  }

  lemma {:induction false} AllEmptyPool(l: seq<Listing>, n: nat)
    requires n <= |l| && forall j :: 0 <= j < |l| ==> l[j] == Listed([])
    decreases n
    ensures Pool(l, n) == []
  {
    if n > 0 {
      AllEmptyPool(l, n - 1);
    }
  }

  lemma {:induction false} EmptyPoolAllEmpty(l: seq<Listing>, n: nat)
    requires n <= |l| && forall j :: 0 <= j < n ==> l[j].Listed?
    requires Pool(l, n) == []
    decreases n
    ensures forall j :: 0 <= j < n ==> l[j] == Listed([])
  {
    if n > 0 {
      assert Pool(l, n) == Pool(l, n - 1) + l[n - 1].versions;
      EmptyPoolAllEmpty(l, n - 1);
    }
  }

  // ---- branches ----

  /** How the snapshot chain ends: a snapshot, nothing from any feed, the
      `FetchGitFallback` retarget, or another exception. */
  datatype SnapshotOutcome = Found(version: Version) | NoneFound | GoToGit(url: Url) | SnapshotError(reason: string)

  /** The `try` block of `fetch_latest_branch`: the first non-empty snapshot
      list gives its first element; a retarget stops the chain. */
  function TrySnapshots(snap: SnapshotOracle, sources: seq<SnapshotSource>, url: Url, branch: string): SnapshotOutcome {
    if sources == [] then NoneFound
    else match snap(sources[0], url, branch)
      case Snapshots(vs) => if vs != [] then Found(vs[0]) else TrySnapshots(snap, sources[1..], url, branch)
      case FallbackToGit(u) => GoToGit(u)
      case SnapshotRaised(reason) => SnapshotError(reason)
  }

  /** `fetch_git_snapshots(url, branch)` and what `fetch_latest_branch` makes
      of it: the first snapshot, or the error naming the branch and URL. */
  function FromGit(remote: RemoteOracle, url: Url, branch: string): (r: Result<Version, ResolveError>)
    ensures r.Failure? && r.error.NoCommitFound? ==>
      r.error == NoCommitFound(branch, url) && FetchGitSnapshots(remote(url, branch)) == Success([])
    ensures var g := FetchGitSnapshots(remote(url, branch));
      && (g == Success([]) ==> r == Failure(NoCommitFound(branch, url)))
      && (g.Success? && g.value != [] ==> r == Success(g.value[0]))
      && (g.Failure? ==> r == Failure(GitFailed(g.error)))
  {
    match FetchGitSnapshots(remote(url, branch))
    case Failure(e) => Failure(GitFailed(e))
    case Success(vs) => if vs != [] then Success(vs[0]) else Failure(NoCommitFound(branch, url))
  }

  /** `fetch_latest_branch(url, branch)`. It takes neither the stable
      fetchers nor the version pattern. */
  function FetchLatestBranch(snap: SnapshotOracle, remote: RemoteOracle, url: Url, branch: Option<string>): (r: Result<Version, ResolveError>)
    ensures r == Failure(BranchMissing) <==> branch.None?
  {
    match branch
    case None => Failure(BranchMissing)
    case Some(b) => AfterSnapshots(remote, url, b, TrySnapshots(snap, SnapshotFetchers, url, b))
  }

  /** What `fetch_latest_branch` does after its `try` block: return the
      snapshot, re-raise the feed's error, or ask git at the original or the
      retargeted URL. */
  function AfterSnapshots(remote: RemoteOracle, url: Url, b: string, o: SnapshotOutcome): Result<Version, ResolveError> {
    match o
    case Found(v) => Success(v)
    case SnapshotError(reason) => Failure(FetcherRaised(reason))
    case NoneFound => FromGit(remote, url, b)
    case GoToGit(u) => FromGit(remote, u, b)
  }

  /** When the GitHub feed has a snapshot, it is the result and git is never
      consulted: the outcome is the same for every remote. */
  lemma FeedShortCircuits(snap: SnapshotOracle, remote: RemoteOracle, url: Url, b: string, vs: seq<Version>)
    requires snap(GithubSnapshots, url, b) == Snapshots(vs) && vs != []
    ensures FetchLatestBranch(snap, remote, url, Some(b)) == Success(vs[0])
  {
  }

  /** A fetcher at position `k` of `sources` that returns a non-empty list
      or raises, after fetchers that all returned nothing, ends the chain:
      later fetchers are not asked. */
  lemma {:induction false} ChainStopsAt(snap: SnapshotOracle, sources: seq<SnapshotSource>, url: Url, b: string, k: nat)
    requires k < |sources|
    requires forall j :: 0 <= j < k ==> snap(sources[j], url, b) == Snapshots([])
    requires !snap(sources[k], url, b).Snapshots? || snap(sources[k], url, b).versions != []
    decreases k
    ensures TrySnapshots(snap, sources, url, b) == match snap(sources[k], url, b)
      case Snapshots(vs) => Found(vs[0])
      case FallbackToGit(u) => GoToGit(u)
      case SnapshotRaised(reason) => SnapshotError(reason)
  {
    if k > 0 {
      ChainStopsAt(snap, sources[1..], url, b, k - 1);
    }
  }

  /** When every fetcher of `sources` returns nothing, the chain finds nothing. */
  lemma {:induction false} ChainExhausted(snap: SnapshotOracle, sources: seq<SnapshotSource>, url: Url, b: string)
    requires forall j :: 0 <= j < |sources| ==> snap(sources[j], url, b) == Snapshots([])
    decreases |sources|
    ensures TrySnapshots(snap, sources, url, b) == NoneFound
  {
    if sources != [] {
      ChainExhausted(snap, sources[1..], url, b);
    }
  }

  /** A retarget from the GitLab feed, after an empty GitHub feed, sends git
      to the new URL. */
  lemma RetargetGoesToGit(snap: SnapshotOracle, remote: RemoteOracle, url: Url, b: string, u: Url)
    requires snap(GithubSnapshots, url, b) == Snapshots([])
    requires snap(GitlabSnapshots, url, b) == FallbackToGit(u)
    ensures FetchLatestBranch(snap, remote, url, Some(b)) == FromGit(remote, u, b)
  {
    SecondFeedRetargets(snap, url, b, u);
    assert FetchLatestBranch(snap, remote, url, Some(b)) == AfterSnapshots(remote, url, b, GoToGit(u));
  }

  lemma SecondFeedRetargets(snap: SnapshotOracle, url: Url, b: string, u: Url)
    requires snap(GithubSnapshots, url, b) == Snapshots([])
    requires snap(GitlabSnapshots, url, b) == FallbackToGit(u)
    ensures TrySnapshots(snap, SnapshotFetchers, url, b) == GoToGit(u)
  {
    assert SnapshotFetchers[0] == GithubSnapshots && SnapshotFetchers[1] == GitlabSnapshots;
    ChainStopsAt(snap, SnapshotFetchers, url, b, 1);
  }

  /** A retarget from the first feed skips the second one: whatever it would
      do, git is asked with the new URL. */
  lemma RetargetSkipsRemainingFeeds(snap: SnapshotOracle, remote: RemoteOracle, url: Url, b: string, u: Url)
    requires snap(GithubSnapshots, url, b) == FallbackToGit(u)
    ensures FetchLatestBranch(snap, remote, url, Some(b)) == FromGit(remote, u, b)
  {
    assert TrySnapshots(snap, SnapshotFetchers, url, b) == GoToGit(u);
    assert FetchLatestBranch(snap, remote, url, Some(b)) == AfterSnapshots(remote, url, b, GoToGit(u));
  }

  /** When both feeds return nothing, git is asked with the original URL. */
  lemma EmptyFeedsGoToGit(snap: SnapshotOracle, remote: RemoteOracle, url: Url, b: string)
    requires forall s :: snap(s, url, b) == Snapshots([])
    ensures FetchLatestBranch(snap, remote, url, Some(b)) == FromGit(remote, url, b)
  {
    ChainExhausted(snap, SnapshotFetchers, url, b);
    assert FetchLatestBranch(snap, remote, url, Some(b)) == AfterSnapshots(remote, url, b, NoneFound);
  }

  /** The URL `fetch_latest_branch` hands to git for `b`: the original one
      when both feeds return nothing, or the retarget of the first feed that
      does not return a list. */
  predicate AsksGitAt(snap: SnapshotOracle, url: Url, b: string, target: Url) {
    var s0 := snap(GithubSnapshots, url, b);
    var s1 := snap(GitlabSnapshots, url, b);
    || s0 == FallbackToGit(target)
    || (s0 == Snapshots([]) && s1 == FallbackToGit(target))
    || (s0 == Snapshots([]) && s1 == Snapshots([]) && target == url)
  }

  /** Once git is asked, its answer is the result: the first snapshot, the
      missing-commit error naming the branch and the URL git was given, or
      git's own error. */
  lemma GitAnswerIsResult(snap: SnapshotOracle, remote: RemoteOracle, url: Url, b: string, target: Url)
    requires AsksGitAt(snap, url, b, target)
    ensures var g := FetchGitSnapshots(remote(target, b));
      var r := FetchLatestBranch(snap, remote, url, Some(b));
      && (g == Success([]) ==> r == Failure(NoCommitFound(b, target)))
      && (g.Success? && g.value != [] ==> r == Success(g.value[0]))
      && (g.Failure? ==> r == Failure(GitFailed(g.error)))
  {
    var s0 := snap(GithubSnapshots, url, b);
    if s0 == FallbackToGit(target) {
      RetargetSkipsRemainingFeeds(snap, remote, url, b, target);
    } else if snap(GitlabSnapshots, url, b) == FallbackToGit(target) {
      RetargetGoesToGit(snap, remote, url, b, target);
    } else {
      ChainExhausted(snap, SnapshotFetchers, url, b);
    }
  }

  /** The missing-commit error names the branch and the URL git was given,
      which is the original one or the retarget of a feed, and git found no
      commit there. */
  lemma NoCommitFoundNamesGitTarget(snap: SnapshotOracle, remote: RemoteOracle, url: Url, b: string)
    requires FetchLatestBranch(snap, remote, url, Some(b)).Failure?
    requires FetchLatestBranch(snap, remote, url, Some(b)).error.NoCommitFound?
    ensures var e := FetchLatestBranch(snap, remote, url, Some(b)).error;
      && e.branch == b
      && FetchGitSnapshots(remote(e.url, b)) == Success([])
      && (e.url == url || exists s :: s in SnapshotFetchers && snap(s, url, b) == FallbackToGit(e.url))
  {
    var s0 := snap(GithubSnapshots, url, b);
    var s1 := snap(GitlabSnapshots, url, b);
    assert GithubSnapshots in SnapshotFetchers && GitlabSnapshots in SnapshotFetchers;
    if s0.FallbackToGit? {
      RetargetSkipsRemainingFeeds(snap, remote, url, b, s0.url);
    } else if s0 == Snapshots([]) && s1.FallbackToGit? {
      RetargetGoesToGit(snap, remote, url, b, s1.url);
    } else if s0 == Snapshots([]) && s1 == Snapshots([]) {
      ChainExhausted(snap, SnapshotFetchers, url, b);
    } else if s0 == Snapshots([]) {
      ChainStopsAt(snap, SnapshotFetchers, url, b, 1);
    } else {
      ChainStopsAt(snap, SnapshotFetchers, url, b, 0);
    }
  }
}
