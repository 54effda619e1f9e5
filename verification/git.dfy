/**
 The git fallback of nix_update/version/git.py: fetch the branch shallowly,
 read the newest commit with `git log`, and while nothing is found and the
 clone is still shallow, deepen it by a fixed increment and look again.

 The remote branch is abstract: its history length and the output `git log`
 prints for a given state of the local clone. Whether the clone is shallow is
 derived from that state, which is the modelling assumption that makes the
 loop terminate: a clone whose depth exceeds the number of commits of the
 history is complete.
 */
module Git {
  import opened Wrappers
  import opened Text
  import opened Versions

  /** `fetch` uses `--depth=initial + increment`, then `--deepen=increment`. */
  const DefaultIncrement: nat := 20
  const DefaultInitial: nat := 20

  /** The temporary clone: the number of commits of the remote branch's
      (linear) history, the depth fetched so far, and what `git` reports as
      shallow. */
  datatype CloneState = CloneState(historyLen: nat, depth: nat, shallow: bool)

  /** `git` reports the clone as shallow until its depth exceeds the history:
      at a depth equal to the number of commits the root commit is still
      recorded as a shallow boundary, so the clone counts as complete only
      one commit later. */
  predicate Consistent(s: CloneState) {
    s.shallow == (s.depth <= s.historyLen)
  }

  /** The clone after `git fetch --depth=depth`. */
  function FetchWithDepth(historyLen: nat, depth: nat): (s: CloneState)
    ensures Consistent(s) && s.historyLen == historyLen && s.depth == depth
  {
    CloneState(historyLen, depth, depth <= historyLen)
  }

  /** The clone after `git fetch --deepen=increment`. */
  function Deepen(s: CloneState, increment: nat): (s': CloneState)
    ensures Consistent(s') && s'.historyLen == s.historyLen && s'.depth == s.depth + increment
  {
    FetchWithDepth(s.historyLen, s.depth + increment)
  }

  /** A remote branch as the algorithm observes it: the length of its
      history and the raw stdout of `git log --format='%cd %H' --max-count=1
      FETCH_HEAD` for each state of the clone. */
  datatype Remote = Remote(historyLen: nat, log: CloneState -> string)

  /** The raw stdout of `git rev-parse --is-shallow-repository`. */
  function IsShallowOutput(s: CloneState): string {
    if s.shallow then "true\n" else "false\n"
  }

  lemma StrippedFalse()
    ensures Strip("false\n") == "false"
  {
    StripLine("false");
    assert "false" + "\n" == "false\n";
  }

  lemma StrippedTrue()
    ensures Strip("true\n") == "true"
  {
    StripLine("true");
    assert "true" + "\n" == "true\n";
  }

  /** Python compares the stripped output of `rev-parse` with `"false"`. */
  lemma ShallowOutputStripped(s: CloneState)
    ensures Strip(IsShallowOutput(s)) == "false" <==> !s.shallow
  {
    if s.shallow {
      StrippedTrue();
    } else {
      StrippedFalse();
    }
  }

  /** A clone of exactly the history's length still reads as shallow; one
      commit more reads as complete. */
  lemma CompleteOnlyPastHistory(n: nat)
    ensures Strip(IsShallowOutput(FetchWithDepth(n, n))) == "true"
    ensures Strip(IsShallowOutput(FetchWithDepth(n, n + 1))) == "false"
  {
    StrippedTrue();
    StrippedFalse();
  }

  /** The `ValueError` raised when the log line does not split into a date
      and a commit. */
  datatype GitError = UnpackFailed(line: string)

  const SnapshotPrefix: string := "unstable-"

  /** `date, commit = log.split(maxsplit=1)` and the snapshot built from it.
      The line comes from `strip()`, so it has no surrounding whitespace; the
      unpacking fails exactly when the line is a single word. */
  function SnapshotFromLog(line: string): (r: Result<Version, GitError>)
    requires line != [] && !IsSpace(line[0]) && !IsSpace(line[|line| - 1])
    ensures r.Failure? <==> IsWord(line)
    ensures r.Failure? ==> r.error == UnpackFailed(line)
    ensures r.Success? ==> r.value.prerelease.None? && r.value.rev.Some?
    ensures r.Success? ==>
      && |r.value.number| > |SnapshotPrefix|
      && r.value.number[..|SnapshotPrefix|] == SnapshotPrefix
      && IsWord(r.value.number[|SnapshotPrefix|..])
    ensures r.Success? ==> r.value.rev.value != [] && !IsSpace(r.value.rev.value[0])
  {
    var parts := SplitOnce(line);
    SplitOnceOfStripped(line);
    if |parts| == 2 then
      var v := Version(SnapshotPrefix + parts[0], None, Some(parts[1]));
      assert v.number[|SnapshotPrefix|..] == parts[0];
      Success(v)
    else
      Failure(UnpackFailed(line))
  }

  /** A snapshot's date is the line's first word and its revision the rest
      after the whitespace that follows it. */
  lemma SnapshotFromLogJoins(line: string)
    requires line != [] && !IsSpace(line[0]) && !IsSpace(line[|line| - 1])
    requires SnapshotFromLog(line).Success?
    ensures var v := SnapshotFromLog(line).value;
      exists gap :: GapJoined(line, v.number[|SnapshotPrefix|..], gap, v.rev.value)
  {
    SplitOnceOfStripped(line);
    assert StripStart(line) == line;
    SplitOnceJoins(line);
    var v := SnapshotFromLog(line).value;
    assert v.number[|SnapshotPrefix|..] == SplitOnce(line)[0];
  }

  /** A stripped line splits in two exactly when it contains whitespace. */
  lemma SplitOnceOfStripped(line: string)
    requires line != [] && !IsSpace(line[0]) && !IsSpace(line[|line| - 1])
    ensures |SplitOnce(line)| == 2 <==> !IsWord(line)
  {
    assert StripStart(line) == line;
    var k := WordLength(line);
    if k < |line| {
      var rest := line[k..];
      assert rest[|rest| - 1] == line[|line| - 1];
      assert !AllSpace(rest);
      assert !IsWord(line);
    } else {
      assert line[k..] == [];
      assert IsWord(line);
    }
  }

  /** Conversely, a date, any whitespace and a revision read back as the
      snapshot of that date and revision. */
  lemma SnapshotFromJoined(date: string, gap: string, rev: string)
    requires IsWord(date) && gap != [] && AllSpace(gap)
    requires rev != [] && !IsSpace(rev[0]) && !IsSpace(rev[|rev| - 1])
    ensures var line := date + gap + rev;
      && line != [] && !IsSpace(line[0]) && !IsSpace(line[|line| - 1])
      && SnapshotFromLog(line) == Success(Version(SnapshotPrefix + date, None, Some(rev)))
  {
    var line := date + gap + rev;
    assert line[0] == date[0] && line[|line| - 1] == rev[|rev| - 1];
    SplitOnceOfJoined(date, gap, rev);
  }

  /** What `git log --format='%cd %H'` prints for a commit. */
  function LogLine(date: string, hash: string): string {
    date + " " + hash + "\n"
  }

  /** Reading back a printed log line gives the snapshot of that commit. */
  lemma LogLineRoundTrip(date: string, hash: string)
    requires IsWord(date) && IsWord(hash)
    ensures Strip(LogLine(date, hash)) == date + " " + hash
    ensures SnapshotFromLog(date + " " + hash) == Success(Version(SnapshotPrefix + date, None, Some(hash)))
  {
    StripLogLine(date, hash);
    SnapshotFromJoined(date, " ", hash);
  }

  lemma StripLogLine(date: string, hash: string)
    requires IsWord(date) && IsWord(hash)
    ensures Strip(LogLine(date, hash)) == date + " " + hash
  {
    var x := date + " " + hash;
    assert x[0] == date[0] && x[|x| - 1] == hash[|hash| - 1];
    StripLine(x);
  }

  function Listify(r: Result<Version, GitError>): (l: Result<seq<Version>, GitError>)
    ensures r.Success? <==> l.Success?
    ensures r.Success? ==> l.value == [r.value]
    ensures r.Failure? ==> l.error == r.error
  {
    match r
    case Success(v) => Success([v])
    case Failure(e) => Failure(e)
  }

  /** The stripped log line once `depth` commits are fetched. */
  function LogAt(r: Remote, depth: nat): (line: string)
    ensures line == [] || (!IsSpace(line[0]) && !IsSpace(line[|line| - 1]))
  {
    Strip(r.log(FetchWithDepth(r.historyLen, depth)))
  }

  /** What the loop returns when its last look is at `depth`: the snapshot of
      a non-empty log line (or the unpacking error), no version otherwise. */
  function Verdict(r: Remote, depth: nat): (v: Result<seq<Version>, GitError>)
    ensures v.Success? ==> |v.value| <= 1
    ensures v == Success([]) <==> LogAt(r, depth) == []
  {
    var line := LogAt(r, depth);
    if line != [] then Listify(SnapshotFromLog(line)) else Success([])
  }

  /** The depths at which the loop of `get_latest_snapshots_from_git`
      consults `git log`, starting from clone state `s`: it stops at the
      first non-empty log line or once `rev-parse` reports a complete clone,
      and otherwise deepens by `increment`. The `rev-parse` comparison is
      replaced by the flag it reads (ShallowOutputStripped); the method
      below keeps the comparison. */
  function Looks(r: Remote, s: CloneState, increment: nat): (ds: seq<nat>)
    requires increment > 0 && Consistent(s) && s.historyLen == r.historyLen
    decreases r.historyLen + 1 - s.depth
  {
    if LogAt(r, s.depth) != [] || !s.shallow then [s.depth]
    else [s.depth] + Looks(r, Deepen(s, increment), increment)
  }

  /** A look that finds a line, or a complete clone, is the last one. */
  lemma LooksStopAt(r: Remote, s: CloneState, increment: nat)
    requires increment > 0 && Consistent(s) && s.historyLen == r.historyLen
    requires LogAt(r, s.depth) != [] || !s.shallow
    ensures Looks(r, s, increment) == [s.depth]
  {
  }

  /** An empty look on a shallow clone is followed by the looks after
      deepening. */
  lemma LooksGoOn(r: Remote, s: CloneState, increment: nat)
    requires increment > 0 && Consistent(s) && s.historyLen == r.historyLen
    requires LogAt(r, s.depth) == [] && s.shallow
    ensures Looks(r, s, increment) == [s.depth] + Looks(r, Deepen(s, increment), increment)
  {
  }

  function Last(ds: seq<nat>): nat
    requires ds != []
  {
    ds[|ds| - 1]
  }

  /** The loop looks first at the depth already fetched; every later look is
      `increment` deeper than the one before, and every look but the last
      found an empty log on a shallow clone. */
  lemma {:induction false} LooksSteps(r: Remote, s: CloneState, increment: nat)
    requires increment > 0 && Consistent(s) && s.historyLen == r.historyLen
    decreases r.historyLen + 1 - s.depth
    ensures var ds := Looks(r, s, increment);
      && ds != [] && ds[0] == s.depth
      && forall k :: 0 <= k < |ds| - 1 ==>
        && ds[k + 1] == ds[k] + increment
        && ds[k] <= r.historyLen
        && LogAt(r, ds[k]) == []
  {
    if LogAt(r, s.depth) == [] && s.shallow {
      var s' := Deepen(s, increment);
      LooksSteps(r, s', increment);
      ShiftedSteps(s.depth, Looks(r, s', increment), increment, r);
    }
  }

  lemma ShiftedSteps(d: nat, ds: seq<nat>, increment: nat, r: Remote)
    requires ds != [] && ds[0] == d + increment && d <= r.historyLen && LogAt(r, d) == []
    requires forall k :: 0 <= k < |ds| - 1 ==>
      ds[k + 1] == ds[k] + increment && ds[k] <= r.historyLen && LogAt(r, ds[k]) == []
    ensures var all := [d] + ds;
      forall k :: 0 <= k < |all| - 1 ==>
        all[k + 1] == all[k] + increment && all[k] <= r.historyLen && LogAt(r, all[k]) == []
  {
    var all := [d] + ds;
    forall k | 0 <= k < |all| - 1
      ensures all[k + 1] == all[k] + increment && all[k] <= r.historyLen && LogAt(r, all[k]) == []
    {
      if k > 0 {
        assert all[k] == ds[k - 1] && all[k + 1] == ds[k];
      }
    }
  }

  /** The loop ends only on a non-empty log line or on a complete clone. */
  lemma {:induction false} LooksEnd(r: Remote, s: CloneState, increment: nat)
    requires increment > 0 && Consistent(s) && s.historyLen == r.historyLen
    decreases r.historyLen + 1 - s.depth
    ensures var ds := Looks(r, s, increment);
      ds != [] && (LogAt(r, Last(ds)) != [] || Last(ds) > r.historyLen)
  {
    if LogAt(r, s.depth) == [] && s.shallow {
      var s' := Deepen(s, increment);
      LooksEnd(r, s', increment);
      var ds' := Looks(r, s', increment);
      assert Last([s.depth] + ds') == Last(ds');
    }
  }

  /** `get_latest_snapshots_from_git(git_dir, branch, increment, initial)`:
      fetch `initial + increment` commits, then look and deepen until a
      commit is found or the clone is complete. `depths` records the depth
      of the clone at each `git log`. */
  method GetLatestSnapshotsFromGit(remote: Remote, increment: nat := DefaultIncrement, initial: nat := DefaultInitial)
    returns (result: Result<seq<Version>, GitError>, depths: seq<nat>)
    requires increment > 0
    ensures depths == Looks(remote, FetchWithDepth(remote.historyLen, initial + increment), increment)
    ensures depths[0] == initial + increment
    ensures result == Verdict(remote, Last(depths))
    ensures result.Success? ==> |result.value| <= 1
  {
    var s := FetchWithDepth(remote.historyLen, initial + increment);
    ghost var whole := Looks(remote, s, increment);
    assert whole[0] == s.depth;
    depths := [];
    while true
      invariant Consistent(s) && s.historyLen == remote.historyLen
      invariant whole == depths + Looks(remote, s, increment)
      decreases remote.historyLen + 1 - s.depth
    {
      ghost var before := depths;
      depths := depths + [s.depth];
      var stop;
      stop, result := LookOnce(remote, s);
      if stop {
        LastLook(remote, s, increment, before, whole);
        return;
      }
      NextLook(remote, s, increment, before, whole);
      s := Deepen(s, increment);
    }
  }

  /** The loop's bookkeeping when it stops at `s`: the depths recorded so far
      are all the looks, and `s` was the last. */
  lemma LastLook(r: Remote, s: CloneState, increment: nat, before: seq<nat>, whole: seq<nat>)
    requires increment > 0 && Consistent(s) && s.historyLen == r.historyLen
    requires whole == before + Looks(r, s, increment)
    requires LogAt(r, s.depth) != [] || !s.shallow
    ensures whole == before + [s.depth] && Last(before + [s.depth]) == s.depth
  {
    LooksStopAt(r, s, increment);
  }

  /** The loop's bookkeeping when it deepens at `s`: the looks still to come
      are those after deepening, and the clone grows. */
  lemma NextLook(r: Remote, s: CloneState, increment: nat, before: seq<nat>, whole: seq<nat>)
    requires increment > 0 && Consistent(s) && s.historyLen == r.historyLen
    requires whole == before + Looks(r, s, increment)
    requires LogAt(r, s.depth) == [] && s.shallow
    ensures whole == (before + [s.depth]) + Looks(r, Deepen(s, increment), increment)
    ensures r.historyLen + 1 - Deepen(s, increment).depth < r.historyLen + 1 - s.depth
  {
    LooksGoOn(r, s, increment);
    var rest := Looks(r, Deepen(s, increment), increment);
    assert before + ([s.depth] + rest) == (before + [s.depth]) + rest;
  }

  /** One round of the loop before deepening: `git log`, and when it prints
      nothing, `git rev-parse --is-shallow-repository`. It stops on a log
      line or on a complete clone, with what the loop then returns. */
  method LookOnce(remote: Remote, s: CloneState) returns (stop: bool, result: Result<seq<Version>, GitError>)
    requires Consistent(s) && s.historyLen == remote.historyLen
    ensures stop <==> LogAt(remote, s.depth) != [] || !s.shallow
    ensures stop ==> result == Verdict(remote, s.depth)
  {
    var line := Strip(remote.log(s));
    assert s == FetchWithDepth(remote.historyLen, s.depth);
    if line != [] {
      return true, Listify(SnapshotFromLog(line));
    }
    var shallow := Strip(IsShallowOutput(s));
    ShallowOutputStripped(s);
    if shallow == "false" {
      return true, Success([]);
    }
    return false, Success([]);
  }

  /** `fetch_git_snapshots`: the loop with the default depths on the remote
      branch; the temporary directory and `git init`/`git remote add` are
      not modelled. It returns at most one version. */
  function FetchGitSnapshots(remote: Remote): (r: Result<seq<Version>, GitError>)
    ensures r.Success? ==> |r.value| <= 1
  {
    var s := FetchWithDepth(remote.historyLen, DefaultInitial + DefaultIncrement);
    LooksSteps(remote, s, DefaultIncrement);
    Verdict(remote, Last(Looks(remote, s, DefaultIncrement)))
  }

  /** No version from the loop means the last look was past the history's
      length, where the clone is complete, and the log was still empty. */
  lemma NothingFoundMeansComplete(remote: Remote)
    requires FetchGitSnapshots(remote) == Success([])
    ensures var ds := Looks(remote, FetchWithDepth(remote.historyLen, DefaultInitial + DefaultIncrement), DefaultIncrement);
      ds != [] && Last(ds) > remote.historyLen && LogAt(remote, Last(ds)) == []
  {
    var s := FetchWithDepth(remote.historyLen, DefaultInitial + DefaultIncrement);
    LooksSteps(remote, s, DefaultIncrement);
    LooksEnd(remote, s, DefaultIncrement);
  }

  // ---- a remote backed by a real commit history ----

  datatype Commit = Commit(date: string, hash: string)

  /** A branch whose commits are `history`, oldest first: once anything has
      been fetched, `git log` prints the tip. */
  function RemoteOf(history: seq<Commit>): Remote {
    Remote(|history|, (s: CloneState) =>
      if s.depth > 0 && |history| > 0 then LogLine(history[|history| - 1].date, history[|history| - 1].hash) else "")
  }

  /** The log line of such a branch once `depth` commits are fetched. */
  lemma LogAtRemoteOf(history: seq<Commit>, depth: nat)
    requires history != [] && depth > 0
    requires IsWord(history[|history| - 1].date) && IsWord(history[|history| - 1].hash)
    ensures var tip := history[|history| - 1];
      LogAt(RemoteOf(history), depth) == tip.date + " " + tip.hash
  {
    var tip := history[|history| - 1];
    assert RemoteOf(history).log(FetchWithDepth(|history|, depth)) == LogLine(tip.date, tip.hash);
    StripLogLine(tip.date, tip.hash);
  }

  /** On such a branch the first look finds the tip: one fetch, and the
      snapshot carries the tip's date and hash. */
  lemma TipFoundInOneRound(history: seq<Commit>, increment: nat, initial: nat)
    requires increment > 0 && history != []
    requires IsWord(history[|history| - 1].date) && IsWord(history[|history| - 1].hash)
    ensures var tip := history[|history| - 1];
      var d := initial + increment;
      && Looks(RemoteOf(history), FetchWithDepth(|history|, d), increment) == [d]
      && Verdict(RemoteOf(history), d) == Success([Version(SnapshotPrefix + tip.date, None, Some(tip.hash))])
  {
    var tip := history[|history| - 1];
    LogAtRemoteOf(history, initial + increment);
    SplitOnceOfJoined(tip.date, " ", tip.hash);
  }

  /** `fetch_git_snapshots` on such a branch returns the tip's snapshot. */
  lemma FetchTip(history: seq<Commit>)
    requires history != []
    requires IsWord(history[|history| - 1].date) && IsWord(history[|history| - 1].hash)
    ensures var tip := history[|history| - 1];
      FetchGitSnapshots(RemoteOf(history)) == Success([Version(SnapshotPrefix + tip.date, None, Some(tip.hash))])
  {
    TipFoundInOneRound(history, DefaultIncrement, DefaultInitial);
  }

  /** An empty branch yields no version after a single look. */
  lemma EmptyHistoryYieldsNothing(increment: nat, initial: nat)
    requires increment > 0
    ensures Looks(RemoteOf([]), FetchWithDepth(0, initial + increment), increment) == [initial + increment]
    ensures Verdict(RemoteOf([]), initial + increment) == Success([])
  {
    var s := FetchWithDepth(0, initial + increment);
    assert RemoteOf([]).log(s) == "";
    assert LogAt(RemoteOf([]), s.depth) == [];
  }

  /** When the log stays empty until `visible` commits are fetched and the
      first window is smaller, the loop deepens at least once and stops at
      the first depth reaching `visible`. */
  lemma DeepensUntilLogAppears(r: Remote, s: CloneState, increment: nat, visible: nat)
    requires increment > 0 && Consistent(s) && s.historyLen == r.historyLen
    requires visible <= r.historyLen && s.depth < visible
    requires forall d: nat :: LogAt(r, d) == [] <==> d < visible
    ensures var ds := Looks(r, s, increment);
      && |ds| >= 2
      && visible <= Last(ds) < visible + increment
  {
    LooksSteps(r, s, increment);
    LooksEnd(r, s, increment);
    var ds := Looks(r, s, increment);
    var n := |ds|;
    assert LogAt(r, Last(ds)) != [];
    assert n >= 2;
    assert ds[n - 2] < visible;
  }
}
