# nix-update version resolution, in Dafny

This project models how nix-update works out the latest version of a package and how it writes that version into the package's file. It has three parts:

- **Stable resolution** (`fetch_latest_version`):
  - Seven ecosystem fetchers are asked in a fixed order: crates.io, PyPI, GitHub, GitLab, RubyGems, Savannah, sourcehut.
  - The user's pattern extracts a version from each candidate, or the candidate is filtered out.
  - Under the stable preference, a candidate is held back as unstable if its prerelease flag says so. Without a flag, it is held back if its text contains `rc`, `alpha`, `beta`, `preview`, `nightly` or `m` followed by digits, ignoring case.
  - The first fetcher that keeps a candidate decides the result. Otherwise one of three errors is raised, in this order: the no-match error listing the filtered versions, the error naming the first unstable version, and the unsupported-source error.
- **Branch snapshots** (`fetch_latest_branch`):
  - The GitHub and GitLab commit feeds are tried in turn.
  - A feed may retarget the lookup to another URL with `FetchGitFallback`.
  - After the feeds, the git fallback runs, `get_latest_snapshots_from_git`. It makes a shallow clone of `initial + increment` commits and reads the newest commit with `git log`. While nothing is found and `git rev-parse --is-shallow-repository` does not print `false`, it deepens the clone by `increment` and looks again.
- **Patching** (`update_version`, `to_sri`, `replace_hash`):
  - `update_version` drops one leading `v` from the new version. If the result differs from the old version, it replaces every occurrence of the old version on every line.
  - `to_sri` guesses the hash algorithm from the hash's length.
  - `replace_hash` rewrites the file only when the two hashes differ once both are in SRI form.

The network, git, `nix` and the regular-expression engine are all parameters:

- `Upstream` says what each fetcher returns, or raises, for a URL. It also gives the remote branch the git fallback sees.
- A `Remote` is the length of a branch's history plus the output `git log` prints for each state of the local clone.
- `historyLen` is the number of commits of a linear branch history. Git reports a clone as shallow until its depth exceeds that number: at a depth equal to it, the root commit is still recorded as a shallow boundary. Each deepen round brings the depth closer to that bound, which is what makes the deepen loop terminate.

Files:

- `wrappers.dfy`: `Option` and `Result`.
- `text.dfy`: the Python string operations the code relies on: `strip`, `split(maxsplit=1)`, `rstrip("\n")`, `replace` and `join`. `split(sep)`, which the code does not call, is defined as a reference for `replace` and `join`.
- `versions.dfy`: `Version`, `extract_version` and `is_unstable`.
- `git.dfy`: the deepen loop and `fetch_git_snapshots`.
- `resolver.dfy`: `fetch_latest_version` and `fetch_latest_branch`.
- `patching.dfy`: the three helpers of `update.py`.
- `scenarios.dfy`: the repository's branch tests and a few small examples, stated as lemmas.

Three behaviours of the code are worth stating plainly:

- The stable scan moves on to the next fetcher when every candidate of a fetcher was filtered out or held back as unstable, because it only returns when `final` is non-empty (`KeptCandidateSucceeds`, `SuccessIsFirstKept`).
- The `try` block wraps the whole loop over the feeds, so a retarget skips the remaining feeds and only git gets the new URL (`RetargetSkipsRemainingFeeds`).
- A branch on which git finds no commit raises "Cannot find a git commit for B in U." (`NoCommitFound`), naming the URL git was given (`GitAnswerIsResult`).

## Model

| member | source | states |
|---|---|---|
| Versions.MatchAll | nix_update/version/__init__.py:42-45 | The pattern `(.*)` always matches. Its group contains no newline, is a prefix of the text, and stops only at the end of the text or at a newline. |
| Versions.ExtractVersion | nix_update/version/__init__.py:41-48 | No version comes back exactly when the pattern does not match or its group did not take part. Otherwise the number is the group, and the prerelease flag and revision are carried over. |
| Versions.ExtractAllIsIdentity | nix_update/version/__init__.py:41-48 | With `(.*)`, a version whose number has no newline is extracted unchanged. |
| Versions.SearchUnstable | nix_update/version/__init__.py:54-55 | The left-to-right search succeeds exactly when one of the unstable alternatives matches at some index. |
| Versions.UnstableIgnoresAsciiCase | nix_update/version/__init__.py:54-55 | Two extracted texts that agree character by character up to ASCII case are both unstable or both not. |
| Versions.IsUnstable | nix_update/version/__init__.py:51-55 | An explicit prerelease flag is the answer. Without one, the answer is whether the lower-cased extracted text contains an unstable token. |
| Text.IsSpace | nix_update/version/git.py:61-63 | The whitespace set of `str.isspace`, which `strip()` and `split()` use. `StripSurrounded`, `SplitOnceOfJoined` and `SplitOnceJoins` state what the two calls do with it. |
| Text.Strip | nix_update/version/git.py:61 | The result is no longer than the input and neither starts nor ends with whitespace. It is empty exactly when the input is all whitespace. |
| Text.StripSurrounded | nix_update/version/git.py:61 | Stripping whitespace from around a text that starts and ends with non-whitespace gives back exactly that text. |
| Text.SplitOnce | nix_update/version/git.py:63 | At most two parts. No parts exactly when the text is all whitespace. The first part is a word, and a second part starts with non-whitespace. |
| Text.SplitOnceJoins | nix_update/version/git.py:63 | When the split gives two parts, the stripped text is the first part, a non-empty whitespace gap and the second part. |
| Text.SplitOnceOfJoined | nix_update/version/git.py:63 | A word, a whitespace gap and a rest split back into the word and the rest. |
| Text.StripNewlines | nix_update/update.py:53 | The result is a prefix of the input. Only newlines were removed, and the result does not end with one. |
| Text.Join | nix_update/version/__init__.py:112 | `sep.join(pieces)`. `SplitJoin` and `JoinSplit` show it inverts splitting on the separator, in both directions. |
| Text.SplitJoin | nix_update/version/__init__.py:110-113 | Pieces without the one-character separator, once joined with it, split back into the same pieces. |
| Text.JoinSplit | nix_update/update.py:24 | Splitting on a separator and joining with it gives back the text. |
| Text.SplitPiecesAvoidSep | nix_update/update.py:24 | No piece of a split contains the separator. |
| Text.ReplaceIsJoinOfSplit | nix_update/update.py:24 | For a non-empty pattern, `replace` equals joining the split pieces with the replacement. |
| Text.Replace | nix_update/update.py:24 | `str.replace`. `ReplaceIsJoinOfSplit` shows it equals joining the split pieces with the replacement, `InterleaveIsFramedJoin` covers the empty pattern, and `ReplaceWithoutOccurrence` and `ReplaceByItself` give its identities. |
| Text.ReplaceWithoutOccurrence | nix_update/update.py:24 | `replace` leaves a text without the pattern unchanged. |
| Text.InterleaveIsFramedJoin | nix_update/update.py:24 | Replacing the empty pattern puts the replacement before, between and after all characters. |
| Text.ReplaceByItself | nix_update/update.py:20-24 | Replacing a pattern by itself is the identity. |
| Git.ShallowOutputStripped | nix_update/version/git.py:65-71 | The stripped output of `rev-parse --is-shallow-repository` equals `false` exactly when the clone is complete. |
| Git.SnapshotFromLog | nix_update/version/git.py:62-64 | A stripped log line that is a single word makes the unpacking fail, carrying that line. Otherwise the result is `unstable-` plus a word, with a revision that starts with non-whitespace and no prerelease flag. |
| Git.SnapshotFromLogJoins | nix_update/version/git.py:62-64 | A successful read is exact: the line is the date word, a non-empty whitespace gap and the revision. |
| Git.SnapshotFromJoined | nix_update/version/git.py:62-64 | Conversely, a date word, any non-empty whitespace and a revision read back as the snapshot of that date with that revision. |
| Git.SplitOnceOfStripped | nix_update/version/git.py:62-63 | A stripped non-empty line splits into two parts exactly when it is not a single word. |
| Git.LogLineRoundTrip | nix_update/version/git.py:49-64 | The line `git log --format='%cd %H'` prints for a date and a hash strips to `date hash`, which reads back as the snapshot `unstable-date` with that hash. |
| Git.LogAt | nix_update/version/git.py:49-61 | The stripped log line is empty or starts and ends with non-whitespace. |
| Git.Verdict | nix_update/version/git.py:62-71 | The loop's result holds at most one version. It is the empty list exactly when the last log line was empty. |
| Git.Looks | nix_update/version/git.py:48-83 | The depths at which the loop reads `git log`. `LooksSteps` and `LooksEnd` state their shape: they start at the fetched depth, step by `increment` through empty looks on a shallow clone, and end at a log line or the whole history. |
| Git.CompleteOnlyPastHistory | nix_update/version/git.py:65-71 | A clone fetched to exactly the history's length still reads as shallow in `rev-parse`. One commit deeper, it reads as complete. |
| Git.LooksSteps | nix_update/version/git.py:48-83 | The first look is at the fetched depth and each later one is `increment` deeper. Every look but the last saw an empty log on a shallow clone. |
| Git.LooksEnd | nix_update/version/git.py:62-71 | The last look found a log line, or was at a depth beyond the history, where git reports the clone complete. |
| Git.GetLatestSnapshotsFromGit | nix_update/version/git.py:25-83 | The loop first looks at `initial + increment` commits and then at exactly the depths `Looks` gives. It returns the verdict of the last look, with at most one version. |
| Git.LookOnce | nix_update/version/git.py:49-71 | One round of the loop, with the `rev-parse` string comparison. It stops exactly when the log is non-empty or the clone is complete, and then returns the verdict. |
| Git.FetchGitSnapshots | nix_update/version/git.py:86-89 | `fetch_git_snapshots` returns at most one version. |
| Git.NothingFoundMeansComplete | nix_update/version/git.py:65-71 | No version means the last look was at a depth beyond the history, so the clone was complete, and the log was still empty. |
| Git.LogAtRemoteOf | nix_update/version/git.py:49-61 | On a branch with a real history, the stripped log line is the tip's date and hash once anything is fetched. |
| Git.TipFoundInOneRound | nix_update/version/git.py:35-64 | On such a branch the first look finds the tip, with no deepening, and yields the tip's snapshot. |
| Git.FetchTip | nix_update/version/git.py:86-89 | `fetch_git_snapshots` on such a branch returns the tip's snapshot. |
| Git.EmptyHistoryYieldsNothing | nix_update/version/git.py:62-71 | An empty branch yields no version after one look. |
| Git.DeepensUntilLogAppears | nix_update/version/git.py:48-83 | When the log stays empty below `visible` commits and the first window is smaller, the loop deepens at least once. It stops at the first depth that reaches `visible`, less than `increment` beyond it. |
| Resolver.FirstRaise | nix_update/version/__init__.py:91-92 | Every fetcher before the returned position returned a list, and the fetcher at that position raised. |
| Resolver.NoMatchMessageListsFound | nix_update/version/__init__.py:109-113 | The no-match message starts with its header and lists the found versions one per line, so they can be read back. |
| Resolver.Judge | nix_update/version/__init__.py:97-105 | The list the inner loop puts one candidate into. `StableKeepsOnlyStable` and `OtherPreferenceKeepsEveryMatch` state what each preference keeps, and `TallyOne` ties it to the reference lists. |
| Resolver.Message | nix_update/version/__init__.py:76-122 | The texts of the four version errors. `NoMatchMessageListsFound` shows the no-match text reads back as the found versions. |
| Resolver.StableKeepsOnlyStable | nix_update/version/__init__.py:96-105 | Under the stable preference, a kept candidate is its own extraction and is not unstable. |
| Resolver.OtherPreferenceKeepsEveryMatch | nix_update/version/__init__.py:100-105 | Under any other preference, a candidate is kept exactly when the pattern extracts it, and none is held back. |
| Resolver.TallyOf | nix_update/version/__init__.py:95-105 | The three lists after the inner loop has judged each candidate in turn. `TallyIsPartition` shows each list equals an independent filter over the candidates, and `TallyAppend` shows the lists of consecutive runs concatenate. |
| Resolver.TallyAppend | nix_update/version/__init__.py:89-105 | Judging two runs of candidates in turn appends their three lists. |
| Resolver.FinalHeadIsFirstKept | nix_update/version/__init__.py:95-107 | `final` is empty exactly when no candidate is kept. Otherwise its head is the extraction of the first kept candidate. |
| Resolver.TallyCounts | nix_update/version/__init__.py:96-105 | The three lists together hold as many entries as there are candidates. Which list each candidate lands in is stated by `TallyIsPartition`. |
| Resolver.TallyIsPartition | nix_update/version/__init__.py:96-105 | `filtered` is the raw numbers of exactly the candidates the pattern rejects, `unstable` the extracted numbers of exactly those held back, and `final` the extractions of all others, each in candidate order. |
| Resolver.TallyOne | nix_update/version/__init__.py:97-105 | One candidate goes to exactly the list the three branches of the inner loop choose for it. |
| Resolver.UnstableHeadIsFirstHeld | nix_update/version/__init__.py:100-103 | `unstable` is empty exactly when no candidate is held back. Otherwise its head is the extracted number of the first candidate held back. |
| Resolver.Expected | nix_update/version/__init__.py:89-122 | The outcome of the stable scan. `ScanFetchers` proves the loops compute it. `SuccessIsFirstKept`, `KeptCandidateSucceeds`, `NoMatchListsRejected`, `UnstableNamesFirstHeld` and `UnsupportedIffAllEmpty` state what each outcome means. |
| Resolver.FetchLatestVersion | nix_update/version/__init__.py:79-122 | The branch preference gives the branch resolution. Any other preference gives the outcome of the stable scan over the fetchers' responses. |
| Resolver.ScanFetchers | nix_update/version/__init__.py:89-122 | The loop over the fetchers and the three errors after it give exactly the `Expected` outcome. |
| Resolver.SortListing | nix_update/version/__init__.py:95-105 | The inner loop appends the judgement of each candidate of one fetcher to the lists. |
| Resolver.NextPool | nix_update/version/__init__.py:89-105 | The lists after fetcher `i` are those before it plus that fetcher's own. |
| Resolver.StopsAtKept | nix_update/version/__init__.py:106-107 | Once earlier fetchers kept a version, later fetchers do not change which version is returned. |
| Resolver.SuccessIsFirstKept | nix_update/version/__init__.py:91-107 | A successful outcome is the extraction of the first candidate, over all fetchers in order, that the judgement keeps. |
| Resolver.KeptCandidateSucceeds | nix_update/version/__init__.py:91-107 | If any candidate before the first raise is kept, the outcome is a success. A fetcher whose candidates are all ineligible does not end the scan. |
| Resolver.StableResultIsStable | nix_update/version/__init__.py:100-107 | Under the stable preference the returned version is the extraction of a pooled candidate that is not unstable. |
| Resolver.NoneHeldUnlessStable | nix_update/version/__init__.py:100-103 | Under any other preference the unstable list stays empty. |
| Resolver.NeverUnstableIgnoredUnlessStable | nix_update/version/__init__.py:115-118 | Under any other preference the unstable-version error never occurs. |
| Resolver.NoMatchListsRejected | nix_update/version/__init__.py:89-113 | The no-match error comes only when every fetcher answered and none kept a version, and it lists the raw numbers of exactly the rejected candidates, in fetcher order. |
| Resolver.UnstableNamesFirstHeld | nix_update/version/__init__.py:89-118 | The unstable-version error comes only when no candidate was kept or rejected, and it names the first candidate held back. |
| Resolver.FilteredWinsOverUnstable | nix_update/version/__init__.py:109-118 | With no raise and no kept version, a non-empty filtered list gives the no-match error, whatever the unstable list holds. |
| Resolver.EmptyListingSkipped | nix_update/version/__init__.py:93-94 | A fetcher that returns nothing is skipped: inserting one anywhere leaves the outcome unchanged. |
| Resolver.UnsupportedIffAllEmpty | nix_update/version/__init__.py:120-122 | The unsupported-source error comes exactly when every fetcher returns nothing. |
| Resolver.FetchLatestBranch | nix_update/version/__init__.py:58-76 | The missing-branch failure comes exactly when no branch is given. No feed or git outcome produces it. |
| Resolver.FromGit | nix_update/version/__init__.py:72-76 | When git finds no commit the result is the missing-commit error naming the branch and the URL git was given. When it finds some, the result is the first. A git failure is passed on. |
| Resolver.TrySnapshots | nix_update/version/__init__.py:64-71 | The `try` block over the feeds. `ChainStopsAt` and `ChainExhausted` state where it stops and what it yields. |
| Resolver.AfterSnapshots | nix_update/version/__init__.py:69-76 | What follows the `try` block. `GitAnswerIsResult` states how git's answer becomes the result at the original URL or at a feed's retarget. |
| Resolver.FeedShortCircuits | nix_update/version/__init__.py:65-68 | A non-empty GitHub feed gives its first snapshot, whatever git would do. |
| Resolver.ChainStopsAt | nix_update/version/__init__.py:64-70 | The first feed that returns snapshots, retargets or raises, after feeds that returned nothing, ends the chain. Later feeds are not asked. |
| Resolver.ChainExhausted | nix_update/version/__init__.py:65-68 | When every feed returns nothing, the chain finds nothing. |
| Resolver.RetargetGoesToGit | nix_update/version/__init__.py:69-72 | A retarget from the GitLab feed, after an empty GitHub feed, sends git to the new URL. |
| Resolver.RetargetSkipsRemainingFeeds | nix_update/version/__init__.py:64-72 | A retarget from the GitHub feed sends git to the new URL without asking the GitLab feed. |
| Resolver.SecondFeedRetargets | nix_update/version/__init__.py:64-70 | A retarget from the GitLab feed after an empty GitHub feed ends the chain with that URL. |
| Resolver.EmptyFeedsGoToGit | nix_update/version/__init__.py:65-72 | When both feeds return nothing, git is asked with the original URL. |
| Resolver.GitAnswerIsResult | nix_update/version/__init__.py:64-76 | Whenever git is asked, at the original URL after two empty feeds or at a feed's retarget: no commit gives the missing-commit error naming the branch and that URL, and otherwise the first snapshot git finds is the result. |
| Resolver.NoCommitFoundNamesGitTarget | nix_update/version/__init__.py:64-76 | The missing-commit error names the branch and either the original URL or a feed's retarget, and git found nothing at that URL. |
| Patching.StripLeadingV | nix_update/update.py:17-18 | A leading `v` is removed, and only that one. Any other text is kept as it is. |
| Patching.StripsExactlyOne | nix_update/update.py:17-18 | Stripping `v` + x gives x, even when x starts with `v`. |
| Patching.UpdateVersion | nix_update/update.py:13-26 | A missing new version fails the assertion. The file is untouched exactly when the old version equals the stripped new one. A rewrite keeps the number of lines. |
| Patching.GuardSkipsOnlyNoOp | nix_update/update.py:20-24 | When the guard skips the rewrite, the rewrite would have changed no line. |
| Patching.RewrittenLine | nix_update/update.py:22-24 | A rewritten line is the line's pieces between occurrences of the old version, glued with the new one. The pieces rebuild the old line, and none contains the old version. |
| Patching.LineWithoutVersionKept | nix_update/update.py:22-24 | A line without the old version is written back unchanged. |
| Patching.EmptyOldVersionInterleaves | nix_update/update.py:24 | An empty old version puts the new version before, between and after all characters of a line. |
| Patching.AlgoForLength | nix_update/update.py:32-43 | The length table of `to_sri`. `LengthTableMatchesDigests` and `KnownLengthsAreDigestLengths` check it against the hex and base-32 lengths of each digest. |
| Patching.LengthTableMatchesDigests | nix_update/update.py:32-43 | The table recognises the hex form of every algorithm and the base-32 form of SHA-256 and SHA-512. A base-32 SHA-1 hash is read as MD5, and a base-32 MD5 hash is not recognised. |
| Patching.KnownLengthsAreDigestLengths | nix_update/update.py:32-43 | Every length the table knows is the hex or base-32 length of the algorithm it picks. |
| Patching.Prefix | nix_update/update.py:33-41 | The algorithm prefix that `to_sri` puts before the hash. `ToSri` and `ToSriCallsNixOnlyForKnownLengths` show `nix` is asked with it, and `LengthTableMatchesDigests` ties each algorithm to its lengths. |
| Patching.ToSri | nix_update/update.py:29-53 | A hash with a dash, or of an unknown length, is returned unchanged. Any other hash becomes the output of `nix to-sri` on the prefixed hash, minus its trailing newlines. |
| Patching.ToSriCallsNixOnlyForKnownLengths | nix_update/update.py:29-53 | Only a dash-free hash of a known length reaches `nix`, asked with the algorithm's prefix. |
| Patching.ToSriIdempotent | nix_update/update.py:29-53 | When `nix` answers in SRI form, normalising twice equals normalising once. |
| Patching.DashSurvivesStrip | nix_update/update.py:53 | Removing trailing newlines keeps a dash. |
| Patching.ReplaceHash | nix_update/update.py:56-62 | The file is untouched exactly when both hashes normalise to the same value. A rewrite keeps the number of lines. |
| Patching.SriTargetWrittenVerbatim | nix_update/update.py:56-62 | An SRI target is substituted as given. It leaves the file alone when the current hash normalises to it. |
| Patching.SameHashUntouched | nix_update/update.py:56-58 | Replacing a hash by itself never rewrites the file. |
| Scenarios.FixtureBranchResolves | tests/test_branch_git.py:58-92 | On the test repository, with no feed for a file URL, a branch resolves through git to the snapshot of its tip. |
| Scenarios.MasterResolves | tests/test_branch_git.py:80-85 | `master` resolves to `unstable-2038-01-19`. |
| Scenarios.ShortResolves | tests/test_branch_git.py:87-92 | `short` resolves to `unstable-1970-01-02`. |
| Scenarios.FeedWithoutGit | tests/test_branch_github.py:91-104 | A GitHub feed with the tip of `short` gives `unstable-1970-01-02` for every remote, so git is not needed. |
| Scenarios.CandidateIsUnstable | nix_update/version/__init__.py:54-55 | `2.0.0-rc1` is unstable. |
| Scenarios.ReleaseIsStable | nix_update/version/__init__.py:54-55 | `1.9.0` is not unstable. |
| Scenarios.StablePicksRelease | nix_update/version/__init__.py:96-107 | Under the stable preference, a PyPI listing `2.0.0-rc1, 1.9.0` gives `1.9.0`. |
| Scenarios.UnstablePicksCandidate | nix_update/version/__init__.py:96-107 | Under the unstable preference the same listing gives `2.0.0-rc1`. |
| Scenarios.FilterMismatchListsRaw | nix_update/version/__init__.py:97-113 | A pattern that matches nothing gives the no-match error listing both raw versions in order. |
| Scenarios.BumpVersionLine | nix_update/update.py:17-24 | Bumping `1.0` to `v1.1` rewrites only the version line, to `1.1`. |
| Scenarios.SameVersionUntouched | nix_update/update.py:17-26 | The tag `v1.0` over the old version `1.0` leaves the file alone. |

## Left out

- The ecosystem and feed fetchers (`crate`, `pypi`, `github`, `gitlab`, `rubygems`, `savannah`, `sourcehut`): they are HTTP clients, and they are not part of this model. What they return or raise is a parameter (`Upstream`).
- The regular-expression engine: the user's pattern and `re.sub` are parameters (`Matcher`, `Substitution`). `(.*)` is the only pattern modelled concretely. The unstable pattern is modelled as a literal search for its alternatives. A pattern that fails to compile, or one without a group, which makes `group(1)` raise, is not modelled.
- `urlparse` and `urlunparse` are the identity on URL strings.
- `init_git`, `TemporaryDirectory`, the `git` subprocesses, `TZ=UTC` and the date formatting: `Remote` gives the output of `git log` for each state of the clone.
- A failing `git` or `nix` command, which `run` and `check=True` turn into an exception: not modelled.
- `fileinput` and the `info` logging: a file is the sequence of its lines, and the result says whether and how it is rewritten.
- The rest of `update.py` (`nix_prefetch`, `update`, and so on) and `version.py`: not part of this model. Only the three preferences `stable`, `unstable` and `branch` are modelled.
- Versions.IsUnstable: folds ASCII case only. Under `re.IGNORECASE` Python also matches the dotless `ı` (U+0131) and the dotted `İ` (U+0130) to the pattern's `i`, so `prevıew` is unstable in the source but not in the model.
- Git.GetLatestSnapshotsFromGit: requires `increment > 0`. With an increment of 0 the source deepens by nothing and loops forever on a history with no visible commit.
- Git.Looks: requires `increment > 0` for the same reason. It reads the clone's shallow flag instead of comparing the `rev-parse` output with `false`. `ShallowOutputStripped` proves the two agree, and `LookOnce` keeps the comparison.
- Git.Consistent: the clone is assumed to be shallow exactly while its depth is at most the number of commits of the history, as git reports it for a linear history. A history with merges, where the depth that completes a clone is not the number of commits, is not modelled.
