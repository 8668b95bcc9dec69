# A verified model of chitta's Python kernels

chitta is a memory service for coding agents. Around its daemon sits a layer of Python that makes small but
delicate decisions: which bytes of a growing transcript a hook still has to read, which HTTP session is evicted,
whether a series of failing commands is one problem or two, whether a memory has earned credit, how ranked lists
are fused, which session may be resumed, and how hook files are merged and unmerged. This project models those
kernels in Dafny and proves what they are for. Input and output, clocks, parsing, `sqrt` and `log` are parameters;
everything that decides is modelled branch by branch.

The main results:

* **Session table.** The table is a step system: one lock, tasks with program counters, lookups without the lock,
  removals suspended in `terminate()`, sessions closed or deleted behind the table's back, cancellations. In every
  interleaving the table stays within `max_sessions`, every session has a stamp, and created = active + expired +
  evicted + otherwise removed, with no session counted twice (`RunSafe`, `RunConserves`). A stamp is the time of the
  last touch, an evicted session is the one touched longest ago, a sweep expires exactly the sessions last touched
  more than the idle limit before it began, an admission takes a bounded number of steps with at most one eviction,
  and can always complete (`StampIsLastTouch`, `EvictsLeastRecent`, `ExpiredIff`, `AdmissionBounded`,
  `AdmissionCompletes`).
* **Stop hook.** Over all runs of appends, replaced transcripts, snapshots (with growth between the stat and the
  read), failed snapshots, commits in any order and lost cursors, no line is ever torn (`NeverTorn`). From a cursor on
  a record boundary, or from none, commits made in turn tile the file: every record is delivered once and in order,
  and the token usage is that of a single scan and the plain sum of what the delivered rows report (`ExactlyOnce`,
  `UsageOfOneScan`, `CursorAddsUp`); one snapshot and its commit catch up (`CaughtUp`). Commits in any other order
  deliver at least once (`AtLeastOnce`).
* **Saddles.** The groups of `open_saddle` stay pairwise unlike for any reflexive similarity, failures are conserved
  as multisets, and a saddle keeps its identity through any retries and other commands until a success clears it, so
  that checks after every row announce it once (`IdentityStable`, `RetriesAnnouncedOnce`). The episodes of
  `find_episodes` are sound, share no failure, and miss none (`EpisodesCollected`, `MissedFailure`).
* **Credit.** `compute_credit` equals a sum that mentions neither order nor sessions. The Wilson bound is the least
  rate the score test accepts; hence fewer than six observations never acknowledge a memory and a memory without
  failures is never nacked, all traced back to ledger events (`AckJustified`, `NackJustified`). Every listing of a
  memory counts as an injection (`InjectionsAreListings`), and both decisions have exact conditions without roots
  (`AckIff`, `NackIff`).
* **Ranking.** BM25 through postings refines a plain scan, reciprocal rank fusion respects dominance, ties come in
  order of first occurrence, which leaves one result (`MergeUnique`), the union of two lanes keeps both heads by a
  counting argument, and nDCG is one exactly for a perfect head.
* **Threads and resumption.** The cosine bound is Cauchy-Schwarz over finite maps; inference never touches a thread
  leased to another session. A resumed session is never current, live or leased away and wins by the margin; what
  makes it live is stated on the fields of its last registry row (`SelectedGone`, `RunningLocked`). `OrderFreeIff`
  says exactly when it depends on the order of the inventory.
* **Hook files.** Installing twice is installing once, and uninstalling after installing leaves exactly the foreign
  matchers that have hooks; `InstallPreservesIff` and `UninstallCleansIff` say exactly when nothing else is touched.

`dafny verify dfyconfig.toml` checks the whole project. `Prelude`, `Reals`, `Sums` and `ScoreDict` hold what the
modules share: stable sorting, real arithmetic, finite sums, and a dictionary of scores in insertion order.

## Where the code and its words differ

Each promise below is not kept by the code. For each there is an input that breaks it and the exact condition under
which it holds.

* A comment in `_read_window` says that a committed cursor always stands right after a newline. A snapshot of a long
  record that is not finished yet leaves it inside the record (`CursorInsideRecord`); `CommitAnchoredIff` says when it
  stands right. Nothing here assumes it.
* Message counts depend on where windows fall, token usage does not: the persisted counts exceed those of one scan by
  the number of windows that open with the text delivered last (`CountedTwice`, `CountsOfOneScan`).
* The documentation of `compute_credit` speaks of all exit codes being zero. The code ignores unknown exit codes and lets
  `likely_fail` overrule zeros (`VerdictNotAsDocumented`, `VerdictAsDocumentedIff`).
* The merge in `_install_codex` says that it preserves third-party hooks. One that shares a matcher with a chitta command
  is dropped (`SharedHookDropped`, `InstallPreservesIff`).
* `_uninstall_codex` does not set `changed` when a matcher loses some but not all of its hooks, so a chitta command that
  shares a matcher survives unless something else changes (`SharedMatcherSurvives`, `UninstallCleansIff`).
* With a margin of zero or less the order of the inventory can decide between equal candidates (`TieDependsOnOrder`).
  `OrderFreeIff` says when: the two must come from the same source, because transcripts are merged before the ledger
  and the ledger before the registry, whatever the order within each (`TieAcrossSources`).
* A comment in `open_saddle` says that another retry does not change the ID, other commands interleaved. That holds
  for the rows (`IdentityStable`), but the time window also drops rows, and then the identity changes exactly if the
  first failure that is left has another time (`SaddleRenamed`, `WindowMoves`).

## Model

| member | source | states |
|---|---|---|
| SessionTable.HttpSessionTable.constructor | chitta-mcp/mcp_transport.py:24-31 | a new table is empty, with the owners map it was given |
| SessionTable.HttpSessionTable.SetItem | chitta-mcp/mcp_transport.py:33-36 | the whole new state: session stored, stamped, counted |
| SessionTable.HttpSessionTable.GetItem | chitta-mcp/mcp_transport.py:38-41 | a hit returns the transport and renews its stamp, a miss changes nothing |
| SessionTable.HttpSessionTable.Remove | chitta-mcp/mcp_transport.py:53-62 | session, stamp and owner go together; a counter moves only if there was a session |
| SessionTable.HttpSessionTable.ReapKey | chitta-mcp/mcp_transport.py:66-73 | one turn of the sweep |
| SessionTable.SweepExact | chitta-mcp/mcp_transport.py:64-73 | the key-by-key sweep equals its order-free description: exactly the dead keys go and each counter grows by its own idlers |
| SessionTable.HttpSessionTable.Reap | chitta-mcp/mcp_transport.py:64-77 | an undisturbed sweep leaves exactly the survivors of the whole table |
| SessionTable.HttpSessionTable.Oldest | chitta-mcp/mcp_transport.py:84 | `min` finds a session with the least stamp |
| SessionTable.EvictStep | chitta-mcp/mcp_transport.py:83-85 | evicting the oldest keeps: those gone are at least as stale as every one that stays |
| SessionTable.HttpSessionTable.Enter | chitta-mcp/mcp_transport.py:79-89 | undisturbed admission sweeps, then evicts the least recent and no more than needed; a bound of zero empties the table and admits nobody |
| SessionRuns.StartInv | chitta-mcp/mcp_transport.py:24-31 | the empty table satisfies the invariant |
| SessionRuns.NextMeta | chitta-mcp/mcp_transport.py:53-73 | every step keeps owner records under stamped keys, so a sweep reaches them |
| SessionRuns.NextClock | chitta-mcp/mcp_transport.py:33-41 | no stamp and no sampled sweep time is ever ahead of the clock |
| SessionRuns.NextExclusive | chitta-mcp/mcp_transport.py:75-92 | every step keeps: exactly the lock holder is inside the protocol |
| SessionRuns.NextBooks | chitta-mcp/mcp_transport.py:33-89 | every step changes sessions and counters by at most one arrival or departure |
| SessionRuns.NextBounded | chitta-mcp/mcp_transport.py:79-92 | every step keeps the bound, and an admitted task has a free slot until it inserts |
| SessionRuns.PostPlaced | chitta-mcp/mcp_transport.py:33-62 | no session is at two keys, and none that left is present or left twice |
| SessionRuns.PostBalanced | chitta-mcp/mcp_transport.py:33-62 | every arrival or departure keeps the counters equal to what they count |
| SessionRuns.NextInv | chitta-mcp/mcp_transport.py:33-92 | every step of every task and of the environment keeps the whole invariant |
| SessionRuns.RunInv | chitta-mcp/mcp_transport.py:33-92 | every run keeps the invariant |
| SessionRuns.RunSafe | chitta-mcp/mcp_transport.py:33-92 | in every run the table respects its bound, every session and owner has a stamp, and at most one task is inside |
| SessionRuns.RunConserves | chitta-mcp/mcp_transport.py:33-62 | in every run created = active + expired + evicted + otherwise removed; every issued session is in exactly one of them |
| SessionRuns.NextStamp | chitta-mcp/mcp_transport.py:33-41 | a step sets the stamp of the key it touches to now and leaves every other |
| SessionRuns.StampIsLastTouch | chitta-mcp/mcp_transport.py:33-41 | a session's stamp is the time of the last insert or lookup of its key in the run |
| SessionRuns.EvictsLeastRecent | chitta-mcp/mcp_transport.py:83-85 | whatever is evicted was last touched no later than any session present |
| SessionRuns.StaysSeen | chitta-mcp/mcp_transport.py:33-73 | over any run a session present since a time has a stamp from no earlier |
| SessionRuns.TouchedNotExpired | chitta-mcp/mcp_transport.py:64-73 | a session touched after a sweep read the clock is not expired by it, whatever happens while it is suspended |
| SessionExpiry.ExpiredIff | chitta-mcp/mcp_transport.py:64-73 | in every run: a session that a sweep visits is expired exactly if it was last touched more than the idle limit before the sweep began, and a terminated one is closed |
| SessionExpiry.SweepComplete | chitta-mcp/mcp_transport.py:64-77 | in every run: what was there when a sweep began and is there when it ends was last touched no more than the idle limit before it began |
| SessionExpiry.SweepPurpose | chitta-mcp/mcp_transport.py:75-89 | in every run: a task that took the lock only to sweep never evicts nor inserts, and one that took it to be admitted goes on to the eviction loop |
| SessionExpiry.HalfAnHour | chitta-mcp/mcp_transport.py:64-73 | with a limit of 1800 seconds a sweep at 1800 keeps a session of time 0 and one at 2000 expires it |
| SessionExpiry.ClosedGoes | chitta-mcp/mcp_transport.py:64-73 | a closed session goes with the next sweep |
| SessionExpiry.LookupKeeps | chitta-mcp/mcp_transport.py:38-41 | a lookup keeps a session for another half an hour |
| SessionExpiry.LeftoverGoes | chitta-mcp/mcp_transport.py:53-73 | the stamp and owner of a session deleted behind the table's back go with the next sweep, which counts nothing |
| SessionRuns.NoArrivals | chitta-mcp/mcp_transport.py:79-92 | the table does not grow while a task sweeps or evicts |
| SessionRuns.RankDrops | chitta-mcp/mcp_transport.py:66-85 | each step of the lock holder lowers a rank that no other step raises |
| SessionRuns.AdmissionBounded | chitta-mcp/mcp_transport.py:79-89 | the sweep and the eviction loop end within the rank in any interleaving, with at most one eviction |
| SessionRuns.HolderCanStep | chitta-mcp/mcp_transport.py:64-89 | no deadlock: the lock holder always has a step, and gives up only if the bound is zero |
| SessionRuns.AdmissionCompletes | chitta-mcp/mcp_transport.py:79-89 | from every reachable state a task on its way in can be admitted by its own steps alone |
| TranscriptWindow.SplitLinesConcat | hooks/stop-transcript-snapshot.py:198 | cutting right after a newline splits `splitlines()` in two |
| TranscriptWindow.SplitLinesExact | hooks/stop-transcript-snapshot.py:198 | no line holds a line end, and the lines with a line feed, a carriage return or both after each, but an unfinished last one, are the bytes |
| TranscriptWindow.AsksFor | hooks/stop-transcript-snapshot.py:166-176 | what is asked for is what the cursor leaves, or without one the bootstrap bound, cut to the increment bound |
| TranscriptWindow.AfterReadline | hooks/stop-transcript-snapshot.py:187-189 | `readline` ends after the first newline, or at the end of the file |
| TranscriptWindow.AfterLastNewline | hooks/stop-transcript-snapshot.py:193-197 | `rfind` leaves no newline behind the returned position |
| TranscriptWindow.WindowClean | hooks/stop-transcript-snapshot.py:166-197 | what is parsed starts and ends on record boundaries; resynchronising skips no more than the cut record, and no finished record stays in the tail |
| TranscriptWindow.NextAtBoundaryIff | hooks/stop-transcript-snapshot.py:172-197 | the next cursor is right after a newline exactly if the read starts on a boundary or some record ends at or after its start |
| TranscriptWindow.StartsAtZero | hooks/stop-transcript-snapshot.py:167-170 | a read starts at byte 0 exactly for a cursor at 0, or without a cursor in a file within the bootstrap bound |
| TranscriptWindow.WindowAccounts | hooks/stop-transcript-snapshot.py:166-207 | dropped + skipped + scanned + tail bytes add up to size minus the old offset, within the increment bound |
| TranscriptWindow.WindowResumes | hooks/stop-transcript-snapshot.py:167-190 | a cursor on a boundary loses bytes exactly when the gap exceeds the bound, and otherwise resumes where it stands |
| TranscriptWindow.WindowWhole | hooks/stop-transcript-snapshot.py:193-207 | the lines of a window are consecutive whole lines of the file |
| StopHook.LoadCursor | hooks/stop-transcript-snapshot.py:143-157 | a cursor is used exactly if it is of the same file and not past its end |
| StopHookUsage.SnapshotAsks | hooks/stop-transcript-snapshot.py:227-234 | a snapshot asks for what its cursor leaves, or without one for the bootstrap bytes, cut to the increment, with neither bound below 64 KiB |
| StopHook.ParseRows | hooks/stop-transcript-snapshot.py:198-206 | the row loop collects the rows of the non-empty lines that parse |
| StopHook.RowsConcat | hooks/stop-transcript-snapshot.py:198-206 | parsing distributes over concatenated lines |
| StopHookUsage.RowsExactly | hooks/stop-transcript-snapshot.py:198-206 | each row is that of a non-empty line, and each such line that parses gives one |
| StopHook.Hook.Build | hooks/stop-transcript-snapshot.py:227-245 | the window, rows, counts, usage and next state of a snapshot are a function of the file, its sizes at the two stats, the turn and the cursor, and the cursor stays |
| StopHook.Accumulate | hooks/stop-transcript-snapshot.py:283-368 | the row loop adds up the rows in order, as the hook's turn sees them |
| StopHook.Hook.Commit | hooks/stop-transcript-snapshot.py:500-514 | a commit persists exactly the snapshot's next state, or nothing |
| StopHook.AbsorbConcat | hooks/stop-transcript-snapshot.py:283-327 | accumulating two stretches in turn is accumulating their concatenation |
| StopHook.UsageOnly | hooks/stop-transcript-snapshot.py:314-326 | usage depends on the earlier usage and the rows alone |
| StopHook.SeenUsage | hooks/stop-transcript-snapshot.py:360-368 | the turn of the hook makes no difference to usage |
| StopHook.CodexStays | hooks/stop-transcript-snapshot.py:397-404 | without a Codex total the added-up usage is the one reported |
| StopHookUsage.UsageAddsUp | hooks/stop-transcript-snapshot.py:314-327 | each of the four kinds of tokens is what it was plus the plain sum of that field over the assistant rows with usage, and messages grow by their number |
| StopHookUsage.CountsAddUp | hooks/stop-transcript-snapshot.py:258-267 | user and assistant counts grow by one for each text that differs from the one before it, empty texts apart |
| StopHookUsage.ItemSeen | hooks/stop-transcript-snapshot.py:360-368 | a completed item speaks exactly to the hooks of its own turn and to those that know no turn |
| StopHookUsage.CodexIsLast | hooks/stop-transcript-snapshot.py:397-404 | of several Codex totals the last one counts |
| StopHookUsage.CodexReplaces | hooks/stop-transcript-snapshot.py:397-404 | a Codex total replaces each kind of tokens, and messages become the larger of those with usage and the assistant count |
| StopHookUsage.FirstRow | hooks/stop-transcript-snapshot.py:314-327 | one assistant row with usage (10, 5, 3, 2), to a hook without a cursor |
| StopHookUsage.FirstTotal | hooks/stop-transcript-snapshot.py:397-404 | one Codex total, to a hook without a cursor |
| StopHook.SplitCounts | hooks/stop-transcript-snapshot.py:258-267 | splitting a range changes the user or assistant count by exactly one when the second part opens with the text the first ended on, and not otherwise |
| StopHook.SplitCountsTwice | hooks/stop-transcript-snapshot.py:258-262 | one text said twice is one message to a single scan and two when the windows are cut between |
| StopHookRuns.RunFaithful | hooks/stop-transcript-snapshot.py:143-207 | in every run every snapshot stays faithful to its transcript as that grows |
| StopHookRuns.NeverTorn | hooks/stop-transcript-snapshot.py:160-207 | in every run, with any cuts and commits, the rows of every snapshot come from consecutive whole lines of the file |
| StopHookRuns.AnchoredStep | hooks/stop-transcript-snapshot.py:430-440 | an in-turn commit moves a boundary cursor to the end of its window, which began at the old cursor |
| StopHookRuns.ScanTile | hooks/stop-transcript-snapshot.py:193-207 | scanning on from a boundary appends the rows of the new part |
| StopHookRuns.ExactlyOnce | hooks/stop-transcript-snapshot.py:160-207 | from a cursor on a boundary, or from none, committed windows tile the file and committed rows are those of one scan: each record once and in order, whatever snapshots were dropped |
| StopHookRuns.UsageOfOneScan | hooks/stop-transcript-snapshot.py:243-326 | the persisted usage equals that of one scan of the delivered range without Codex totals |
| StopHookUsage.CursorAddsUp | hooks/stop-transcript-snapshot.py:243-326 | over a whole orderly run without Codex totals the persisted usage is the one at the start plus the plain sums over the delivered rows |
| StopHookRuns.CountsOfOneScan | hooks/stop-transcript-snapshot.py:258-267 | over a whole run, with any turns, the persisted user and assistant counts exceed those of one scan by exactly the number of windows that open with the text delivered last |
| StopHookRuns.CaughtUp | hooks/stop-transcript-snapshot.py:160-207 | within the bounds, building and committing a snapshot is in turn and leaves no finished record behind the cursor |
| StopHookReplays.AtLeastOnce | hooks/stop-transcript-snapshot.py:160-207 | commits in any order, with lost cursors, leave every byte below the cursor in some committed window, as long as no committed snapshot lost anything |
| StopHookReplays.CountedTwice | hooks/stop-transcript-snapshot.py:258-262 | two in-turn deliveries of the same line: the cursor counts two user messages, one scan counts one |
| StopHookRuns.CommitAnchoredIff | hooks/stop-transcript-snapshot.py:181-184 | in every run, a committed cursor points right after a newline exactly if the snapshot's read started on a boundary or a record ended at or after its start |
| StopHookRuns.CursorInsideRecord | hooks/stop-transcript-snapshot.py:181-184 | a long unfinished record leaves a committed cursor inside it |
| Saddle.WithoutIsUnlike | chitta-mcp/saddle_detector.py:215-222 | removing by value (`g not in matches`) removes exactly the groups similar to the success |
| Saddle.GroupsWellGrouped | chitta-mcp/saddle_detector.py:212-222 | for any reflexive similarity no later group's shape is similar to an earlier one's |
| Saddle.ShapesDistinct | chitta-mcp/saddle_detector.py:212-222 | hence the shapes are distinct |
| Saddle.FailuresConserved | chitta-mcp/saddle_detector.py:212-222 | as multisets, all failures are those in groups plus those discarded by successes |
| Saddle.Latest | chitta-mcp/saddle_detector.py:223-231 | the choice is the first candidate with the latest last failure; none exactly if there is no candidate |
| Saddle.ChosenUnique | chitta-mcp/saddle_detector.py:231 | the choice is unique |
| Saddle.OpenSaddle | chitta-mcp/saddle_detector.py:209-250 | the report is the episode of the chosen group of a well grouped state, or nothing without a candidate |
| SaddleFailures.BrokenReported | chitta-mcp/saddle_detector.py:209-250 | n commands of one shape, each with a nonzero exit code, a flag in place of one, or a value that converts to a nonzero integer, are reported as n failures if n reaches the threshold and the shape is like the command asked about, if any |
| SaddleFailures.TooFewReported | chitta-mcp/saddle_detector.py:209-250 | and not if it does not, or if their shape is unlike the command asked about |
| SaddleFailures.OnlyAskedFor | chitta-mcp/saddle_detector.py:223-228 | asked about a command, only a saddle like it is reported, with failures enough |
| SaddleFailures.UnbrokenNotReported | chitta-mcp/saddle_detector.py:36-45 | commands with exit code 0, without one and unflagged, or with a value that converts to zero or not at all are never reported |
| SaddleFailures.OnlyZeroClears | chitta-mcp/saddle_detector.py:209-250 | of those, only exit code 0 ends a saddle |
| SaddleFailures.ThreeFailures | chitta-mcp/saddle_detector.py:209-250 | three commands of one shape with exit code 1 are one saddle with three failures |
| SaddleIdentity.RetryKeepsChoice | chitta-mcp/saddle_detector.py:216-231 | one more failure of the reported group keeps it chosen, ties included, and adds one to its count |
| SaddleIdentity.RetriesStayReported | chitta-mcp/saddle_detector.py:216-233 | nothing but retries of the reported saddle leave it the reported one and add their number to its count |
| SaddleIdentity.GroupKept | chitta-mcp/saddle_detector.py:213-222 | through any rows without a clearing success, a group keeps its failures and gains exactly those that join it |
| SaddleIdentity.IdentityStable | chitta-mcp/saddle_detector.py:209-250 | whatever commands are interleaved, a saddle that no success clears keeps its identity, and its count grows by exactly the failures that join it |
| SaddleIdentity.ClearedAnew | chitta-mcp/saddle_detector.py:221-233 | after a clearing success a saddle of that shape is reported only under the time of a later failure |
| Saddle.IdentityNeedsFirstFailure | chitta-mcp/saddle_detector.py:232-233 | the identity is the time and shape of a failing event that is still among the events read |
| SaddleIdentity.GroupIsOpen | chitta-mcp/saddle_detector.py:213-222 | if no failing command of another shape resembles it, a group is exactly the failures of its shape since the last clearing success |
| SaddleIdentity.WindowMoves | chitta-mcp/saddle_detector.py:199-233 | when the window drops any number of rows, the identity of a saddle still reported changes exactly if its first failure left has another time, and it is announced again; other commands and any check arguments included |
| SaddleIdentity.SaddleRenamed | chitta-mcp/saddle_detector.py:199-233 | a saddle of one command that loses its first failure to the window, and is announced twice |
| Saddle.AnnouncedOnce | chitta-mcp/saddle_detector.py:257-266 | over any series of checks each reported identity not on file is announced once and no other |
| Saddle.CheckAll | chitta-mcp/saddle_detector.py:253-266 | a series of checks against one notice file announces each reported identity that was not on file once, and files exactly those |
| SaddleIdentity.RetriesAnnouncedOnce | chitta-mcp/saddle_detector.py:209-266 | with a check after every row, of whatever command and with any arguments, a saddle that no success clears is announced once under its identity, or not at all if that was on file |
| Episodes.BashPositions | chitta-mcp/saddle_detector.py:87 | the positions of exactly the shell commands, in order |
| Episodes.LikeFailsExact | chitta-mcp/saddle_detector.py:94-107 | the collected failures are exactly the anchor and the similar failures before the stop, in order |
| Episodes.StopUnique | chitta-mcp/saddle_detector.py:97-107 | the end of a scan is the first owned command or similar success, or the end of the window, and there is only one |
| Episodes.Scan | chitta-mcp/saddle_detector.py:93-107 | the inner loop finds exactly the failures before its stop, whether it escaped, and the latest similar command |
| Episodes.ScannedSound | chitta-mcp/saddle_detector.py:90-110 | a scan with enough failures is a sound episode: increasing failing commands, similar to the anchor, within the window, owned by no other |
| Episodes.EpisodeAt | chitta-mcp/saddle_detector.py:90-124 | a turn yields an episode exactly when its command failed, is free and finds enough failures, and which |
| Episodes.FindEpisodes | chitta-mcp/saddle_detector.py:87-125 | the loops find exactly the episodes the commands open in turn, each with earlier failures out of reach |
| EpisodeExample.OneEpisode | chitta-mcp/saddle_detector.py:79-125 | a failure, an injection, a failure of the same shape and its success are one escaped episode with one injection during it |
| Episodes.EpisodesCollected | chitta-mcp/saddle_detector.py:87-125 | they are sound, share no failure, and their sizes add up to the failures they own |
| Episodes.MissedFailure | chitta-mcp/saddle_detector.py:90-110 | a failure in no episode had too few similar failures left before the end of its scan |
| Episodes.AllOwned | chitta-mcp/saddle_detector.py:90-110 | with a threshold of one every failure is in an episode |
| Episodes.InsideBounded | chitta-mcp/saddle_detector.py:133-142 | failures inside episodes are at most all failures, and all of them for a threshold of one |
| Episodes.ReportConsistent | chitta-mcp/saddle_detector.py:128-157 | in every report failures inside episodes are at most all failures and at least the threshold per episode, and escapes split by injection |
| Episodes.Report | chitta-mcp/saddle_detector.py:128-157 | the totals are the sums over the sessions' episodes |
| SaddleFailures.ReportCounts | chitta-mcp/saddle_detector.py:128-157 | the totals count every command, and as failures exactly those with a failing exit field |
| EpisodeExample.ThreeTotals | chitta-mcp/saddle_detector.py:131-148 | all totals of a session of which one episode escaped with a memory, one without, and one did not escape |
| Wilson.ScoreFactors | chitta-mcp/outcome_ledger.py:46-53 | the two Wilson bounds are the roots of the score test |
| Wilson.LowerIsLeastAccepted | chitta-mcp/outcome_ledger.py:46-53 | the lower bound is accepted by the score test and nothing below it is |
| Wilson.LowerMonotone | chitta-mcp/outcome_ledger.py:46-53 | a higher observed rate never lowers the bound |
| Wilson.RawIsLower | chitta-mcp/outcome_ledger.py:49-53 | the source's expression is that lower root |
| Wilson.RawBounds | chitta-mcp/outcome_ledger.py:46-53 | before the clamp the bound lies in [0, successes/n], so the clamp never acts |
| Wilson.RawRejectsBelow | chitta-mcp/outcome_ledger.py:46-53 | every smaller rate is rejected |
| Wilson.BoundMonotone | chitta-mcp/outcome_ledger.py:46-53 | for fixed n the bound never falls as successes rise |
| Wilson.BoundAtPerfect | chitta-mcp/outcome_ledger.py:46-53 | without failures the bound is n/(n + z*z) |
| Wilson.BoundCeiling | chitta-mcp/outcome_ledger.py:46-53 | the bound is at most n/(n + z*z) |
| Wilson.BoundAtHopeless | chitta-mcp/outcome_ledger.py:46-53 | without successes the bound is zero |
| Wilson.AckNeedsSix | chitta-mcp/outcome_ledger.py:159-179 | no acknowledgement below six observations; without failures exactly from six on |
| Wilson.NackNeedsFailure | chitta-mcp/outcome_ledger.py:159-179 | no nack without a failure; without successes exactly from three observations on |
| Wilson.DecisionMonotone | chitta-mcp/outcome_ledger.py:169-179 | turning a failure into a success never makes the decision worse |
| OutcomeLedger.CreditPermutes | chitta-mcp/outcome_ledger.py:56-91 | credit does not depend on the order of the events |
| OutcomeLedger.CreditBounded | chitta-mcp/outcome_ledger.py:76-90 | successes + failures never exceed injections |
| OutcomeLedger.SessionAlone | chitta-mcp/outcome_ledger.py:62-70 | what a session's injections earn depends on that session's events alone |
| OutcomeLedger.CreditIsSumOfSessions | chitta-mcp/outcome_ledger.py:62-91 | credit is the pointwise sum of the sessions' credits |
| OutcomeLedger.Judge | chitta-mcp/outcome_ledger.py:78-88 | the window's verdict: any bad outcome fails it, else a known success makes it one, else none |
| OutcomeLedger.VerdictAsDocumentedIff | chitta-mcp/outcome_ledger.py:57-61 | the code gives the documented verdict exactly if the window holds a nonzero exit code, or else no flagged outcome and not both a zero and an unknown exit code |
| OutcomeLedger.AllZeroIff | chitta-mcp/outcome_ledger.py:57-61 | the documented success means that some outcome follows and all have exit code 0 |
| OutcomeLedger.VerdictNotAsDocumented | chitta-mcp/outcome_ledger.py:84-90 | two ledgers where code and documentation differ |
| OutcomeLedger.Bump | chitta-mcp/outcome_ledger.py:76-77 | each id gains one unit for each time it is listed, nothing else changes |
| OutcomeLedger.GroupBySession | chitta-mcp/outcome_ledger.py:62-64 | every session's events, in order, under its own key |
| OutcomeLedger.CreditSession | chitta-mcp/outcome_ledger.py:68-90 | one session's sorted join adds exactly that session's credit |
| OutcomeLedger.ComputeCredit | chitta-mcp/outcome_ledger.py:56-91 | the nested loops compute the order-free credit, with an entry for exactly the injected ids |
| OutcomeLedger.InjectionsAreListings | chitta-mcp/outcome_ledger.py:71-90 | the injections of an id are its listings over all injections, whatever the window and the outcomes |
| CreditCounts.VerdictsAreListings | chitta-mcp/outcome_ledger.py:71-90 | failures are its listings in injections that a failed command follows, successes those in which one with exit code 0 and none that failed does |
| CreditCounts.LoneInjection | chitta-mcp/outcome_ledger.py:76-79 | an injection that nothing follows is still counted |
| CreditCounts.OneCommand | chitta-mcp/outcome_ledger.py:80-90 | one injection and one command, for every session, time, exit code and flag of the command |
| CreditCounts.WindowEdges | chitta-mcp/outcome_ledger.py:80-90 | both ends of the window belong to it |
| CreditDecision.AckJustified | chitta-mcp/outcome_ledger.py:167-179 | an acknowledged memory was injected at least six times and has an injection followed by a success and no failure |
| CreditDecision.NackJustified | chitta-mcp/outcome_ledger.py:167-179 | a nacked memory was injected at least three times and has an injection followed by a failure |
| CreditDecision.DecisionOrderFree | chitta-mcp/outcome_ledger.py:167-179 | no decision depends on the order of the ledger |
| CreditThresholds.AckIff | chitta-mcp/outcome_ledger.py:155-172 | a memory is acknowledged exactly from three observations on and if its successes beat the share 0.6, stated without roots |
| CreditThresholds.NackIff | chitta-mcp/outcome_ledger.py:155-172 | and nacked exactly from three observations on and if they do not meet the share 0.3 |
| CreditThresholds.Decisions | chitta-mcp/outcome_ledger.py:155-172 | 10 to 1 acknowledges and 9 to 1 does not, 5 to 5 nacks and 6 to 4 does not, 0 to 3 nacks and 0 to 2 does not |
| RecallGateway.AddItem | chitta-mcp/recall_gateway.py:230-235 | one occurrence adds its gain to its key only, and the first item of a key stays |
| RecallGateway.Fuse | chitta-mcp/recall_gateway.py:227-235 | each key holds exactly the sum of 1/(k + rank + 1) over its occurrences in all lanes, for every k; it fails exactly if a lane reaches the rank that divides by zero |
| RecallGateway.RankedIsRanking | chitta-mcp/recall_gateway.py:236 | the keys are distinct, complete and in descending score |
| RecallGateway.RrfMerge | chitta-mcp/recall_gateway.py:220-237 | the result is the head of that ranking, each key by its first item, unless a negative k divides by zero on the way |
| RecallGateway.MergeSorted | chitta-mcp/recall_gateway.py:236-237 | the result has distinct keys in descending score |
| RecallGateway.MergeBest | chitta-mcp/recall_gateway.py:236-237 | a key that is left out scores no more than any that is not |
| RecallGateway.MergeTies | chitta-mcp/recall_gateway.py:227-237 | items of equal score come in the order in which their keys first occur, lane by lane |
| RecallGateway.MergeUnique | chitta-mcp/recall_gateway.py:220-237 | lanes, constant and limit leave one result only |
| RecallGateway.TieByLane | chitta-mcp/recall_gateway.py:220-237 | of two lanes with one item each, the first lane comes first |
| RecallGateway.GainExact | chitta-mcp/recall_gateway.py:231 | a gain times k + rank + 1 is one |
| RecallGateway.SameKey | chitta-mcp/recall_gateway.py:230 | without ids two items have one key exactly if their texts agree on the first 80 characters |
| RecallGateway.ScoreDominance | chitta-mcp/recall_gateway.py:228-235 | a key ranked before another in every lane that has the other scores strictly more; for negative k if it is in no other lane |
| RecallGateway.Dominance | chitta-mcp/recall_gateway.py:220-237 | and then comes before it in the output whenever the other is in the output |
| RecallGateway.NegativeConstant | chitta-mcp/recall_gateway.py:231 | with a negative k further occurrences cost, and dominance fails |
| LaneFusion.Union | hooks/eval-sparse.py:102-107 | the ids of both lanes ranked by their best reciprocal rank, cut to k |
| LaneFusion.HeadBefore | hooks/eval-sparse.py:102-107 | an id as good as rank r comes among the first 2(r + 1), by counting |
| LaneFusion.HeadsKept | hooks/eval-sparse.py:102-107 | any id at rank r of either lane with 2(r + 1) <= k is in the union |
| LaneFusion.HeadsTight | hooks/eval-sparse.py:102-107 | for every rank, with one place less there are lanes whose id at that rank is lost |
| LaneFusion.UnionBounded | hooks/eval-sparse.py:107 | no duplicates, at most k ids, all from the lanes, best first, and none left out is better |
| LaneFusion.UnionTies | hooks/eval-sparse.py:102-107 | ids of equal worth come in the order in which they first occur, the first lane before the second |
| LaneFusion.UnionUnique | hooks/eval-sparse.py:102-107 | the lanes and k leave one result only |
| LaneFusion.ReciprocalExact | hooks/eval-sparse.py:106 | a reciprocal rank times rank + 1 is one |
| RealmIndex.BuildPostings | hooks/eval-sparse.py:64-67 | a term's postings are exactly the documents that contain it with its frequency |
| RealmIndex.PostSumExact | hooks/eval-sparse.py:83-92 | walking a posting list adds a document's weight exactly once if it has the term |
| RealmIndex.ScoreQuery | hooks/eval-sparse.py:81-92 | accumulation through postings equals the plain sum over the distinct query terms in the document |
| RealmIndex.FoundIffPositive | hooks/eval-sparse.py:80-92 | a document is found exactly if its plain score is positive |
| RealmIndex.ScoredRanks | hooks/eval-sparse.py:93 | documents sharing a term, each once, in descending plain score |
| RealmWeights.RarerIdf | hooks/eval-sparse.py:84 | a rarer term weighs more |
| RealmWeights.MoreOccurrences | hooks/eval-sparse.py:92 | more occurrences weigh more, up to the factor 2.5 |
| RealmWeights.LongerDocument | hooks/eval-sparse.py:92 | in a longer document an occurrence weighs less |
| RealmWeights.SaturationIs | hooks/eval-sparse.py:92 | the saturation with the constants 1.5 and 0.75 written out |
| RealmWeights.CorpusWeights | hooks/eval-sparse.py:80-93 | all weights of a corpus of two documents |
| RealmIndex.BuildAtoms | hooks/eval-sparse.py:72-77 | atoms within the frequency limit, with exactly their documents |
| RealmIndex.ScoreAtoms | hooks/eval-sparse.py:96-99 | each document scores the number of its rare atoms in the query |
| RealmIndex.AtomScoredRanks | hooks/eval-sparse.py:100 | documents with a hit, each once, by descending number of hits |
| RealmIndex.Index.constructor | hooks/eval-sparse.py:57-78 | both indexes agree with the documents |
| RealmIndex.Index.Bm25 | hooks/eval-sparse.py:80-93 | the ids of the k best documents by the plain formula |
| RealmIndex.Index.Atom | hooks/eval-sparse.py:95-100 | the ids of the k documents with most rare atoms |
| RealmIndex.Index.Union | hooks/eval-sparse.py:102-107 | the fusion of those two lanes |
| RecallGrade.DcgAtMostIdeal | hooks/grade-recall.py:704-707 | a gain is at most that of as many first places, with equality exactly for those places |
| RecallGrade.NdcgBounded | hooks/grade-recall.py:704-707 | nDCG lies in [0, 1] for increasing positions no more than the golds |
| RecallGrade.NdcgPerfect | hooks/grade-recall.py:704-707 | it is one exactly if the positions below k are the first min(n_gold, k) places |
| RecallGrade.GoldPositions | hooks/grade-recall.py:754-764 | the positions are exactly the gold ones in increasing order, and the gold count covers them |
| RecallGrade.Grade | hooks/grade-recall.py:754-765 | so the score is always in [0, 1] and one exactly for a perfect head |
| ThreadInference.MakeFingerprint | chitta-mcp/thread_inference.py:212-228 | one entry per term of the texts, with its weight, and all weights positive |
| ThreadDecisions.ShareIs | chitta-mcp/thread_inference.py:221-228 | a weight times the number of tokens is the document frequency times the idf |
| ThreadDecisions.TwoMessages | chitta-mcp/thread_inference.py:212-228 | both weights of two messages |
| ThreadInference.ComputeCosine | chitta-mcp/thread_inference.py:231-242 | the loops compute the sums over shared keys and over each map |
| ThreadInference.CauchySchwarz | chitta-mcp/thread_inference.py:237-239 | over shared keys the squared dot product is at most the product of squared norms |
| ThreadInference.DotBound | chitta-mcp/thread_inference.py:237-239 | and so it is for the norms of the whole maps |
| ThreadInference.CosineSymmetric | chitta-mcp/thread_inference.py:231-242 | cosine is symmetric |
| ThreadInference.CosineBounded | chitta-mcp/thread_inference.py:231-242 | cosine lies in [-1, 1], and in [0, 1] for positive weights |
| ThreadInference.CosineSelf | chitta-mcp/thread_inference.py:231-242 | a non-empty positive fingerprint has cosine one with itself |
| ThreadInference.LiveLeases | chitta-mcp/thread_inference.py:290-294 | each thread's owner is that of its last lease row |
| ThreadInference.BestThread | chitta-mcp/thread_inference.py:306-318 | the first thread with the highest positive score, or none if no score is positive |
| ThreadInference.Infer | chitta-mcp/thread_inference.py:281-380 | skip, create, extend or pivot by the thresholds; a thread leased to another session is neither extended nor sealed |
| ThreadInference.FitsUnique | chitta-mcp/thread_inference.py:296-380 | the stated conditions leave exactly one action |
| ThreadDecisions.DecidedBy | chitta-mcp/thread_inference.py:320-380 | what the best similarity decides: nothing below 0.30, a pivot up to 0.55, an extension from there on, and a thread beside for one leased away |
| ThreadDecisions.ThreeSides | chitta-mcp/thread_inference.py:296-380 | similarities 7/25, 5/13 and 3/5 to the only thread create, pivot and extend |
| ThreadDecisions.LastLease | chitta-mcp/thread_inference.py:290-294 | the last lease row of a thread says who holds it |
| ThreadInference.ReturnExtends | chitta-mcp/thread_inference.py:306-342 | coming back with a stored fingerprint extends the first thread of similarity one, or works beside it exactly if that thread is leased to another session |
| ResumeSelector.ById | chitta-mcp/resume_selector.py:234-243 | the last row of each session id, in order of first appearance |
| ResumeSelector.MergeTranscripts | chitta-mcp/resume_selector.py:251-255 | transcript rows of one id merged in order, ids in order of first appearance |
| ResumeSelector.MergeRecords | chitta-mcp/resume_selector.py:251-259 | each record is its transcripts overlaid by ledger and then registry values that are set; records come in order of first appearance |
| ResumeSelector.CollectCandidates | chitta-mcp/resume_selector.py:282-338 | the candidates among the given sessions, in their order |
| ResumeSelector.AllCandidates | chitta-mcp/resume_selector.py:251-338 | they are exactly the records of the inventory that pass the filters, one for each session |
| ResumeSelector.SelectResume | chitta-mcp/resume_selector.py:234-359 | the loops decide what is chosen from the candidates in merge order |
| ResumeSelector.ChosenIsWinner | chitta-mcp/resume_selector.py:340-359 | a selection is unlocked, beats every other unlocked candidate by the margin, and needs the registry |
| ResumeSelector.WinnerIsChosen | chitta-mcp/resume_selector.py:340-353 | for margins from one a candidate is selected exactly if it wins; a request by name has at most one candidate |
| ResumeSelector.StatusByMembership | chitta-mcp/resume_selector.py:342-353 | the status says whether there are candidates and whether any is unlocked, for requests with and without a name |
| ResumeSelector.SelectionSafe | chitta-mcp/resume_selector.py:283-359 | the selected session is never current, live, leased to another session, or chosen without a registry, and beats every other unlocked candidate of the inventory by the margin |
| ResumeFields.SelectedGone | chitta-mcp/resume_selector.py:72-83 | a selected session is not running by its last registry row: `is_live` falsy, or absent with another status than active, or absent with a dead pid and no heartbeat within 900 seconds |
| ResumeFields.RunningLocked | chitta-mcp/resume_selector.py:290-296 | a candidate whose last registry row says none of these is locked |
| ResumeFields.UnregisteredNotLive | chitta-mcp/resume_selector.py:290 | without a registry row a candidate is not live |
| ResumeFields.LeasedLocked | chitta-mcp/resume_selector.py:290-296 | a candidate is locked exactly if it is live or the last unexpired lease of its thread is of another session |
| ResumeFields.RegistryWins | chitta-mcp/resume_selector.py:256-259 | a field that the registry sets is the registry's |
| ResumeFields.LedgerNext | chitta-mcp/resume_selector.py:256-259 | else one that the ledger sets is the ledger's |
| ResumeFields.TranscriptElse | chitta-mcp/resume_selector.py:251-255 | else it is that of the last transcript of the session that has it |
| ResumeFields.EndedScore | chitta-mcp/resume_selector.py:298-322 | the score of an ended session, for each of the ways to be found |
| ResumeFields.PathNamed | chitta-mcp/resume_selector.py:286 | the transcript path under its newer name and else under its older one |
| ResumeFields.RecencyExact | chitta-mcp/resume_selector.py:321-322 | 20 points in the first hour and one less for each full hour |
| ResumeSelector.FailsClosed | chitta-mcp/resume_selector.py:342-359 | without a registry nothing is selected, and a selection is reported exactly as such |
| ResumeSelector.RequestedAlone | chitta-mcp/resume_selector.py:300-304 | a session asked for by name is the only candidate |
| ResumeOrder.CandidateOrderFree | chitta-mcp/resume_selector.py:234-338 | with distinct ids, reordering transcripts, ledger, registry and leases changes no candidate |
| ResumeOrder.SelectionOrderFree | chitta-mcp/resume_selector.py:234-359 | hence neither status nor selection for margins from one, for a session asked for by name, or without a registry |
| ResumeOrder.SelectsFirstTop | chitta-mcp/resume_selector.py:340-349 | for margins up to zero, with nothing asked for by name, exactly the best unlocked candidate that the merge met first is selected |
| ResumeOrder.NewestOfBest | chitta-mcp/resume_selector.py:340-349 | without a margin no unlocked candidate scores higher than the selected one, and none of its score has a newer transcript |
| ResumeOrder.OrderFreeIff | chitta-mcp/resume_selector.py:234-359 | every reordering gives the same status and selection, for any margin, exactly unless the margin is at most zero, no session is named, the registry is there, and two best unlocked candidates come from the same source with none in an earlier one |
| ResumeOrder.TieDependsOnOrder | chitta-mcp/resume_selector.py:340-349 | two inventories that differ in order only, and select different sessions for any margin up to zero |
| ResumeOrder.TieAcrossSources | chitta-mcp/resume_selector.py:251-259 | a tie between a session with a transcript and one with only a ledger row never shows |
| HookFile.StripAll | chitta-mcp/install.py:318-330 | the first pass leaves each event its foreign matchers and drops events without any |
| HookFile.AppendGenerated | chitta-mcp/install.py:332-346 | the second pass appends each event's generated matchers |
| HookFile.Install | chitta-mcp/install.py:314-347 | foreign matchers in order, then the generated ones, for every event |
| HookFile.InstallIdempotent | chitta-mcp/install.py:314-347 | installing twice equals installing once |
| HookFile.CleanEvent | chitta-mcp/install.py:380-397 | the inner loop keeps foreign hooks and their matchers, and flags emptied ones |
| HookFile.CleanAll | chitta-mcp/install.py:378-397 | every event is cleaned, and `changed` says whether some matcher or event became empty |
| HookFile.Uninstall | chitta-mcp/install.py:374-402 | the file is untouched without a change, removed if nothing is left, rewritten otherwise |
| HookFile.InstallThenUninstall | chitta-mcp/install.py:314-402 | installing and uninstalling leaves, per event and in order, exactly the matchers with hooks and no chitta command |
| HookUninstall.UninstallKeeps | chitta-mcp/install.py:378-402 | after an uninstall that rewrites the file each event has, by position and in order, exactly the hooks of other tools that were there, each for its pattern |
| HookUninstall.CleanedNoEmpty | chitta-mcp/install.py:389-392 | no matcher is left without hooks |
| HookUninstall.InstallKeeps | chitta-mcp/install.py:318-346 | after an install each event has, by position and in order, exactly the matchers without a chitta hook, and then the generated ones |
| HookFile.InstallPreservesIff | chitta-mcp/install.py:335-346 | installing keeps every hook of other tools, in order, exactly if no matcher holds both a chitta hook and another one |
| HookFile.SharedHookDropped | chitta-mcp/install.py:318-346 | a hook of another tool that shares its matcher with chitta is dropped |
| HookFile.UninstallCleansIff | chitta-mcp/install.py:378-402 | uninstalling leaves no chitta command exactly if some matcher or event becomes empty, or there was none |
| HookFile.SharedMatcherSurvives | chitta-mcp/install.py:382-392 | a chitta command that shares its matcher survives |
| HookFile.StripEntry | chitta-mcp/install.py:230-247 | the lines outside the plugin's entries, in order |
| HookFile.StripIdempotent | chitta-mcp/install.py:230-247 | no header of the entry is left, and stripping again changes nothing |

## Left out

- The C++ daemon, the Rust store, write-ahead logs and ledger operations: leases, threads and registry rows are inputs.
- Remote calls, routing tables, schemas, the `hook_*` scripts, the poller and the session registry: plumbing with thin decisions.
- JSON, tokenising and atom expressions, `normalize`, `SequenceMatcher`: rows, terms, atoms and shapes are given; similarity is any reflexive relation.
- Floating point: all arithmetic is over exact reals, `math.sqrt` is any square root, `math.log` any function with the stated properties, the nDCG discount any positive strictly decreasing function.
- Session table: fairness and queueing of the lock; removals inside `terminate()` are a suspension the environment ends. A turn of the sweep that does not suspend is its own step, which allows more interleavings than the event loop has.
- Session table: owner records are assumed to be written for sessions in the table.
- StopHook.Hook.Build: does not build the tools, files, spans, markers and user turns of a snapshot, which neither the cursor position nor usage depend on, and takes the dispatch over row and item types as given.
- Stop hook: truncating or rewriting a transcript in place; a replaced file has a new inode, and is not replaced between the two stats of one snapshot.
- Stop hook: the exactly-once result assumes that commits are in turn (each from a snapshot of the cursor it replaces), the at-least-once result does not; both assume that nothing is lost to the bounds, and `WindowAccounts` and `WindowResumes` say what is lost otherwise.
- Saddles: the time window of `load_tail` and the message text. `WindowMoves` says what dropping rows does to the identity when no other failing command resembles it. A `check` without a notice file prints every time.
- Episodes.Report: does not give the median and maximum lengths and the rates of the report, which are rounded quotients of its totals, nor the ids injected during an episode.
- Credit: thresholds other than the defaults, the calls that acknowledge or nack, and the rendered report.
- Thread inference: titles, binding, and races between reading the leases and acting on them; ownership is settled by the daemon.
- Resumption: `_resolve_thread`, git roots, `_pid_alive`, modification times and canonical paths are inputs; id fields are text.
- Recall grading: abstention, calibration and the hybrid columns.
- Hook files: generating the hooks, keys of the file other than hooks, and files outside the hooks file and the plugin entry.
