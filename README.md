# A verified model of a Reddit toxicity-report bot

This project models the deterministic core of a moderation bot for Reddit in Dafny. The bot has two programs.

- **bot.py** does five things:
  - It streams the comments of the configured subreddits and scores each one for toxicity.
  - It reports every comment whose score reaches the threshold and logs each scan to a state log (JSON lines).
  - It harvests the moderators' approve and remove decisions from each subreddit's moderation log into an outcomes file.
  - Each harvested decision is deduplicated by the key `(fullname, action, int(created))`.
  - On schedule, it posts a weekly summary comparing reports with moderator decisions.
- **modlog_refresh.py** is a stand-alone harvester for the same outcomes file. It uses its own line format and the string key `fullname|status|int(created_utc)`. It also has a per-subreddit fetch limit and a look-back cutoff.

Pure logic is modelled as functions with contracts and lemmas. Each loop of the source is a `method` with a `while` loop, proved equal to a specification function:

- the key loaders;
- the harvesting scans;
- the summary's decision loops;
- the main comment loop.

That function's properties are proved as lemmas. Files are sequences of parsed lines, and a line that fails to parse is simply absent. The moderation logs and the comment stream are input sequences. The scores and the clock are parameters.

Modules:

- `Wrappers`: `Option`.
- `Text`: the Python `str` operations used, namely strip, lower, startswith, `in`, split and join.
- `Records`: the shared record shapes and Python truthiness (`a or b`, `int(x)`).
- bot.py:
  - `BotUtil`;
  - `BotReporting`;
  - `BotModlog`;
  - `BotSummary`;
  - `BotMain`, the comment loop of `main`.
- modlog_refresh.py: `ModlogRefresh`.
- `OutcomeFormats`: how the two writers of the shared outcomes file and its three readers see each other's lines.

## Model

| member | source | states |
|---|---|---|
| BotUtil.CapPct | bot.py:149-150 | The result lies in [0, 100]. It is the identity on that range, 0 below it and 100 above it. |
| BotUtil.DisplayName | bot.py:154 | The name is `display_name` if truthy. Otherwise it is `display_name_prefixed` if truthy. Otherwise it is the object's string form. |
| BotUtil.SubNameLower | bot.py:152-158 | The name is lower-case and no longer than the display name it came from. |
| BotUtil.SubNamePrefixAndCase | bot.py:152-158 | `name`, `r/name` and `R/name` give the same lower-case name in any letter case. This holds whether the name comes from `display_name` or from `display_name_prefixed`. |
| BotUtil.NormalizeFullname | bot.py:195-202 | Gives `""` exactly for `""`. Leaves a `t1_`/`t3_` input unchanged. Otherwise prepends `t1_` for kind `"comment"` and `t3_` for any other kind. Every non-empty result is a fullname. |
| BotUtil.NormalizeFullnameIdempotent | bot.py:195-202 | Normalising an already normalised value, with any kind, returns it unchanged. |
| BotReporting.ConfidenceBucket | bot.py:264-271 | VERY HIGH exactly when `s >= conf_vhigh`. Otherwise HIGH exactly when `s >= conf_high`. Otherwise MEDIUM exactly when `s >= conf_med`. Otherwise LOW. |
| BotReporting.ConfidenceBucketMonotone | bot.py:264-271 | A higher score never gets a lower bucket, whatever the order of the thresholds. |
| BotReporting.ConfidenceBucketBands | bot.py:264-271 | With `conf_med <= conf_high <= conf_vhigh`, each bucket is exactly its half-open score band. |
| BotReporting.ShouldReport | bot.py:287-288 | A comment is reported exactly when its score reaches the threshold. |
| BotReporting.ReportedIsHighConfidence | bot.py:287-288 | When the report threshold is at least `conf_high`, as with the defaults, every score `should_report` accepts is in the HIGH or VERY HIGH bucket. |
| BotReporting.SeenIdsOfMeaning | bot.py:273-280 | Every id in the seen set starts with `t1_`/`t3_`. Every row with a truthy `target_fullname or id` contributes its normalised fullname. The set holds nothing else. |
| BotReporting.LoadSeenIds | bot.py:273-280 | The loop builds exactly the seen set of the rows. The set holds only fullnames and covers every row that names one. |
| BotModlog.OutcomeOf | bot.py:322-327 | `OUTCOME_ACTIONS`: exactly the four action names have an outcome. The two remove actions map to removed and the two approve actions to approved. |
| BotModlog.LineKey | bot.py:332-335 | A line yields a key only when fullname, action and time are all truthy. |
| BotModlog.LoadOutcomeKeys | bot.py:329-338 | The loop builds exactly the key set of the lines. Every key has a `t1_`/`t3_` fullname, a non-empty action and a non-zero time. |
| BotModlog.Candidate | bot.py:355-375 | A row is built exactly when the lower-cased action is in `OUTCOME_ACTIONS` and the target is non-empty. The row is an outcome row for a fullname, carrying that action and its outcome. Its key is `(tfn, action, int(created))` of the action: the normalised target, the lower-cased action and the truncated time. |
| BotModlog.Harvest | bot.py:351-381 | One subreddit's scan appends at most one row per fetched action. Its other properties are the lemmas below. |
| BotModlog.RefreshAll | bot.py:340-381 | The refreshed outcomes file only grows: the old file is a prefix of the new one. Each subreddit is scanned against its own cutoff, taken from the clock when its scan starts (bot.py:347). |
| BotModlog.HarvestWritesFreshRows | bot.py:351-381 | Each appended row is an `OUTCOME_ACTIONS` row for a fullname, not older than the cutoff. Its key was not in `existing`, and no two appended rows share a key. |
| BotModlog.HarvestRecordsAll | bot.py:351-381 | Nothing is lost: the key of every kept action up to the first older one is afterwards known, either from before or because the scan wrote it. |
| BotModlog.HarvestStopsAtCutoff | bot.py:351-354 | The scan stops at the first action older than the cutoff: with an older action at position `k`, the scan gives what the scan of the first `k` actions gives, whatever follows. |
| BotModlog.RowReadsBack | bot.py:329-338 | A written row reads back through `load_outcome_keys` as exactly the key it was deduplicated under. |
| BotModlog.KeysReadBack | bot.py:329-338 | For written rows with a non-zero time, the keys `load_outcome_keys` reads are exactly the keys they were written under. |
| BotModlog.HarvestReadsBack | bot.py:362-379 | With a cutoff of at least one second, the rows one scan appends read back as their own keys. |
| BotModlog.HarvestSaturated | bot.py:351-364 | Once every key a scan would write is known, that scan appends nothing, also from a later cutoff. |
| BotModlog.RefreshAllRecordsAll | bot.py:340-381 | With every cutoff at least one second after the epoch: after the refresh, the key of every kept action of any subreddit, up to that subreddit's first older action, is in the file's keys. |
| BotModlog.RefreshAllFresh | bot.py:340-381 | With every cutoff at least one second after the epoch: over all subreddits, the appended rows have pairwise distinct keys and none was in the file before. This holds although the keys are reloaded per subreddit. |
| BotModlog.RefreshRerunWritesNothing | bot.py:340-381 | Running the refresh again over the same moderation logs leaves the outcomes file unchanged, although the second run's cutoffs are later (each no earlier than the first run's for that subreddit). |
| BotModlog.RefreshSub | bot.py:345-381 | The per-subreddit loop appends exactly the scan's rows to the file. `count_new` is the number of rows appended. |
| BotModlog.RefreshModlog | bot.py:340-385 | The loop over all subreddits, reading the clock once per subreddit, yields exactly the file `RefreshAll` gives for the cutoffs of those readings. The per-subreddit `count_new` values add up to the number of rows appended. |
| BotSummary.PriorWindow | bot.py:421-422 | The prior window ends where the current one starts and has the same length. |
| BotSummary.ReportedInMeaning | bot.py:433-434 | `reported_this` holds exactly the reported scan rows inside the window. |
| BotSummary.ReportedInCount | bot.py:463 | `reported_n` counts rows: `len(reported_this)` is the number of reported rows inside the window, duplicates included. |
| BotSummary.RemovedTfnsMeaning | bot.py:444-457 | A fullname is in `removed_tfns` exactly when some outcomes line in the window with a removal outcome names it and it was reported. |
| BotSummary.ApprovedTfnsMeaning | bot.py:444-457 | A fullname is in `approved_tfns` exactly when some counted line names it with an approval outcome that is not a removal. |
| BotSummary.PendingTfnsMeaning | bot.py:460 | A fullname is pending exactly when it is undecided and some reported row naming it is no older than the lag cutoff. |
| BotSummary.DecisionsWithin | bot.py:444-457 | Only reported fullnames enter `removed_tfns` or `approved_tfns`. |
| BotSummary.PendingWithin | bot.py:460 | Pending fullnames are reported fullnames that have no decision. |
| BotSummary.TallyOf | bot.py:441-461 | The five fullname sets of one window. Their partition is stated by `TallyPartition`. |
| BotSummary.TallyPartition | bot.py:441-461 | Removed, approved, pending and left-up are subsets of the reported fullnames. Pending, left-up and decided are pairwise disjoint. Decided ∪ pending ∪ left-up equals the reported set. |
| BotSummary.DeltaPct | bot.py:492-497 | `delta_pct`'s three answers. Its meaning is stated by `DeltaPctMeaning`. |
| BotSummary.DeltaPctMeaning | bot.py:492-497 | `None` exactly when an argument is missing. Infinite exactly on a rise from 0, and 0 when a zero `prev` meets a non-positive `curr`. Otherwise a percentage that, applied to `prev`, gives back `curr`. For a positive `prev`, its sign is the sign of the change. |
| BotSummary.AlignPct | bot.py:499 | The alignment lies in [0, 100], and is 0 without reports. |
| BotSummary.AlignPctUncapped | bot.py:499 | When there are no more removals than reports, the alignment is the plain ratio in percent (0 without reports). |
| BotSummary.WeeklySummaryBounds | bot.py:463-499 | No count of removed, approved or prior removed exceeds its number of reports. Pending plus left-up does not exceed the reports either. The alignment lies in [0, 100] and equals the ratio of removals to reports. |
| BotSummary.SummaryFromBounds | bot.py:463-499 | The bounds of the previous row, for any current and prior window and any reported rows in them. |
| BotSummary.CollectDecisions | bot.py:444-457 | The first outcomes loop builds exactly the removed and approved sets. |
| BotSummary.CollectPriorRemovals | bot.py:478-490 | The prior-window loop builds exactly the prior removed set. |
| BotSummary.ComputeWeeklySummary | bot.py:419-534 | The summary's counts, alignment and deltas are those of `WeeklySummary`. |
| BotSummary.SummaryDue | bot.py:544 | The `due` test: forced, no truthy last post, or a full interval elapsed. `NotDueKeepsState` and `PostRestartsInterval` state its consequences. |
| BotSummary.NotDueKeepsState | bot.py:544-548 | A summary that is not due changes nothing. It is not due only when unforced, after a truthy last post, with less than a full interval elapsed. |
| BotSummary.PostRestartsInterval | bot.py:542-557 | After a post, the next unforced summary is due exactly when a full interval has passed since `int(now)`. |
| BotSummary.MaybePostWeeklySummary | bot.py:536-558 | When enabled and due, the state is stamped with `int(now)` and the meta. When a webhook is set, the summary is posted. Otherwise nothing is built, posted or saved. |
| BotMain.Step | bot.py:604-611 | A seen comment changes nothing. A fresh one adds exactly one log row. `seen_reported` only grows, by at most the comment's fullname, which it then holds exactly when already seen or reported. |
| BotMain.Run | bot.py:598-611 | The log only grows, by at most one row per comment, and `seen_reported` only grows. |
| BotMain.StepSkipsSeen | bot.py:604-605 | A comment whose fullname is in `seen_reported` is neither reported nor logged. |
| BotMain.StepLogsFresh | bot.py:605-611 | A fresh comment gets exactly one log row. It is reported, and its fullname added to `seen_reported`, exactly when its score reaches the threshold. |
| BotMain.RunConsistent | bot.py:598-611 | Over any stretch of the stream: `seen_reported` is the starting set plus exactly the reported fullnames. No fullname is reported twice or when it was seen at the start. The log only grows, by at most one row per comment. |
| BotMain.RunReportsAboveThreshold | bot.py:606-611 | Every report is of a streamed comment whose score reached the threshold. |
| BotMain.RunRestartSafe | bot.py:593-611 | When the seen set is covered by what `load_seen_ids` reads back from the log, it still is after the loop. So a restart never reports a comment again. |
| BotMain.MainLoop | bot.py:593-611 | The loop after `load_seen_ids` computes exactly the seen set, log and reports of `Run`. |
| ModlogRefresh.ActionSetsDisjoint | modlog_refresh.py:14-22 | The approve and remove vocabularies are disjoint. |
| ModlogRefresh.KeepNames | modlog_refresh.py:26-27 | The kept names are stripped and non-empty, and no more than the pieces. |
| ModlogRefresh.ParseSubs | modlog_refresh.py:24-27 | Every element is whitespace-stripped and non-empty. Elements of the comma-separated form contain no comma. |
| ModlogRefresh.ParseSubsCsvCons | modlog_refresh.py:24-26 | A comma-separated string parses piece by piece: the first piece, stripped, unless it is blank, then the names of the rest. |
| ModlogRefresh.ParseSubsCsvOne | modlog_refresh.py:24-26 | A string without commas gives its stripped self, or nothing when it is blank. |
| ModlogRefresh.ParseSubsKeepsOrder | modlog_refresh.py:27 | The names of a concatenated list are the concatenated names, so the order is kept. |
| ModlogRefresh.ParseSubsJoin | modlog_refresh.py:26 | Clean names joined with commas parse back to the same list. |
| ModlogRefresh.ParseSubsIdempotent | modlog_refresh.py:24-27 | Parsing the parsed names again, as a list or re-joined, changes nothing. |
| ModlogRefresh.NormalizeFullname | modlog_refresh.py:35-43 | `None` for a falsy input or a stripped input without a `t1_`/`t3_` prefix. Otherwise the stripped input. |
| ModlogRefresh.NormalizeFullnameIdempotent | modlog_refresh.py:35-43 | Normalising a normalised fullname returns it unchanged. |
| ModlogRefresh.ClassifyStatus | modlog_refresh.py:74-80 | Approved exactly for a lower-cased action in `APPROVE_ACTIONS`. Removed exactly for one in `REMOVE_ACTIONS`. `None` otherwise. |
| ModlogRefresh.ClassifyStatusIgnoresCase | modlog_refresh.py:75 | Actions that differ only in letter case classify alike. |
| ModlogRefresh.LineSeenKey | modlog_refresh.py:58-62 | The key one line gives `_read_seen_keys`. `LineSeenKeyFormat` states when there is one and its form. |
| ModlogRefresh.LineSeenKeyFormat | modlog_refresh.py:58-62 | A line yields a key only with a truthy `target_fullname`, a status of approved or removed, and a non-zero `created_utc`. The key is in `_save_outcome`'s format. |
| ModlogRefresh.SeenKeysOfMeaning | modlog_refresh.py:45-63 | A key is in the seen set exactly when some line yields it. |
| ModlogRefresh.ReadSeenKeys | modlog_refresh.py:45-63 | The loop builds exactly the seen set of the lines. |
| ModlogRefresh.RecordReadsBack | modlog_refresh.py:58-66 | A saved record reads back through `_read_seen_keys` as the key it was saved under. |
| ModlogRefresh.SaveOutcome | modlog_refresh.py:65-72 | Returns true exactly when the key is new. It then appends exactly that record and adds exactly its key. Otherwise it changes neither the file nor `seen`. |
| ModlogRefresh.RecordOf | modlog_refresh.py:121-136 | A record is built only for a classified action with a `t1_`/`t3_` fullname. It carries that status and the action's time. |
| ModlogRefresh.Scan | modlog_refresh.py:107-139 | One subreddit writes no more records than it fetches, and fetches no more than it is given. |
| ModlogRefresh.ScanStopsAtCutoff | modlog_refresh.py:115-119 | When the action at position `k` is the first older than the cutoff, the scan fetches exactly `k + 1` actions. Its records and seen keys are those of the scan of the first `k`. |
| ModlogRefresh.ScanFetchesAllRecent | modlog_refresh.py:107-119 | When no action is older than the cutoff, the scan fetches all of them. |
| ModlogRefresh.ScanWritesFreshRecords | modlog_refresh.py:121-139 | Each written record has a decided status, a `t1_`/`t3_` fullname and a time not before the cutoff. Its key is new and distinct from the other written keys. The seen set grows by exactly the written keys. |
| ModlogRefresh.ScanAll | modlog_refresh.py:101-139 | The refresh over all subreddits, one fetch count per subreddit. The lemmas below state its records and counters. |
| ModlogRefresh.ScanAllWritesFreshRecords | modlog_refresh.py:99-139 | The same holds across all subreddits with the seen set threaded through. |
| ModlogRefresh.ScanAllFetchBounds | modlog_refresh.py:108-113 | `fetched` per subreddit never exceeds the limit or the available log. |
| ModlogRefresh.ScanAllTotal | modlog_refresh.py:112-139 | `scanned` is the sum of the per-subreddit fetch counts, and no more records are written than scanned. |
| ModlogRefresh.ScanAllCounts | modlog_refresh.py:101-152 | The two previous rows combined: the counters of the whole refresh and their bounds. |
| ModlogRefresh.ScanSaturated | modlog_refresh.py:138 | Once the seen set covers every key a scan would add, the scan writes nothing and adds nothing, also from a later cutoff. |
| ModlogRefresh.ScanAllSaturated | modlog_refresh.py:101-139 | The same holds over all subreddits. |
| ModlogRefresh.RecordsReadBack | modlog_refresh.py:58-66 | The keys `_read_seen_keys` reads from written records are exactly the keys they were saved under. |
| ModlogRefresh.RefreshRerunWritesNothing | modlog_refresh.py:94-152 | With a cutoff of at least one second, re-running over an unchanged log, from the same or a later cutoff, writes 0 records. |
| ModlogRefresh.SaveDecision | modlog_refresh.py:121-139 | One loop step saves the action's record exactly when the action is a classified decision about a fullname with a new key. |
| ModlogRefresh.ScanSubreddit | modlog_refresh.py:105-143 | The per-subreddit loop, with its limit and cutoff breaks, writes and fetches exactly what `Scan` gives. |
| ModlogRefresh.ScanSubreddits | modlog_refresh.py:101-150 | The loop over the parsed subreddits appends exactly the records of `ScanAll`. `written` and `scanned` are the counts of `ScanAll`, `scanned` is the sum of the per-subreddit fetch counts, and `written <= scanned`. |
| ModlogRefresh.RefreshModlog | modlog_refresh.py:94-152 | The whole refresh, after `_read_seen_keys`, appends exactly the records of `ScanAll` from the keys read. `written` is their number, `scanned` is the sum of the per-subreddit fetch counts, and `written <= scanned`. |
| OutcomeFormats.VocabulariesAgree | bot.py:322-327 | bot.py and modlog_refresh.py classify every action bot.py keeps alike. Exactly `spamcomment`, `spamlink`, `moderator_remove` and `remove` are kept as removals by modlog_refresh.py but ignored by bot.py. |
| OutcomeFormats.BotRowsInvisibleToModlogRefresh | modlog_refresh.py:58-61 | A line written by bot.py's refresh yields no `_read_seen_keys` key, because it has no `created_utc`. |
| OutcomeFormats.ModlogRefreshRowsInvisibleToBot | bot.py:332-335 | A line written by `_save_outcome` yields no `load_outcome_keys` key. The summary reads an empty outcome from it. |
| OutcomeFormats.SummaryIgnoresModlogRefreshRows | bot.py:446-457 | An outcomes file filled only by modlog_refresh.py counts no removal and no approval in the weekly summary. |
| OutcomeFormats.HarvestHasNoCreatedUtc | bot.py:366-375 | No line bot.py's refresh writes has a `created_utc`. |
| OutcomeFormats.NoCreatedUtcNoKeys | modlog_refresh.py:60-61 | Lines without `created_utc` give `_read_seen_keys` no keys. |
| OutcomeFormats.ModlogRefreshIgnoresBotRows | modlog_refresh.py:45-63 | Decisions harvested by one bot.py scan give modlog_refresh.py no seen keys. |
| OutcomeFormats.BotRefreshAddsNoSeenKeys | modlog_refresh.py:45-63 | After bot.py's whole refresh, `_read_seen_keys` reads the same keys as before it. |
| OutcomeFormats.ModlogRefreshRescansBotRows | modlog_refresh.py:94-139 | So modlog_refresh.py, run over a file bot.py has refreshed, records exactly what it would have recorded before: it writes bot.py's decisions again in its own format. |

## Left out

- Network and foreign libraries are out: PRAW/prawcore (authentication, streaming, `report()`), Discord posting and the Detoxify model. The moderation logs and the comment stream are inputs. A subreddit whose log cannot be read contributes an empty log. The score is an input `real`. Whether the webhook accepted a post is not modelled.
- HTTP errors and other exceptions caught per subreddit or per comment are not modelled. The `except` paths (log and continue or sleep) are out.
- File I/O and JSON are out. Files are sequences of parsed records, and a line that fails to parse is absent. `json_safe`, `ensure_dir_for`, `details`/`description` and the `verdict` field are not modelled.
- Threads, `stop_evt`, `daily_modlog_refresher`, `start_periodic_refresh`, every `sleep` and the jitter are scheduling plumbing and are out.
- Config, environment and CLI parsing, logging, `log_scan` and `praw_client` are out.
- Clock readings are parameters. bot.py's `refresh_modlog` reads the clock once per subreddit (bot.py:347), so it takes one reading per subreddit. modlog_refresh.py reads it once per run (modlog_refresh.py:95). Every other call takes one reading `now`. `maybe_post_weekly_summary` and `compute_weekly_summary` read the clock three times in the source, a few microseconds apart. The scan log's `time.time()` is a per-comment input.
- Python floats are modelled as exact reals: the scores, the epoch timestamps, `delta_pct` (bot.py:497) and `align_pct` (bot.py:499). So the inverse property `DeltaPctMeaning` states, and the exact ratio `AlignPctUncapped` states, hold in exact arithmetic only. Rounding of binary floating point is not modelled.
- `str.lower()` is modelled for the ASCII letters only.
- ModlogRefresh.ModText: a missing `mod` attribute and a `mod` of `None` are one case, rendered `"None"`. The source, at modlog_refresh.py:135, renders a missing attribute as `""`. The field is part of no key.
- BotSummary.ComputeWeeklySummary: does not compute the toxicity averages or their deltas (floating-point means over scores). It also leaves out the text layout, `pct_s` and the date span.
- BotMain.MainLoop: stores the score unrounded. The source rounds it to 6 decimals with `round(tox, 6)`, which only the averages read.
- ModlogRefresh.RecordOf: assumes every action has a numeric `created_utc`, as a `real`. A `None` value would make `fromtimestamp` raise and end that subreddit's scan, and this is not modelled.
- BotModlog.RefreshAllFresh, BotModlog.RefreshAllRecordsAll, BotModlog.RefreshRerunWritesNothing and ModlogRefresh.RefreshRerunWritesNothing: require every cutoff to be at least one second after the epoch. Rows with `int(created) == 0` are written but never read back by the key loaders, so below that, re-running would write them again.
- BotSummary.PostRestartsInterval: requires `now >= 1`. The stored stamp `int(now)` must then be truthy.
- BotMain.RunRestartSafe: requires every streamed fullname to carry its `t1_`/`t3_` prefix, as Reddit fullnames do.
- `mod.log(limit=...)` in bot.py is modelled as yielding the first `limit` entries of the log, newest first. PRAW's paging is not modelled.
