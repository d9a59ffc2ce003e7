# Auditarr: proofs about its protocols and algorithms

Auditarr keeps a media library in order: it scans files, evaluates rules on them, transcodes
through a queue of workers, runs scheduled jobs, loads plugins, and talks to media servers.
This project models the parts of its backend whose guarantee spans many steps, and proves
those guarantees for all inputs and all runs. `dafny verify dfyconfig.toml` checks it all.

| file | component |
|---|---|
| `QueueItems.dfy`, `QueueTable.dfy`, `QueueRuns.dfy` | The optimization queue: rows, the claim loop and the poll pass as methods, and the whole protocol as a state machine with SELECT, UPDATE, reload, the end of a run, each poll, enqueue, file deletion, run-by-id, cancel and retry as separate steps |
| `Swap.dfy` | Swapping a transcode in: file moves over a map of paths, each of which may fail |
| `Calendar.dfy`, `Cron.dfy`, `Scheduler.dfy` | The Gregorian calendar, the search for a schedule's next minute, and the tick loop |
| `PluginOrder.dfy` | The depth-first sort of plugins by their requirements |
| `Languages.dfy`, `RuleMatch.dfy`, `RuleResults.dfy` | Language tags, match trees, and the merging of rule results |
| `RateLimit.dfy` | The sliding-window limiter |
| `PathMapping.dfy` | Path rewriting and its inverse |
| `DocSearch.dfy` | The inverted index of the documentation search |
| `Sse.dfy`, `SseStream.dfy` | Parsing server-sent events (section 9.2.6 of the WHATWG HTML Living Standard) and the reconnecting loop |
| `Auth.dfy` | Token rotation and invalidation (claims as in section 4.1 of RFC 7519) |
| `Sorting.dfy`, `Options.dfy` | A stable sort, and optional values |

Code that changes things step by step is a method or a class here, proved against a
specification function; the lemmas are about those functions and about whole runs. In the
queue, a worker owns an item from the UPDATE it won, or the mark of run-by-id, until it ends
the run. In `Auth`, the class invariant `Valid` holds of every history the methods can
produce; that a refresh token is redeemed at most once, never after sign-out, and no token is
used after its user's password changed is part of it.

## Where the code differs from its comments

The model follows the code. Each point names the lemma with the exact condition, or the
contract that states it, and an input where there is one.

- `next_run` says it returns a minute at or after its start; it is strictly after, and the
  documented minute exactly if the start does not match itself (`Cron.LeastAtOrAfterExactly`,
  `Cron.MidnightPassesOverItself`).
- "No match within 4 years means unsatisfiable" fails for 29 February around 2100 and for
  dates with a weekday (`Cron.GivesUpBefore2104`, `Cron.GivesUpBefore2046`). It holds exactly
  for specs that admit neither a yearly date nor 29 February
  (`Cron.GivingUpMeansImpossibleExactly`).
- "A single bad run doesn't stall a schedule": a due tick at which the search has no answer
  leaves the cursor, and the next tick dispatches the same minute again
  (`Scheduler.NoRefireExactly`, `Scheduler.UnsolvedRefires`, `Scheduler.LeapScheduleRefires`).
- "The original is untouched on any failure" holds only if the first move failed
  (`Swap.UntouchedExactly`). Without a backup both files can be lost (`Swap.LostExactly`).
- "No race" for run-by-id: two such calls can own one row (`QueueRuns.RunItemRace`,
  `QueueRuns.MarkIsSafeExactly`). A cancel followed by a retry does the same to a running row
  (`QueueRuns.CancelRetryRace`, `QueueRuns.RetryIsSafeExactly`).
- The limiter's "try again in N s" suffices only if under a second was left
  (`RateLimit.RetryAdviceExactly`, `RateLimit.RetryAdviceCanFail`).
- The backoff of the event stream restarts with each connection, not with each event
  (`SseStream.ResetsAsDocumentedExactly`, `SseStream.QuietConnectionResets`), and its marker
  comes with each accepted reconnection, not before each attempt
  (`SseStream.AttemptIsMarkedExactly`, `SseStream.FailedAttemptIsUnmarked`).
- `remap_path_inverse` is the inverse only where targets are neither nested nor shared in the
  wrong order (`PathMapping.InverseExactly`, `PathMapping.NestedTargetsCanFail`,
  `PathMapping.SharedTargetCanFail`).
- The search's remark that three matched terms beat one has an exact limit
  (`DocSearch.ThreeTermsBeatOneExactly`, `DocSearch.OneTermCanBeatThree`).
- The path that the plugin sort reports as a cycle leads into one, but closes it only if its
  end was not left behind in `visiting` before (`PluginOrder.Sorter.Visit`,
  `PluginOrder.ReportsPathIntoCycle`).

## Model

| member | source | states |
|---|---|---|
| `QueueRuns.ExclusiveStep` | backend/app/optimization/worker.py:131-210 | From any state in which every running item has exactly one owner, queued items have none and no item has two, a step of any worker, the poller, an enqueue, a deletion, a cancel, a retry or a run-by-id keeps it so if and only if it is not a retry or a run-by-id mark of a row somebody owns |
| `QueueRuns.ExclusiveRun` | backend/app/optimization/worker.py:131-210 | In every interleaving of any length and any number of workers, all states have exclusive ownership if and only if no step of it is such a retry or mark |
| `QueueRuns.OrderlyStep` | backend/app/optimization/worker.py:178-187 | Each step of the core protocol keeps ownership exclusive, owned rows running, row fields in agreement with the status, the poller's worklist distinct and still routed, and its counters balanced |
| `QueueRuns.OrderlyRun` | backend/app/optimization/worker.py:90-210 | Every state of every core run from the empty table has these properties: queued rows have no start and progress 0, running ones have a start, exactly terminal ones have an end, completed means 100 |
| `QueueRuns.OnlyOwnerEndsRun` | backend/app/optimization/worker.py:227-398 | Short of deleting the row, only a step of its owning worker takes an item out of running |
| `QueueRuns.TerminalForever` | backend/app/optimization/worker.py:763-805 | In every core run a terminal row is the same at every later moment, or deleted for good: its id is never used again |
| `QueueRuns.RoutedStays` | backend/app/optimization/poller.py:87-113 | In core runs nobody but the poller writes a row that it has loaded as routed, so its copies stay current until they are polled |
| `QueueRuns.MarkIsSafeExactly` | backend/app/optimization/worker.py:107-128 | The unconditional mark of run-by-id keeps ownership exclusive if and only if the row has gone or nobody has come to own it since the status was read |
| `QueueRuns.RunItemRace` | backend/app/optimization/worker.py:107-128 | A run in which two run-by-id calls own one row together, although the comment at line 213 says there is no race |
| `QueueRuns.RetryIsSafeExactly` | backend/app/api/v1/optimization.py:503-552 | Retrying a cancelled or finished row keeps ownership exclusive if and only if no worker still holds it |
| `QueueRuns.CancelRetryRace` | backend/app/api/v1/optimization.py:436-552 | A run in which a cancelled and retried row is claimed while its first worker still holds it, and that worker then completes the row under the second one |
| `QueueRuns.LossesAreInterference` | backend/app/optimization/worker.py:162-198 | At every moment of a claim the lost attempts, a doomed one included, are at most the status changes and deletions others have made since it began |
| `QueueRuns.GivesUpAfterSixteen` | backend/app/optimization/worker.py:162-210 | A claim that ends empty-handed on a non-empty queue has seen at least sixteen separate steps of others that changed a row's status or deleted a row |
| `QueueRuns.SixteenthLossEnds` | backend/app/optimization/worker.py:162 | The sixteenth lost attempt in a row, and no earlier one, ends the claim |
| `QueueRuns.WorkerStepsMean` | backend/app/optimization/worker.py:178-203 | The UPDATE wins exactly a row still queued, the reload keeps exactly a row still there and is a lost attempt otherwise, and the end of a run writes its decision and lets go |
| `QueueRuns.CancelAndRetryMean` | backend/app/api/v1/optimization.py:436-552 | A cancel ends a queued or running row at once; a retry puts an ended row at the end of the queue as if new |
| `QueueRuns.HandsItemOver` | backend/app/optimization/worker.py:512-640 | A run from the empty table in which an item is queued, claimed and routed |
| `QueueRuns.RoutedItemCompletes` | backend/app/optimization/poller.py:181-189 | It goes on to a poll that completes the item and counts it |
| `QueueTable.Table.SelectOldest` | backend/app/optimization/worker.py:163-171 | Returns a queued row no queued row is older than, or nothing exactly when none is queued |
| `QueueTable.Table.TryClaim` | backend/app/optimization/worker.py:178-190 | The row count is 1 exactly when the row exists and is queued; then it and nothing else becomes running |
| `QueueTable.Table.ClaimNext` | backend/app/optimization/worker.py:162-210 | With arbitrary writes by others between SELECT, UPDATE and reload: a row it returns was queued just before its own UPDATE, which set it running and touched no other row, and only others wrote after that; giving up means sixteen disturbances, an empty result otherwise means no queued row, and with no other writer it claims an oldest queued row |
| `QueueTable.ChangeIsCounted` | backend/app/optimization/worker.py:191-203 | If a row's status differs or the row is missing after others' writes, at least one of those writes was a status change or deletion |
| `QueueTable.Table.PollOne` | backend/app/optimization/poller.py:126-264 | Decides by the copy the pass loaded, stores only the attributes it changed and only in a row that still exists, and counts exactly one verdict, an exception or a vanished row included |
| `QueueTable.Table.Commit` | backend/app/optimization/poller.py:215-264 | Stores the changed attributes of one row, or raises without effect exactly when the row is gone |
| `QueueTable.Table.PollTurn` | backend/app/optimization/poller.py:94-113 | One round among other writers gives a verdict by the loaded copy and its answer, or an error for a vanished row |
| `QueueTable.Table.PollPass` | backend/app/optimization/poller.py:87-123 | With arbitrary writes by others before each poll, every row routed at the SELECT gets exactly one verdict, each counter is the number of items with that verdict, and checked = completed + failed + still running + errored whatever was raised; with no other writer exactly the routed rows whose provider says done end completed, exactly those whose provider says failed or whose integration is gone end failed, the counters are the numbers of these, and no other row changes |
| `QueueTable.AnswersDecide` | backend/app/optimization/poller.py:145-212 | Of the rows routed before a pass, exactly those whose provider says done are completed after it, and exactly those broken or without integration have failed |
| `QueueTable.VerdictsCount` | backend/app/optimization/poller.py:181-196 | The completed and failed counters are the numbers of these rows |
| `QueueItems.ReportsOneMore` | backend/app/optimization/poller.py:94-113 | Counting one more verdict keeps every counter equal to the number of items with that verdict |
| `QueueItems.ReportsBalance` | backend/app/optimization/poller.py:94-113 | Counters that count verdicts over a set of items always add up to the number checked |
| `QueueItems.VerdictMatchesRow` | backend/app/optimization/poller.py:135-212 | The counted verdict agrees with what the poll did to the row: completed and failed both ways, errored leaves the row alone, still running changes progress at most; and storing only changed attributes stores it all |
| `QueueItems.PollMeans` | backend/app/optimization/poller.py:145-212 | Which answer makes what of a routed row, and how it counts: done completes it, failed or a missing integration fails it, running, pending or unknown leaves it and counts as still running, no provider or an exception as an error |
| `QueueItems.ProgressMeans` | backend/app/optimization/poller.py:197-208 | Progress is the provider's number kept between 0 and 100, and nothing else changes |
| `QueueItems.UnroutableMeans` | backend/app/optimization/poller.py:136-148 | A row without upstream ids is left alone and counts as an error |
| `QueueItems.DecideExactly` | backend/app/optimization/worker.py:227-398 | When a run is put back, routed, skipped or completed, each exactly; it fails otherwise |
| `QueueItems.DecidedMeans` | backend/app/optimization/worker.py:763-805 | What each of these makes of a running row; none moves its place in the queue |
| `QueueItems.ReleaseUndoesClaim` | backend/app/optimization/worker.py:480-483 | Releasing a claimed row gives the queued row back unchanged |
| `Swap.NamesDiffer` | backend/app/optimization/worker.py:320-323 | For every input name and supported container the temporary and the backup name differ from the input, from each other and from the final name |
| `Swap.NamesOf` | backend/app/optimization/worker.py:323 | The names next to an input stem.ext: stem.auditarr.tmp.container, stem.ext.bak and stem.container |
| `Swap.Disk.Replace` | backend/app/optimization/worker.py:417-436 | An atomic move: all or nothing, failing when the source is missing or the call fails |
| `Swap.Disk.Unlink` | backend/app/optimization/worker.py:387-390 | Removes just that path, or fails without effect |
| `Swap.Disk.SwapIn` | backend/app/optimization/worker.py:385-444 | Passes through exactly the specified sequence of disk states for every combination of failing calls, and succeeds exactly when both moves do |
| `Swap.OriginalSurvives` | backend/app/optimization/worker.py:400-444 | With a kept backup, in every intermediate and final state, whichever calls fail, the original bytes are at the input or the backup path |
| `Swap.OnlyFourPathsChange` | backend/app/optimization/worker.py:400-444 | No state on the way differs outside the input, backup, temporary and final paths |
| `Swap.SuccessInstalls` | backend/app/optimization/worker.py:400-444 | Success puts the new bytes at the final path, clears the temporary one, keeps the original at the backup path if asked, and leaves nothing at a differing input path |
| `Swap.UntouchedExactly` | backend/app/optimization/worker.py:15-22 | The promise that a failure leaves the original untouched holds if and only if the first call was the one that failed; otherwise the input path is empty |
| `Swap.LostExactly` | backend/app/optimization/worker.py:400-444 | Without a backup, a state with neither the original nor the new file occurs if and only if the first call worked, the second failed and the clean-up worked (unless equal bytes already stood at a different final path) |
| `Cron.AsSet` | backend/app/automation/cron.py:20-41 | A field denotes everything when absent, else exactly its listed values; a wrong type, an empty list or one value out of range rejects it |
| `Cron.FieldMeans` | backend/app/automation/cron.py:20-41 | Both directions of what each kind of field admits and when it is refused |
| `Cron.ParseMeans` | backend/app/automation/cron.py:63-67 | A spec is usable exactly if its five fields are, each in its own range, and admits what they admit |
| `Cron.MatchesMeans` | backend/app/automation/cron.py:77-84 | A minute of a date matches exactly if the five sets hold its minute, hour, day, month and weekday |
| `Cron.WeekdaysFollow` | backend/app/automation/cron.py:83 | Each day's weekday follows the day's before, Sunday being 6 |
| `Cron.MondayIn2024` | backend/app/automation/cron.py:50 | 1 January 2024 is weekday 0 |
| `Cron.ParsedIsWellFormed` | backend/app/automation/cron.py:44-50 | An accepted spec has five non-empty sets of legal values |
| `Cron.Search` | backend/app/automation/cron.py:70-87 | The bounded loop answers with the first match of its window, or reports that none of the next 2,108,160 minutes matches, or runs past the last representable minute |
| `Cron.NextRun` | backend/app/automation/cron.py:53-87 | Refuses naive times, then specs with a bad field, and otherwise returns the first match of the window or the right failure |
| `Cron.AnswerIsDetermined` | backend/app/automation/cron.py:77-87 | Exactly one result is right for a spec and a start, and it is a success if and only if a match lies in the window |
| `Cron.LeastStrictlyAfter` | backend/app/automation/cron.py:67-70 | The answer is the least matching minute strictly after the start: a start that matches is passed over |
| `Cron.LeastAtOrAfterExactly` | backend/app/automation/cron.py:54 | The documented promise of a least match at or after the start is met if and only if the start is not itself a whole matching minute |
| `Cron.MidnightPassesOverItself` | backend/app/automation/cron.py:54 | A start at which it is not: asked at midnight, a spec for every midnight answers with the next one |
| `Cron.IteratingEnumerates` | backend/app/automation/cron.py:53-87 | Feeding each answer back lists every matching minute up to the last one found, in order and without gaps |
| `Cron.YearlyDateIsFound` | backend/app/automation/cron.py:72-87 | Without weekday restriction, a spec that admits a date of every year is answered from every start up to year 9998 |
| `Cron.WeekdayIsFound` | backend/app/automation/cron.py:72-87 | With every day of the month admitted, every weekday restriction is answered |
| `Cron.ImpossibleDateRaises` | backend/app/automation/cron.py:72-87 | A spec that admits no date never matches at all and always raises |
| `Cron.SatisfiableExactly` | backend/app/automation/cron.py:72-74 | Every spec, with or without weekday restriction, has some match before year 10000 if and only if it admits a yearly date or 29 February |
| `Cron.GivingUpMeansImpossibleExactly` | backend/app/automation/cron.py:72-74 | When the search gives up, the spec is unsatisfiable as the comment says if and only if it admits neither a yearly date nor 29 February; otherwise a later match exists |
| `Cron.YearWithWeekday` | backend/app/automation/cron.py:83 | Every date of every year falls on every weekday within ten years |
| `Cron.LeapYearWithWeekday` | backend/app/automation/cron.py:83 | 29 February falls on every weekday within 28 years |
| `Cron.LeapDayOnlyExactly` | backend/app/automation/cron.py:72-87 | A spec that only 29 February can meet, with or without weekday restriction, is answered if and only if that day of the start year or of the next year divisible by four is a leap day of an admitted weekday with a matching minute inside the window |
| `Cron.LeapDayFoundAwayFromCentury` | backend/app/automation/cron.py:72-87 | Away from a skipped leap year such a spec is answered if the coming 29 February has an admitted weekday, so always without weekday restriction |
| `Cron.GivesUpBefore2104` | backend/app/automation/cron.py:72-74 | From 1 March 2096 the search for 29 February gives up although 29 February 2104 matches, against the comment that this means unsatisfiable |
| `Cron.GivesUpBefore2046` | backend/app/automation/cron.py:72-74 | From 1 January 2035 the search for a Monday 1 January gives up although 1 January 2046 matches |
| `Cron.MatchesRepeat` | backend/app/automation/cron.py:77-85 | A minute matches if and only if the minute 400 years later does |
| `Cron.MatchInEveryWindow` | backend/app/automation/cron.py:77-85 | A spec that matches at all matches in every window of 400 years |
| `Calendar.DayNumberOfDateAt` | backend/app/automation/cron.py:77-86 | Walking n days from 1 January of year 1 reaches the date whose day number is n |
| `Calendar.DateAtOfDayNumber` | backend/app/automation/cron.py:77-86 | Every valid date is reached by the walk, at its day number |
| `Calendar.FourCenturies` | backend/app/automation/cron.py:77-86 | Dates and weekdays repeat after 400 years |
| `Scheduler.NextOfIsTheAnswer` | backend/app/automation/scheduler.py:63-66 | The cursor the specification uses is the one the search returns, for every result of the search |
| `Scheduler.Scheduler.PrimeNextRun` | backend/app/automation/scheduler.py:63-66 | Moves the cursor to the next match after now, or leaves everything alone exactly when the search raises |
| `Scheduler.Scheduler.Serve` | backend/app/automation/scheduler.py:79-108 | One due schedule: a run is recorded unless the dispatch raised, the status is set either way, and the cursor is always tried |
| `Scheduler.Scheduler.Tick` | backend/app/automation/scheduler.py:68-112 | Every due schedule is served exactly once whatever other jobs do, other schedules stay as they were, and exactly one run is recorded for each due schedule whose dispatch did not raise |
| `Scheduler.ServedMovesOn` | backend/app/automation/scheduler.py:99-104 | A served schedule's cursor moves to a strictly later match that lies after now |
| `Scheduler.ServedMeans` | backend/app/automation/scheduler.py:88-98 | The status recorded is completed exactly if the runner worked, the time of the run is kept unless the dispatch raised, and the schedule's own settings stay |
| `Scheduler.FirstDispatch` | backend/app/automation/scheduler.py:75-88 | A run of ticks dispatches exactly if the schedule is enabled and some tick has reached its cursor, and first for that cursor |
| `Scheduler.OnTrackStep` | backend/app/automation/scheduler.py:99-104 | One more dispatch keeps the dispatches at strictly rising matches below the cursor |
| `Scheduler.CursorOnlyAdvances` | backend/app/automation/scheduler.py:68-112 | Over every run of ticks with non-decreasing time that the search answers whenever the schedule is due, whatever the jobs do, the cursor stands on a match and dispatches happen at strictly rising matches, none later than the last tick |
| `Scheduler.NeverMoreThanMatches` | backend/app/automation/scheduler.py:68-112 | In such runs, the last tick answered or not, dispatches never outnumber the matching minutes that have passed |
| `Scheduler.UnsolvedRefires` | backend/app/automation/scheduler.py:99-110 | Over every run of ticks, a due schedule is dispatched for one and the same minute at every tick if and only if the search has no answer at any tick before the last |
| `Scheduler.NoRefireExactly` | backend/app/automation/scheduler.py:68-112 | Over every run of ticks, dispatches are at strictly rising minutes, so none twice, if and only if the search had an answer at every tick before the last at which the schedule was due |
| `Scheduler.LeapScheduleRefires` | backend/app/automation/scheduler.py:99-110 | A schedule for 29 February that two ticks on 1 March 2096 dispatch twice for one minute |
| `Scheduler.UnansweredRepeats` | backend/app/automation/scheduler.py:99-110 | A due tick without an answer is followed by a second dispatch for the same minute |
| `PluginOrder.ById` | backend/app/plugins/loader.py:979-983 | Every plugin id is a key, its own record's id, and no other key exists |
| `PluginOrder.LastPluginStays` | backend/app/plugins/loader.py:982 | Of several plugins with one id the last is kept |
| `PluginOrder.Sorter.Visit` | backend/app/plugins/loader.py:987-1003 | A visit either places its node and leaves the visiting set as it was, or raises with everything in the visiting set reaching a cycle; the reported path follows requirements, passes no node twice before its end, and closes a cycle if and only if its end was not left behind by an earlier visit |
| `PluginOrder.Sorter.VisitRoot` | backend/app/plugins/loader.py:1005-1011 | After its round a present node is placed or stuck, and stuck nodes still all reach a cycle; it logs an error exactly for a present node that is not placed, with a path as above |
| `PluginOrder.ReportsPathIntoCycle` | backend/app/plugins/loader.py:990-994 | Plugin a needs itself and plugin b needs a: the second error reports b -> a as a cycle |
| `PluginOrder.Sorter.Place` | backend/app/plugins/loader.py:1000-1003 | Appending a node whose present requirements are placed keeps the order topological |
| `PluginOrder.StuckBelow` | backend/app/plugins/loader.py:988-991 | Meeting a node of the visiting set, left over or on the stack, means that everything in it reaches a cycle |
| `PluginOrder.ChainToCycle` | backend/app/plugins/loader.py:988-999 | What leads by requirements to a node that reaches a cycle reaches it too |
| `PluginOrder.PlacedIsAcyclic` | backend/app/plugins/loader.py:1000-1012 | Nothing in a topological order can reach a cycle |
| `PluginOrder.TopologicalReads` | backend/app/plugins/loader.py:1000-1012 | A topological order holds the dictionary's own records, each id once and after all its present requirements |
| `PluginOrder.SplitByCycles` | backend/app/plugins/loader.py:979-1012 | When everything is placed or stuck, the placed are exactly those that cannot reach a cycle and the stuck exactly those that can |
| `PluginOrder.TopoSort` | backend/app/plugins/loader.py:979-1012 | For every dependency graph it terminates with exactly the present plugins that cannot reach a cycle, each once and after its present requirements; the nodes left in the visiting set are exactly those that reach one |
| `RateLimit.Limiter.Check` | backend/app/security/rate_limit.py:60-94 | The pruned deque accepts if and only if fewer than the allowed number of accepted attempts of the full history lie in the closed window ending now, appends exactly accepted times, and touches no other key |
| `RateLimit.Limiter.Evict` | backend/app/security/rate_limit.py:72-76 | Eviction keeps the full history and leaves in the deque exactly the attempts of the window |
| `RateLimit.BucketIsWindow` | backend/app/security/rate_limit.py:72-78 | The deque's length is the number of attempts of the full history inside the window |
| `RateLimit.RecordedWithinLimit` | backend/app/security/rate_limit.py:77-94 | One more decision keeps every window within the limit |
| `RateLimit.EveryWindowWithinLimit` | backend/app/security/rate_limit.py:60-94 | In every run no closed window of the configured length, ending at any time, holds more accepted attempts than allowed |
| `RateLimit.RetryAdviceExactly` | backend/app/security/rate_limit.py:77-92 | A client that waits as long as the message says gets through if and only if less than a second was left |
| `RateLimit.RetryAdviceCanFail` | backend/app/security/rate_limit.py:77-92 | A client told to wait 30 seconds that is refused again after 30 seconds |
| `PathMapping.ParseMappings` | backend/app/integrations/path_mapping.py:43-67 | The well-formed entries, stripped and stably sorted, longest source first; malformed input gives none |
| `PathMapping.ParsedExactly` | backend/app/integrations/path_mapping.py:52-63 | What one entry gives, under both spellings, and which give nothing |
| `PathMapping.ParsedAllJoin` | backend/app/integrations/path_mapping.py:51-63 | Entries are taken one by one in their order |
| `PathMapping.StrippedExactly` | backend/app/integrations/path_mapping.py:59-60 | Exactly the trailing slashes are taken off |
| `PathMapping.CoversExactly` | backend/app/integrations/path_mapping.py:75-79 | A source covers a path exactly if its components between slashes are the first of the path's |
| `PathMapping.StopsAtDirectory` | backend/app/integrations/path_mapping.py:70-82 | One mapping rewrites its source followed by nothing or a slash, and no longer name |
| `PathMapping.InverseStopsAtDirectory` | backend/app/integrations/path_mapping.py:85-111 | The same on the way back |
| `PathMapping.LongerNameIsNotCovered` | backend/app/integrations/path_mapping.py:75-76 | The documented example: /data/tv does not match /data/tvshows |
| `PathMapping.LongestWins` | backend/app/integrations/path_mapping.py:70-82 | The first entry with the longest source directory that covers the path is the one rewritten |
| `PathMapping.LongestIsApplied` | backend/app/integrations/path_mapping.py:64-82 | With distinct sources that is the one entry with the longest covering source |
| `PathMapping.AppliedExists` | backend/app/integrations/path_mapping.py:70-82 | Every covered path has such an entry |
| `PathMapping.UncoveredUnchanged` | backend/app/integrations/path_mapping.py:70-82 | A path no source covers comes back unchanged |
| `PathMapping.OrderDoesNotMatter` | backend/app/integrations/path_mapping.py:43-82 | For distinct sources every order of the entries rewrites every path alike |
| `PathMapping.LongestTargetWins` | backend/app/integrations/path_mapping.py:85-111 | On the way back the first entry with the longest covering target, in the re-sorted order, is the one rewritten |
| `PathMapping.InverseGoesThrough` | backend/app/integrations/path_mapping.py:102-111 | That is the first such entry in the order of the mappings themselves |
| `Sorting.SortedIsStable` | backend/app/integrations/path_mapping.py:104 | Sorting keeps elements that tie in their order |
| `PathMapping.InverseExactly` | backend/app/integrations/path_mapping.py:70-111 | For every covered path, there and back gives the path if and only if no longer target covers the rewritten path and the first entry with the applied target has the applied source |
| `PathMapping.UncoveredInverseExactly` | backend/app/integrations/path_mapping.py:70-111 | A path no source covers comes back if and only if no target covers it |
| `PathMapping.LongerTargetMisses` | backend/app/integrations/path_mapping.py:85-111 | Coming back through a longer target never gives the path |
| `PathMapping.InverseOfUnnested` | backend/app/integrations/path_mapping.py:70-111 | If no target covers another, there and back is the identity on every covered path |
| `PathMapping.NestedTargetsCanFail` | backend/app/integrations/path_mapping.py:85-111 | Two nested targets for which there and back ends elsewhere |
| `PathMapping.SharedTargetCanFail` | backend/app/integrations/path_mapping.py:85-111 | Two sources with one target, of which the second comes back as the first |
| `Languages.BuildAliasIndex` | backend/app/rules/language_normalize.py:93-101 | The loop builds the specified index, later entries overriding earlier ones |
| `Languages.LaterLanguageWins` | backend/app/rules/language_normalize.py:93-101 | A language added to any table takes all its names and leaves the others |
| `Languages.IndexHoldsNames` | backend/app/rules/language_normalize.py:93-101 | For tables in which no name is shared, the index holds exactly the aliases and codes, each with the code of its language |
| `Languages.IndexIsSettled` | backend/app/rules/language_normalize.py:93-101 | For every table in which no alias is another language's code, each code the index gives is its own entry |
| `Languages.OkTableIsUnambiguous` | backend/app/rules/language_normalize.py:44-90 | Tables whose names can be told apart by how they begin share no name, and are of that kind |
| `Languages.ShippedIndexIsSettled` | backend/app/rules/language_normalize.py:44-104 | The shipped table shares no name between languages and is of that kind, so every code its index gives is its own entry |
| `Languages.ShippedAliasIsFound` | backend/app/rules/language_normalize.py:44-133 | Every name of every shipped language, in any case and with any padding, is folded to the code of that language |
| `Languages.EnglishTags` | backend/app/rules/language_normalize.py:45 | en, eng, English and en-US are folded to en |
| `Languages.NormalizeIsIdempotent` | backend/app/rules/language_normalize.py:107-133 | A normal form is non-empty and its own normal form |
| `Languages.NormalizeExactly` | backend/app/rules/language_normalize.py:119-133 | A tag is folded to the code of the language it names, else of the language the part before its first hyphen names, else to its own folded text; blank exactly to nothing |
| `Languages.AliasIsFound` | backend/app/rules/language_normalize.py:119-129 | For every table without shared names, each name in any case and with any padding is folded to its language's code |
| `Languages.PrimaryExactly` | backend/app/rules/language_normalize.py:130 | The part before the first hyphen, or all |
| `Languages.StripTakesBlanks` | backend/app/rules/language_normalize.py:121 | Exactly the blanks around a text are taken off |
| `Languages.LowerExactly` | backend/app/rules/language_normalize.py:121 | Lower-casing identifies exactly the texts that differ in case only |
| `Languages.FoldIgnoresCaseAndPadding` | backend/app/rules/language_normalize.py:121 | Case and padding do not matter to the folded text |
| `Languages.NormalizeAll` | backend/app/rules/language_normalize.py:136-152 | The loop gives the specified list of first occurrences |
| `Languages.NormalFormsExactly` | backend/app/rules/language_normalize.py:136-152 | That list has no duplicates and holds exactly the normal forms of the input |
| `Languages.NormalFormsGrow` | backend/app/rules/language_normalize.py:136-152 | The order of first occurrences is kept: more tags only add at the end |
| `Languages.SameTagsNormalizeAlike` | backend/app/rules/language_normalize.py:136-152 | Respelling tags by aliases gives the same list |
| `RuleMatch.SameLanguagesNormalizeAlike` | backend/app/rules/evaluator.py:191-221 | Values that differ only in the spelling of languages have the same normal form as a file's field and as an operand |
| `RuleMatch.ConditionIgnoresAliases` | backend/app/rules/evaluator.py:191-261 | So a condition gives the same truth value or exception for every operator |
| `RuleMatch.AliasesDoNotMatter` | backend/app/rules/evaluator.py:180-261 | Respelling languages anywhere in a file and anywhere in a match tree never changes what the tree gives, be it true, false or an exception |
| `RuleMatch.AllMeans` | backend/app/rules/evaluator.py:181-182 | `all` holds exactly if every child does; otherwise the first child that does not decides, false or an exception |
| `RuleMatch.AnyMeans` | backend/app/rules/evaluator.py:183-184 | `any` fails exactly if every child does; otherwise the first child that does not decides, true or an exception |
| `RuleMatch.EqualMeans` | backend/app/rules/evaluator.py:227-230 | Which values are equal, truth values being numbers |
| `RuleMatch.ListsEqualExactly` | backend/app/rules/evaluator.py:227-230 | Lists are equal exactly element by element |
| `RuleMatch.EqMeans` | backend/app/rules/evaluator.py:227-230 | eq and ne compare the field, or nothing where it is missing, with the operand |
| `RuleMatch.ComparisonsMean` | backend/app/rules/evaluator.py:234-241 | lt, lte, gt and gte compare the field on the left with the operand on the right, as numbers |
| `RuleMatch.ComparisonRaisesExactly` | backend/app/rules/evaluator.py:264-268 | They raise exactly on a side that is no number and reads as none |
| `RuleMatch.MissingFieldFails` | backend/app/rules/evaluator.py:231-233 | A file without the field meets no other condition |
| `RuleMatch.InMeans` | backend/app/rules/evaluator.py:242-243 | in holds exactly if some element of the operand equals the field |
| `RuleMatch.ContainsMeans` | backend/app/rules/evaluator.py:252-255 | On a list, contains holds exactly if some element equals the operand, not_contains exactly if none does |
| `RuleMatch.ContainsTextMeans` | backend/app/rules/evaluator.py:252-255 | On a text, exactly if the operand is a piece of it; an empty text contains nothing |
| `RuleMatch.AnyOfMeans` | backend/app/rules/evaluator.py:256-261 | any_of holds exactly if some element of the operand equals some of the field, none_of exactly if none does |
| `RuleMatch.AnyOfOneMeans` | backend/app/rules/evaluator.py:256-261 | An operand that is no list counts as a list of itself |
| `RuleMatch.RegexMeans` | backend/app/rules/evaluator.py:244-251 | regex needs two texts and is decided by the search |
| `RuleMatch.ContainsLanguageExactly` | backend/app/rules/evaluator.py:204-256 | A contains condition on a language field holds if and only if some tag of the file has the normal form of the tag looked for |
| `RuleMatch.AnyOfLanguageExactly` | backend/app/rules/evaluator.py:204-261 | any_of on a language field holds exactly if some tag of the file and some tag looked for have one normal form, none_of exactly if not |
| `RuleMatch.ContainsFindsAlias` | backend/app/rules/evaluator.py:193-201 | With the shipped table, a language is found whatever name and case the rule and the file use for it |
| `RuleMatch.NoListNoLanguage` | backend/app/rules/evaluator.py:209 | A file without a list of languages contains none |
| `RuleMatch.BlankIsNotContained` | backend/app/rules/evaluator.py:217-218 | A blank tag is never contained |
| `RuleResults.EvaluationResult.ApplyAction` | backend/app/rules/evaluator.py:271-341 | Changes the result as its action says: severity only upwards, tags without repeats, everything else appended; the rank never falls |
| `RuleResults.EvaluationResult.MergeInto` | backend/app/rules/evaluator.py:133-163 | Merges into the other result as specified and leaves its own alone |
| `RuleResults.Evaluate` | backend/app/rules/evaluator.py:166-177 | Says whether the rule matches or its tree raises; a matched rule's result is all its actions in order, any other result is empty |
| `RuleResults.RanksAscend` | backend/app/rules/schema.py:33-40 | The six severities rank in their order, all above none |
| `RuleResults.RuleTagsAndSeverity` | backend/app/rules/evaluator.py:271-341 | A rule gives exactly the tags of its tag actions, the highest severity of its severity actions, and a lookup exactly if it has that action |
| `RuleResults.RuleRequests` | backend/app/rules/evaluator.py:271-341 | Optimizations, notices and searches are asked for once per action, in order |
| `RuleResults.RuleDeletes` | backend/app/rules/evaluator.py:271-341 | Each delete action asks once for the file's own path, with its reason |
| `RuleResults.ReasonMeans` | backend/app/rules/evaluator.py:271-341 | A missing or empty reason becomes the standard one |
| `RuleResults.EvaluateFile` | backend/app/services/rules_service.py:129-160 | The aggregate is the merge of the matched rules' results; an exception of one rule ends the evaluation |
| `RuleResults.MatchedExactly` | backend/app/services/rules_service.py:153-158 | The results merged are exactly those of the rules whose trees hold |
| `RuleResults.FileGetsWhatRulesAsk` | backend/app/services/rules_service.py:129-160 | A file gets exactly the tags of the matching rules' tag actions, a lookup exactly if one asks for it, and the highest severity that one sets, or ok, with the label of that rank |
| `RuleResults.MergedAllExactly` | backend/app/rules/evaluator.py:133-163 | The aggregate's rank is the maximum over ok and the matched ranks, its label agrees with it, its tags are the duplicate-free union, its lookup flag the disjunction |
| `RuleResults.MergedAllGathers` | backend/app/rules/evaluator.py:133-163 | Optimizations, notices, searches and deletes with their reasons are gathered completely and without loss, as multisets |
| `RuleResults.MergeOrderDoesNotMatter` | backend/app/rules/evaluator.py:133-163 | Merging any permutation of results gives the same severity, tags, flag and multisets |
| `RuleResults.MatchedRaisesExactly` | backend/app/services/rules_service.py:153-158 | Evaluation ends by an exception if and only if some rule's tree raises |
| `RuleResults.MatchedGathers` | backend/app/services/rules_service.py:153-158 | The results to merge are each matching rule's own, once per rule |
| `RuleResults.RuleOrderDoesNotMatter` | backend/app/services/rules_service.py:129-160 | Permuting the rules changes neither whether evaluation raises nor the decision for the file |
| `RuleResults.DeletesAreAcknowledged` | backend/app/rules/schema.py:478-503 | A valid rule's result deletes if and only if the rule carries the acknowledgement, and only the file itself |
| `RuleResults.OnlyAcknowledgedDeletes` | backend/app/rules/schema.py:478-503 | For valid rules, a file is deleted if and only if some matched rule carries the acknowledgement, and no other file ever is |
| `DocSearch.SearchIndex.Rebuild` | backend/app/documentation/search.py:63-67 | The pages are those of the last entry of each id, and a token leads to an id exactly when some entry of that id, replaced or not, held the token |
| `DocSearch.SearchIndex.IndexPage` | backend/app/documentation/search.py:69-83 | Stores the page and adds its id under exactly its tokens, so that every token of every stored page keeps leading to it |
| `DocSearch.LastPageWins` | backend/app/documentation/search.py:77 | Of several pages with one id the last is stored |
| `DocSearch.SearchIndex.Candidates` | backend/app/documentation/search.py:100-102 | Exactly the pages some term leads to |
| `DocSearch.SearchIndex.ScoreOf` | backend/app/documentation/search.py:127-146 | The loop computes the weighted total times the bonus for matched terms |
| `DocSearch.OccurrencesWeigh` | backend/app/documentation/search.py:26-29 | One more occurrence of a term adds six in the title, four as a tag, three in the summary and one in the text, and nothing for other terms |
| `DocSearch.OneMoreTerm` | backend/app/documentation/search.py:127-139 | Each query term, repeats included, adds its weight and counts as matched if the page holds it |
| `DocSearch.ScoreMeans` | backend/app/documentation/search.py:140-146 | Every matched term after the first adds two fifths of the total |
| `DocSearch.FieldsMean` | backend/app/documentation/search.py:69-76 | A page is searched by its tokens and its tags in lower case |
| `DocSearch.ScoresExactly` | backend/app/documentation/search.py:127-146 | A page scores more than nothing if and only if it holds some query term |
| `DocSearch.SearchIndex.Search` | backend/app/documentation/search.py:86-125 | For every index the code can reach and every query and limit, stale postings or not, the answer is the front of a ranking of exactly the hits that scoring every page one by one finds |
| `DocSearch.ScansAgree` | backend/app/documentation/search.py:107-123 | Scans that visit the same scoring pages find the same hits, in whatever order |
| `DocSearch.ScanExactly` | backend/app/documentation/search.py:107-123 | The hits are exactly the known, shown pages that score, each with its own id, title and category |
| `DocSearch.RankingIsTotal` | backend/app/documentation/search.py:124 | The ranking is a total preorder |
| `DocSearch.TiesExactly` | backend/app/documentation/search.py:124 | Two hits tie if and only if their scores and lower-case titles agree |
| `DocSearch.FrontsAgree` | backend/app/documentation/search.py:86-125 | Every such answer agrees in score and lower-case title, place by place, with the sorted linear scan cut at the limit |
| `DocSearch.BestFirst` | backend/app/documentation/search.py:124-125 | The answer shows scores that never rise, titles of equal scores in dictionary order, and no hit left out beats one shown |
| `DocSearch.LexExactly` | backend/app/documentation/search.py:124 | The dictionary order of lower-case titles |
| `DocSearch.SliceMeans` | backend/app/documentation/search.py:125 | How many hits a limit shows, a negative one counting from the end |
| `DocSearch.FrontIsUnique` | backend/app/documentation/search.py:86-125 | Without ties the answer is the sorted linear scan, cut at the limit |
| `DocSearch.ThreeTermsBeatOneExactly` | backend/app/documentation/search.py:140-146 | A page with three of the terms beats a page with one if and only if the one term's total is below 1.8 times theirs |
| `DocSearch.OneTermCanBeatThree` | backend/app/documentation/search.py:140-142 | A single title word that beats three words in the text, against the comment |
| `Sse.SplitJoin` | backend/app/core/sse.py:113-114 | Joining a block's lines and splitting the text again gives the lines back |
| `Sse.BreakEndsLine` | backend/app/core/sse.py:113 | Any break ends a line, and CR LF is one |
| `Sse.ParseBlock` | backend/app/core/sse.py:102-145 | The parser loop gives the fold over the block's lines |
| `Sse.LineMeans` | backend/app/core/sse.py:120-128 | Name and value of a line: split at the first colon, less one leading space; without a colon all is name |
| `Sse.FieldsMean` | backend/app/core/sse.py:130-138 | Data lines add up, event, id and a numeric retry replace, anything else does nothing, with or without the space |
| `Sse.EventNeedsData` | backend/app/core/sse.py:140-141 | A block gives an event exactly if it has a data line |
| `Sse.ReadEvents` | backend/app/core/sse.py:246-258 | The line loop yields the events of the blocks that an empty line ended |
| `Sse.CommentsAreIgnored` | backend/app/core/sse.py:117-119 | Comment lines anywhere in a block change nothing |
| `Sse.ParsePrintedInt` | backend/app/core/sse.py:134-138 | Every printed integer is read back |
| `Sse.ParseIgnoresPadding` | backend/app/core/sse.py:134-138 | Leading blanks do not matter |
| `Sse.ParseReadsSign` | backend/app/core/sse.py:134-138 | Digits are read with or without a sign |
| `Sse.ParseRefuses` | backend/app/core/sse.py:134-138 | A text with anything else inside is refused |
| `Sse.EventLinesRead` | backend/app/core/sse.py:102-145 | Parsing the lines printed for an event gives back the event, data with several lines and leading spaces included |
| `Sse.BlockYields` | backend/app/core/sse.py:246-258 | A printed block yields its event and leaves nothing behind for the next one |
| `Sse.RoundTrip` | backend/app/core/sse.py:102-145 | Reading any printed sequence of events, with comments and keepalive blocks anywhere, gives back exactly that sequence |
| `Sse.EventHasBlock` | backend/app/core/sse.py:102-145 | Every event without stray line breaks has such a printing |
| `SseStream.StreamEvents` | backend/app/core/sse.py:191-313 | For every sequence of connection attempts the output is, attempt by attempt, its marker, the events of its own lines, and its wait or exception, up to the first fatal one |
| `SseStream.RaisesExactly` | backend/app/core/sse.py:213-220 | The stream ends with an exception exactly if some attempt is refused with a 4xx or cancelled, and with nothing after it; everything else is retried |
| `SseStream.OnePass` | backend/app/core/sse.py:195-313 | One attempt's output, from only the first-connection flag and the backoff index |
| `SseStream.WaitsNeverShrink` | backend/app/core/sse.py:309-313 | Within a streak of failures the backoff index counts the failures and the waits never get shorter |
| `SseStream.WaitIsCappedDoubling` | backend/app/core/sse.py:61-63 | The wait is one second, doubled with every failure, at most thirty |
| `SseStream.ResetsAsDocumentedExactly` | backend/app/core/sse.py:43-44 | The backoff counter is the documented one, restarted by events, if and only if it has run since the start or since a connection that brought an event; otherwise it is smaller and the wait no longer |
| `SseStream.QuietConnectionResets` | backend/app/core/sse.py:43-44 | After two failures a connection without events is followed by a wait of one second where four are documented |
| `SseStream.UnfinishedBlockIsDropped` | backend/app/core/sse.py:243-262 | Lines after the last empty line yield nothing |
| `SseStream.EmptyLineCuts` | backend/app/core/sse.py:243-258 | Lines after an empty line are read as if the stream began there |
| `SseStream.MarkerExactly` | backend/app/core/sse.py:227-236 | The marker stands first in the output of every successful connection after the first, at the server's own events of that type, and nowhere else |
| `SseStream.AttemptIsMarkedExactly` | backend/app/core/sse.py:156-160 | After the first connection a reconnect attempt yields the marker, as documented for every attempt, if and only if it is accepted |
| `SseStream.FailedAttemptIsUnmarked` | backend/app/core/sse.py:156-160 | A failed reconnect attempt that yields none |
| `SseStream.MarkerIsUnmistakableExactly` | backend/app/core/sse.py:89-99 | In a connection's output the synthetic marker is the only one if and only if the server sends no event of that type |
| `SseStream.ServerCanSendMarker` | backend/app/core/sse.py:89-99 | A server's own event of that type is passed on and cannot be told apart |
| `Auth.AuthService.IssuePair` | backend/app/services/auth_service.py:451-472 | Two tokens with new ids at the user's version, and one live session; for an active user each is usable exactly until it expires |
| `Auth.AuthService.Login` | backend/app/services/auth_service.py:136-174 | Granted if and only if the account exists, is active and the password is right; the tokens are then usable exactly until they expire |
| `Auth.AuthService.RefreshPair` | backend/app/services/auth_service.py:176-203 | Granted if and only if the token is genuine, unexpired, a refresh token, at the user's version, of an active user, with a live session; then it can never be redeemed again, and the new pair is usable exactly until it expires |
| `Auth.AuthService.Logout` | backend/app/services/auth_service.py:205-223 | Ends just the presented token's session, which can then never be redeemed, and does nothing for a token that does not decode |
| `Auth.AuthService.LogoutAll` | backend/app/services/auth_service.py:225-236 | Revokes every session of the user, changes no other, and counts the live ones: no token of the user can be redeemed any more, and for others nothing changes |
| `Auth.AuthService.ChangePassword` | backend/app/services/auth_service.py:238-264 | Works if and only if the current password is right and the new one has twelve characters and is not blank; then every session of the user is revoked, and no token issued to the user before can be redeemed or accepted |
| `Auth.AuthService.RequestReset` | backend/app/services/auth_service.py:324-409 | Replaces the user's reset tokens by one new one, for active users only, and leaves those of others |
| `Auth.AuthService.ConfirmReset` | backend/app/services/auth_service.py:411-449 | Works if and only if the token is unused, unexpired, of an active user and the password good; then the token is used, every session of the user is revoked, and no token issued to the user before can be redeemed or accepted |
| `Auth.AuthService.Authenticate` | backend/app/api/auth_deps.py:98-148 | An access token is accepted if and only if it decodes, its user is active and its version is current |
| `Auth.AuthService.Revoke` | backend/app/services/repositories/session.py:25-32 | Revokes a live session, and is a no-op on a missing or revoked one |
| `Auth.TablesMove` | backend/app/services/auth_service.py:176-264 | Any change of the tables in which versions do not fall and used-up sessions and resets stay so keeps the whole history sound |
| `Auth.Happens` | backend/app/services/auth_service.py:176-264 | Any event the tables admit keeps the history sound: refresh tokens redeemed at most once, in time and not after sign-out, reset tokens used at most once, only access tokens accepted, none forged, none used after its user's password changed |
| `Auth.NeverStaleAppend` | backend/app/api/auth_deps.py:130-134 | Accepting only tokens at the current version never accepts one issued before an invalidation |
| `Auth.OutdatedAppend` | backend/app/services/auth_service.py:238-264 | After an invalidation every token issued to that user is behind the user's version |
| `Auth.UsedTokensAreNew` | backend/app/services/auth_service.py:411-449 | In every reachable history, a token accepted or redeemed after its user's password changed was issued after that change |
| `Auth.RedeemedTokensAreNew` | backend/app/services/auth_service.py:225-236 | In every reachable history, a token redeemed after its user signed out everywhere was issued after that |
| `Auth.NeverAfterSignOutAppend` | backend/app/services/auth_service.py:225-236 | Redeeming only tokens not signed out since they were issued keeps the history so |
| `Auth.SignedOutAppend` | backend/app/services/repositories/session.py:34-41 | Revoking every session of a user leaves no earlier refresh token of theirs with a live one |

## Left out

- Transcoding, probing and output validation: a run of them is an arbitrary success or failure.
- Database sessions and failing commits: every commit works, and a service call of `Auth` is one atomic transaction, so two simultaneous refreshes of one token are not modelled.
- Queue fairness: a released row keeps its place, so it may be picked again for ever; two pollers at once; item metadata, sizes and error texts.
- Refreshing a queued row's place: `upsert_queued` reads the status and writes `queued_at` later; here that is one step, so a refresh that overtakes a claim is not modelled.
- QueueTable.Table.PollPass: what a commit that raised does to the other rows the session had loaded is not modelled; their copies stay as they were.
- Swap.NamesDiffer: paths have a directory and a name; a path without a name, and links or case-insensitive file systems, are not modelled.
- Time zones: minutes are UTC. Only `int(...)` of list elements is an input of `Cron.AsSet`.
- Scheduler.Tick: the schedules are those of `list_due`, enabled with a cursor at or before now; an exception that escapes a dispatch after its run was stored counts as one before it.
- Manual runs of jobs, the job catalogue, and `validate_cron` on its own.
- RateLimit: times and window are reals without rounding, and the clock does not run backwards.
- Languages, RuleMatch, DocSearch: case and white space are ASCII; regular expressions and `float(str)` are parameters; numbers are reals without infinities.
- Sse.ParsePrintedInt: integers are read from ASCII digits only.
- Tokenising, HTML stripping and excerpts of the documentation search: a page carries its tokens.
- `remap_path_chain`, which only composes the two rewritings, and the drift report.
- Password hashing, token signing and entropy: a token decodes exactly if this service issued it, and new ids are new. Registration, profile updates, audit records and e-mail.
- Plugin discovery, installing and reloading; the event bus, notifications, web sockets, housekeeping, integrations, the HTTP API apart from cancel and retry, and the frontend.
