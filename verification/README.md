# Verified model of the gbrain tooling

This project models the scheduling, ledger, planning and text-rewriting logic of two
programs kept in one repository: `gbrain`, a knowledge-base tool whose background worker
fans out maintenance jobs, and `source-mock/ingest`, the uploader that feeds it pages. Each
module is one source file or one concern of it, and its properties are for all inputs, all
runs or all reachable states.

| module | what it is about |
|---|---|
| `Sharding`, `Graham` | splitting test files over shards by longest processing time, and how far that is from the best possible split |
| `MineWeights` | the per-file weights mined from a timing log |
| `Fanout`, `Starvation` | the autopilot's choice of sources each tick: freshness, failure cooldown, order and cap; and runs of many ticks, with successes and failures |
| `AutoDrain` | the daily-capped submission of backlog drains |
| `Ledger`, `LedgerCodec` | the append-only ledger as text, with writes cut short at any character |
| `IngestProtocol` | many ingest runs interleaving over one lockfile and one ledger, with kills and stale locks |
| `IngestRun` | what one run does under the lock: work list, sends, rows, counters, exit code |
| `Sender` | the retry loop of one upload |
| `Scanner` | the directory walk, page slugs and slug collisions |
| `Migrations` | the migration runner over its history: status, plan, run loop, retry markers |
| `Connect` | the shell printer for pasted commands, against a reader of the POSIX shell's quoting rules (sections 2.2.1, 2.2.2, 2.3 and 2.6.7 of the POSIX.1-2017 Shell Command Language) |
| `Backlinks`, `BacklinkPlacement`, `BacklinkScan`, `PageText` | finding missing back-links, inserting them into pages, and where they land |
| `AgentLogs` | merging two event streams and following them with a cursor |
| `SelectE2e` | the glob compiler and the selection of end-to-end tests |
| `Collections.dfy` | insertion-ordered maps, grouping, stable sorting, multiset facts, the order on strings |

Code that updates fields, maps, lists or arrays in loops is written as methods with loops
(`Sharding.FillShards` on arrays, `Ledger.LedgerFile`, `IngestRun.LogDir`,
`Migrations.Runner`, `Fanout.JobQueue`, `AutoDrain.JobTable`, `Backlinks.BrainDir` as
classes). Each is proved equal to a specification function, and the properties are proved
of that function. Automatic induction is switched off, so every induction is written out.
Nothing here runs either program.

## Where the code and its own words differ

The model follows the code; the members named state the difference.

- `imbalanceRatio` is documented to be Infinity whenever a shard is empty. It is Infinity
  exactly when the lightest load is zero and the heaviest is not (`Sharding.ImbalanceIsInfinite`);
  two empty shards give 1 (`Sharding.EmptyShardsAreBalanced`).
- The cold-start guard of `partition` also fires when the median of the present weights is
  zero, not only when the map is empty.
- The migration loop is commented as running in registry order. It runs every partial one
  before any pending one, which is registry order exactly when no pending version is
  registered before a partial one (`Migrations.RunIsInRegistryOrder`, `Migrations.RegistryOrderFails`).
- The runner is said to own the ledger write and to stop at three consecutive partials. The
  orchestrators 0.16.0 and 0.18.0 still record the status they return, so two runs of one of
  them can leave four trailing partials. The bound of three holds over all sessions exactly when
  no version that can be started records its own partial (`Migrations.ThreePartialsExactly`,
  `Migrations.FourPartialsOf016`).
- `--migration v` says "No migration registered" for a version that is registered but wedged
  (`Migrations.SpecificVersionRefused`, `Migrations.WedgedVersionIsRefused`).
- A second ingest run over the same files is not always quiet: the first row appended after
  a torn tail is lost, so the first file of that run may be sent again
  (`IngestRun.SecondRunIsQuiet` gives the exact condition, `IngestRun.TornTailMakesSecondRunSend`
  a case).
- The ledger append promises that a crash never loses a send. A cut may lose its own row
  and, through gluing, the next one (`Ledger.OneCrash`, `Ledger.LossPerCrash`).
- The date pattern `^\d{4}-\d{2}-\d{2}$` also lets through a name ending in a line feed;
  page slugs stay unambiguous all the same (`Scanner.PageSlugInjective`).
- The test selector promises everything for an unmapped source change. Without an escape hatch
  it does so exactly when the other changed files call for no test at all or for precisely all
  of them (`SelectE2e.UnmappedChangeFallsBack`); `SelectE2e.UnmappedChangeCanBeNarrowed` leaves a
  test out.
- `dumpSince` is documented to print events at or after the cursor. It prints those after it,
  so an event that arrives late with the cursor's own time is never printed
  (`AgentLogs.PrintedOnceOrNever`, `AgentLogs.LateEventIsLost`).
- The auto-drain's comment says the cap still bounds a tick whose count failed. It bounds
  that tick, not the day: from a fresh day a schedule of passes keeps the cap, whatever the
  sources, exactly when no active pass after the first acts on an unread count
  (`AutoDrain.CapHoldsExactly`, `AutoDrain.UnreadCountCanExceedCap`).
- A back-link entry is meant for the timeline section. The code looks for the heading anywhere
  in the text, so prose or a quotation can mislead it. `BacklinkPlacement.EntryLandsInTimeline`
  says exactly which pages do; two of them are `BacklinkPlacement.MentionedHeadingMisleads` and
  `BacklinkPlacement.QuotedHeadingMisleads`.
- The page slug drops the first ".md" of a path, not the extension, so several pages can go by
  one slug, and the fix writes to slug plus ".md" while the scan reads the page listed last. A
  fix closes every gap found, whatever the pages say, exactly when each person's or company's
  slug leads to the page of that name (`BacklinkScan.EveryFoundGapIsClosed`). The reported count
  of fixed gaps can be complete all the same (`BacklinkScan.EveryFoundGapIsCounted`,
  `BacklinkScan.NamesakeStaysOpen`, `BacklinkScan.InnerExtensionStaysOpen`).
- Oldest-first dispatch is meant to reach every source. A source that is stale and out of
  cooldown is dispatched in every long enough run whose failures stay inside a given set exactly
  when fewer than a cap's worth of the sources ahead of it are in that set
  (`Starvation.ServedExactly`). While failures are still cooling down, it is dispatched even if
  everything fails (`Starvation.ServedWhileFailuresCool`).
- The cooldown is not exponential in the number of failures so far, because only those
  inside the window count (`Fanout.WindowShortensCooldown`).

## Model

| member | source | states |
|---|---|---|
| Sharding.MedianSplits | gbrain/scripts/sharding.ts:86-97 | half of the values lie at or below the median and half at or above it |
| Sharding.MedianIsCanonical | gbrain/scripts/sharding.ts:90-97 | the median depends on the values as a multiset only |
| Sharding.MinIndex | gbrain/scripts/sharding.ts:173-176 | the inner loop finds the lowest index of a least total |
| Sharding.FillShards | gbrain/scripts/sharding.ts:171-179 | the loop over mutable totals and shards ends in the state of the greedy assignment |
| Sharding.Partition | gbrain/scripts/sharding.ts:124-181 | range errors exactly for a bad shard count or a bad override; otherwise the specified shards |
| Sharding.UnlistedWeighsMedian | gbrain/scripts/sharding.ts:136-157 | without an override a file without a weight counts with the middle one of the listed weights in sorted order, or with half the sum of the two middle ones, and with 1 if that is zero or nothing is listed |
| Sharding.OverrideWeighsUnlisted | gbrain/scripts/sharding.ts:136-164 | an override is the weight of every file without one: listing those files at it gives the same shards |
| Sharding.PartitionRefuses | gbrain/scripts/sharding.ts:130-144 | refused iff the shard count is not positive, or else there are files and the override is negative |
| Sharding.LoopIsLpt | gbrain/scripts/sharding.ts:170-180 | the loop's shards and totals are the bins of the greedy assignment and their loads, in every state |
| Sharding.PartitionKeepsFiles | gbrain/scripts/sharding.ts:118-122 | n shards that together are a rearrangement of the files |
| Sharding.PartitionIsCanonical | gbrain/scripts/sharding.ts:111-116 | any permutation of the input gives the same shards, file for file |
| Graham.HeavyItemFits | gbrain/scripts/sharding.ts:9-11 | an item heavier than a third of a feasible makespan never pushes the least loaded bin past it |
| Graham.GreedyWithinFourThirds | gbrain/scripts/sharding.ts:9-11 | Graham's bound: against any assignment with all loads at most t, 3n times each greedy load is at most (4n-1) times t |
| Sharding.PartitionWithinFourThirds | gbrain/scripts/sharding.ts:9-11 | for every competing partition of the same files into n shards, 3n times the largest load is at most (4n-1) times the competitor's |
| Graham.LastItemImbalance | gbrain/scripts/sharding.ts:171-179 | a bin without its last item weighs no more than any other bin |
| Sharding.PartitionBalance | gbrain/scripts/sharding.ts:171-179 | heaviest and lightest shard differ by at most the last file of the heaviest |
| Sharding.PartitionImbalance | gbrain/scripts/sharding.ts:190-199 | the ratio of a computed partition exceeds one by at most one file's weight over the lightest load |
| Sharding.RatioIsHeaviestOverLightest | gbrain/scripts/sharding.ts:190-199 | with some load in every shard, the ratio times the lightest load is the heaviest |
| Sharding.ImbalanceIsInfinite | gbrain/scripts/sharding.ts:183-199 | Infinity exactly when the lightest load is zero and the heaviest is positive |
| Sharding.EmptyShardsAreBalanced | gbrain/scripts/sharding.ts:183-199 | two empty shards have ratio 1, not Infinity |
| Sharding.EqualWeightsDealtOut | gbrain/scripts/sharding.ts:149-157 | with one positive weight the file at sorted position k goes to shard k mod n, for every k |
| Sharding.ColdStartIsRoundRobin | gbrain/scripts/sharding.ts:149-157 | with no weights and no override the partition is round-robin in path order |
| MineWeights.ComputeWeights | gbrain/scripts/mine-shard-weights.ts:158-186 | grouping by job and scanning neighbours gives the specified weight map, key order included |
| MineWeights.WeightIsLargestGap | gbrain/scripts/mine-shard-weights.ts:152-186 | a file has a weight iff some job ran it for a non-negative time, and the weight is the largest such time |
| MineWeights.SerializeWeights | gbrain/scripts/mine-shard-weights.ts:194-201 | the same entries with the keys sorted |
| MineWeights.InterleavingIsIrrelevant | gbrain/scripts/mine-shard-weights.ts:145-201 | logs with the same per-job streams give the same weights and the same serialized key order |
| MineWeights.WeightsAddUpToWallTime | gbrain/scripts/mine-shard-weights.ts:146-150 | with forward clocks and no file twice, the weights sum to each job's last start minus first start, and exactly one file a job has no weight |
| Fanout.HeldExactly | gbrain/src/commands/autopilot-fanout.ts:217-291 | being held is the elapsed time since the last failure compared with the cooldown of the failures still in the window |
| Fanout.HoldDoubles | gbrain/src/commands/autopilot-fanout.ts:205-228 | with k failures in the window a source is held iff the elapsed time is below base, 2, 4, 8 or 16 times base for k = 1, 2, 3, 4 or at least 5, and below the cap; with none it is not held |
| Fanout.ThirdFailureHoldsForty | gbrain/src/commands/autopilot-fanout.ts:205-209 | failures at minutes 0, 5 and 10 hold a source until minute 50 under the default settings |
| Fanout.HoldBounds | gbrain/src/commands/autopilot-fanout.ts:205-228 | held for at least min(base, cap), never for cap minutes or more |
| Fanout.ReleaseIsFinal | gbrain/src/commands/autopilot-fanout.ts:259-291 | a released source stays released until a new failure, although the window slides |
| Fanout.ReleaseTime | gbrain/src/commands/autopilot-fanout.ts:205-228 | each last failure has one release time, between base and cap, before which the source is held and from which it is not |
| Fanout.SuccessClears | gbrain/src/commands/autopilot-fanout.ts:211-225 | a success at or after the last failure ends the hold |
| Fanout.WindowShortensCooldown | gbrain/src/commands/autopilot-fanout.ts:259-264 | a history whose full count would still hold the source while the windowed count has released it |
| Fanout.SelectSourcesForDispatch | gbrain/src/commands/autopilot-fanout.ts:326-357 | the loop and the in-place sort compute the specified four lists |
| Fanout.CoolsWhileHeld | gbrain/src/commands/autopilot-fanout.ts:194-228 | a stale source cools iff its failures hold it against its last success, which is the per-source stamp when that is a non-empty string, even one that is no date, and else the full-cycle stamp |
| Fanout.SelectionIsPartition | gbrain/src/commands/autopilot-fanout.ts:334-356 | every source is in exactly one of dispatched, fresh, capped and cooling, as a multiset; each list holds what its name says; no capped source is older than a dispatched one |
| Fanout.QueuePosition | gbrain/src/commands/autopilot-fanout.ts:347-355 | an eligible source stands behind exactly the eligible sources that are older |
| Fanout.DispatchedExactly | gbrain/src/commands/autopilot-fanout.ts:347-355 | dispatched iff eligible with fewer than the cap's worth of eligible sources ahead |
| Fanout.NoNewcomers | gbrain/src/commands/autopilot-fanout.ts:182-187 | stamping moves no source ahead of a stale one |
| Fanout.AheadShrinks | gbrain/src/commands/autopilot-fanout.ts:347-355 | while a source waits, the set ahead of it loses at least the cap's worth a tick and gains none |
| Fanout.NoStarvation | gbrain/src/commands/autopilot-fanout.ts:182-187 | with N sources and cap f, a stale source out of cooldown is dispatched within N/f ticks rounded up, if dispatched sources are stamped, whatever else stamps sources meanwhile |
| Starvation.ServedDespiteFailures | gbrain/src/commands/autopilot-fanout.ts:182-187 | with N sources, cap f and m < f failing ones ahead of it, a stale source out of cooldown is dispatched within (N-m)/(f-m) ticks rounded up, cooldown on or off |
| Starvation.ServedExactly | gbrain/src/commands/autopilot-fanout.ts:326-357 | a stale source out of cooldown is dispatched in every long enough run that fails only inside a set iff fewer than the cap's worth of the sources ahead of it are in the set |
| Starvation.SlowRun | gbrain/src/commands/autopilot-fanout.ts:259-291 | otherwise, for every length, a run whose failures are on record and leave the window between ticks, and which never dispatches the source |
| Starvation.ServedWhileFailuresCool | gbrain/src/commands/autopilot-fanout.ts:211-228 | with every failure on record and a run shorter than min(base, cap) minutes, a stale source out of cooldown is dispatched within N/f ticks rounded up without any success |
| Starvation.StuckSourcesStarveOthers | gbrain/src/commands/autopilot-fanout.ts:347-355 | in every run in which a row changes only by a successful dispatch, a cap's worth of older sources that stay eligible and never succeed keeps the ones behind from ever being dispatched |
| Starvation.FailingSourcesStarveOthers | gbrain/src/commands/autopilot-fanout.ts:217-223 | with the cooldown disabled, older eligible sources that keep failing are such sources for the whole run |
| Starvation.StarvingRun | gbrain/src/commands/autopilot-fanout.ts:326-357 | for every length a run in which one source is dispatched and fails at each tick while another stays eligible and waits |
| Fanout.DispatchPerSource | gbrain/src/commands/autopilot-fanout.ts:389-511 | one legacy job when there are no sources; otherwise one job a selected source, a refused one not stopping the rest, and the ids of each list in the result |
| Fanout.SubmissionsCoalesce | gbrain/src/commands/autopilot-fanout.ts:448-459 | over any number of ticks of one slot: one job a key, earlier jobs kept, a job for every source accepted at any of them, and nothing else |
| Fanout.CycleKeysDiffer | gbrain/src/commands/autopilot-fanout.ts:406-450 | keys agree iff source and slot agree, and differ from the legacy key, for slots of one length |
| Fanout.NewSlotReopens | gbrain/src/commands/autopilot-fanout.ts:448-459 | in a slot none of whose keys is queued, every accepted source gets one row under its own key, in order |
| Fanout.AcceptedExactly | gbrain/src/commands/autopilot-fanout.ts:430-505 | the ids reported as dispatched are those whose submission was accepted, in order |
| AutoDrain.JobTable.AutoDrain | gbrain/src/commands/autopilot.ts:727-795 | one pass over the sources leaves exactly the specified job rows |
| AutoDrain.MaxJobsFillsBudget | gbrain/src/commands/autopilot.ts:724-728 | the budget pays for n runs iff n is at most the cap |
| AutoDrain.DrainAddsWithinRoom | gbrain/src/commands/autopilot.ts:742-794 | a pass only adds rows of its day, one per new key, no more than the cap leaves room for, and counts each |
| AutoDrain.DrainTakesFirstDue | gbrain/src/commands/autopilot.ts:746-794 | exactly the first due sources that fit are submitted |
| AutoDrain.PassTakesFirstDue | gbrain/src/commands/autopilot.ts:731-794 | so a pass takes as many of them as the cap exceeds the rows of the day, counted as the positions of rows of that day or later, or as none when the count failed |
| AutoDrain.DueExactly | gbrain/src/commands/autopilot.ts:746-771 | due is what has a path, a backlog above the threshold, no row under its key of the day and an accepting queue, up to the first backlog that cannot be read |
| AutoDrain.DayStaysWithinCap | gbrain/src/commands/autopilot.ts:727-794 | over any ticks of one day: at most max(cap, what was there) jobs plus one cap per active pass on an unread count, no key twice, earlier rows kept |
| AutoDrain.DayStaysWithinBudget | gbrain/src/commands/autopilot.ts:724-728 | on a fresh day with readable counts, 0.3 times the jobs created is at most the daily budget |
| AutoDrain.CapHoldsExactly | gbrain/src/commands/autopilot.ts:731-747 | from a fresh day a schedule of passes keeps the cap for every choice of sources iff no active pass after the first active one has an unread count, or the cap is zero |
| AutoDrain.UnreadCountCanExceedCap | gbrain/src/commands/autopilot.ts:731-740 | a day with one unread count and two jobs under a cap of one |
| AutoDrain.KeysDiffer | gbrain/src/commands/autopilot.ts:751-754 | keys agree iff source and day agree, so a new day reopens every source |
| Ledger.LedgerFile.Load | source-mock/ingest/ledger.py:24-42 | reading line by line yields the last-write-wins index of the readable rows |
| Ledger.LoadSeesSurvivors | source-mock/ingest/ledger.py:24-42 | after any completed and torn appends, the rows read back are exactly the survivors, in order |
| Ledger.OneCrash | source-mock/ingest/ledger.py:73-78 | for one cut at any character and any later appends, exactly which of the torn row and the next row are lost |
| Ledger.TerminatedRowsStay | source-mock/ingest/ledger.py:73-78 | a row on a finished line is never lost, whatever follows |
| Ledger.LossPerCrash | source-mock/ingest/ledger.py:73-78 | each crash costs at most two rows |
| Ledger.TailIsUnterminated | source-mock/ingest/ledger.py:30-38 | a fragment is left over iff the file does not end in a newline |
| LedgerCodec.LawfulCodecExists | source-mock/ingest/ledger.py:34-38 | the laws assumed of the row encoding hold together of a concrete one |
| IngestProtocol.ExecutionKeepsInvariant | source-mock/ingest/cli.py:95-164 | lock, span and index invariants hold in every reachable state |
| IngestProtocol.MutualExclusion | source-mock/ingest/ledger.py:81-103 | at most one run is between acquiring and releasing the lock |
| IngestProtocol.RowsDoNotInterleave | source-mock/ingest/cli.py:148-159 | each run's appends form one stretch of the ledger |
| IngestProtocol.RunReflectsEarlierRuns | source-mock/ingest/cli.py:122-126 | a run's index holds every loadable row of every earlier append, and its appends are what its plan makes of that index |
| IngestProtocol.LoserWritesNothing | source-mock/ingest/cli.py:98-102 | a run that lost the lock, or died before reading, appended nothing |
| IngestProtocol.RefusedIsFinal | source-mock/ingest/cli.py:98-102 | a refused run stays refused |
| IngestRun.LogDir.Run | source-mock/ingest/cli.py:72-164 | an early refusal or a lost lock changes nothing; any other run appends its rows and frees the lock |
| IngestRun.LogDir.SendAll | source-mock/ingest/cli.py:147-159 | one send, one count and one row a record, in order |
| IngestRun.NeedsSendExactly | source-mock/ingest/ledger.py:45-52 | unforced, a record needs no upload iff the last row for its path carries its hash |
| IngestRun.RunSendsExactly | source-mock/ingest/cli.py:124-159 | a run uploads exactly those records, or all when forced, and appends for each its path, its hash and the outcome of its own upload, in order |
| IngestRun.WorkListOfFiles | source-mock/ingest/cli.py:108-116 | explicit paths are a work list iff each of them resolves, in order |
| IngestRun.RunAccounting | source-mock/ingest/cli.py:126-162 | sent, too large and errors are the numbers of uploads with that result, and add up with unchanged to the records; a report-only, idle or tokenless run appends nothing; the exit code is 1 iff an upload failed |
| IngestRun.SettledAfterRun | source-mock/ingest/ledger.py:45-52 | after a plain run's rows no record needs sending, whatever the results were |
| IngestRun.SecondRunIsQuiet | source-mock/ingest/cli.py:122-128 | a second plain run sends nothing iff the first sent nothing, or its ledger was terminated, or its first record does not need sending by the finished lines |
| IngestRun.EditedFileIsSentAlone | source-mock/ingest/cli.py:122-128 | on a terminated ledger, the run after a plain one sends exactly the one record whose hash has changed, under its new hash |
| IngestRun.TornTailMakesSecondRunSend | source-mock/ingest/ledger.py:73-78 | a ledger with a torn tail after which a second run sends |
| IngestRun.ConcurrentRunsActAlone | source-mock/ingest/cli.py:95-164 | in every interleaving each run that read the ledger appended a prefix of what it would alone |
| Sender.Send | source-mock/ingest/sender.py:42-118 | stops at the first settling response, which alone decides result and status; refreshes and sleeps as the responses before it ask; at most 4 posts, 1 refresh, 2 sleeps |
| Sender.SettlesExactly | source-mock/ingest/sender.py:76-112 | the upload goes on iff the response is the first 401, or a 429 or 5xx with at most one such before it |
| Sender.DelayExactly | source-mock/ingest/sender.py:30-39 | the delay after a throttling response is that of Retry-After, else that of RateLimit-Reset, else half a second the first time and a second the next |
| Sender.EveryStreamSettles | source-mock/ingest/sender.py:62-118 | every infinite response stream settles within four posts |
| Sender.FourthPost | source-mock/ingest/sender.py:78-112 | four posts iff the first three are one 401 and two throttles |
| Scanner.SlugIsJoinedRuns | source-mock/ingest/scanner.py:21-27 | a slug is the dash-join of the lower-cased title's alphanumeric runs |
| Scanner.SlugifyIsIdempotent | source-mock/ingest/scanner.py:21-27 | slugifying a slug changes nothing |
| Scanner.PageSlugInjective | source-mock/ingest/scanner.py:78 | equal page slugs have the same source, date and title slug |
| Scanner.Scan | source-mock/ingest/scanner.py:86-151 | the nested loops and the grouping yield the specified records and skips |
| Scanner.ScanFinds | source-mock/ingest/scanner.py:93-134 | a record is found iff it is that of a UTF-8 .md file, with a letter or digit in its lower-cased title, in a date directory of a walked source; path, slug, hash and size are its own |
| Scanner.ScanSkips | source-mock/ingest/scanner.py:93-134 | a file is skipped, and for which reason, iff it is loose, in a directory that is no date, a directory, not .md, not UTF-8, or without a slug |
| Scanner.AsciiDates | source-mock/ingest/scanner.py:17 | on ASCII names a date is eight digits and two dashes in their places, with at most a line feed after them |
| Scanner.CollisionsAreRejected | source-mock/ingest/scanner.py:136-149 | exactly the records with a slug of their own are kept, in order; all others are skipped as collisions |
| Scanner.KeptIffAlone | source-mock/ingest/scanner.py:136-149 | a record has a slug of its own iff no other record has that slug |
| Scanner.ScanAccountsForEveryItem | source-mock/ingest/scanner.py:93-149 | every visited item, under its own path, becomes one record or one skip; later skips are collisions only |
| Scanner.ScannedPathsDiffer | source-mock/ingest/scanner.py:95-134 | records have distinct paths, and equal slugs only within one source and date |
| Migrations.IndexCompleted | gbrain/src/commands/apply-migrations.ts:120-130 | each version's entries, in order |
| Migrations.StatusForVersion | gbrain/src/commands/apply-migrations.ts:145-166 | the backward count and the tests compute the specified status |
| Migrations.StatusIsAutomaton | gbrain/src/commands/apply-migrations.ts:132-166 | the status equals a seven-state automaton run forwards over the history |
| Migrations.CompleteIsTerminal | gbrain/src/commands/apply-migrations.ts:142-151 | no later entries undo `complete` |
| Migrations.BuildPlan | gbrain/src/commands/apply-migrations.ts:189-204 | the loop fills the specified five buckets |
| Migrations.ToRunExactly | gbrain/src/commands/apply-migrations.ts:189-204 | a run takes exactly the registered versions asked for that are installed and pending or partial |
| Migrations.Runner.Append | gbrain/src/core/preferences.ts:143-167 | a row is appended unless it repeats a last `complete` |
| Migrations.Runner.RunLoop | gbrain/src/commands/apply-migrations.ts:434-495 | each orchestrator's own row, if it writes one, and the runner's row are recorded; a failure or exception is recorded as partial and stops the chain |
| Migrations.RunStopsAtFailure | gbrain/src/commands/apply-migrations.ts:434-495 | the starts are the list up to and including the first orchestrator that fails or throws, and the run reports a failure iff there is one |
| Migrations.RunLeavesRows | gbrain/src/commands/apply-migrations.ts:434-495 | each started version gains exactly the rows of its outcome, every other version none |
| Migrations.Runner.RunApply | gbrain/src/commands/apply-migrations.ts:395-497 | plan, refusal, report or run, with the exit code |
| Migrations.ApplyChangesOnlyByRunning | gbrain/src/commands/apply-migrations.ts:412-497 | a refused or report-only command changes nothing; any other exits 1 iff a version in its list fails or throws |
| Migrations.Runner.RunForceRetry | gbrain/src/commands/apply-migrations.ts:295-304 | exit 2 for an unregistered version, else one retry row |
| Migrations.ForceRetryReopens | gbrain/src/commands/apply-migrations.ts:295-304 | an unregistered version is refused; a registered one gains exactly one retry row and is pending afterwards unless it is complete |
| Migrations.RetryStartsAgain | gbrain/src/commands/apply-migrations.ts:295-304 | then the next full run lists an installed version, wedged before or not, and starts it once more unless an earlier one in its order fails |
| Migrations.Runner.RunForceOrchestrator | gbrain/src/commands/apply-migrations.ts:309-326 | one retry row for every wedged version |
| Migrations.ForceOrchestratorResetsWedged | gbrain/src/commands/apply-migrations.ts:309-326 | each registered wedged version gains exactly one retry row, every other version none |
| Migrations.AttemptsAreBounded | gbrain/src/commands/apply-migrations.ts:154-164 | over any session, with changing registries and installed versions, at every moment each version has at most three starts since its last retry, and three trailing partials, or four if its orchestrator records its own |
| Migrations.ThreePartialsExactly | gbrain/src/commands/migrations/v0_16_0.ts:105-119 | three trailing partials are never exceeded in any session iff no version that can be started records its own partial |
| Migrations.FourPartials | gbrain/src/commands/migrations/v0_16_0.ts:105-119 | two runs of a version that records its own partial leave four trailing partials |
| Migrations.FourPartialsOf016 | gbrain/src/commands/migrations/v0_16_0.ts:72-119 | such a session for the registered 0.16.0 |
| Migrations.AttemptsBetweenRetries | gbrain/src/commands/apply-migrations.ts:154-164 | an orchestrator starts at most three times between two retry markers |
| Migrations.CompletedNeverReruns | gbrain/src/commands/apply-migrations.ts:142-151 | once complete, complete through all later commands and never started again |
| Migrations.RunIsInRegistryOrder | gbrain/src/commands/apply-migrations.ts:420-435 | the run order is registry order iff no pending version is registered before a partial one |
| Migrations.RegistryOrderFails | gbrain/src/commands/apply-migrations.ts:420-435 | a ledger on which a later-registered version runs first |
| Migrations.ForceOrchestratorUnwedges | gbrain/src/commands/apply-migrations.ts:309-326 | afterwards no registered version is wedged and nothing was started |
| Migrations.CleanRunCompletesAll | gbrain/src/commands/apply-migrations.ts:420-495 | a full run without failures completes every installed version that is not wedged |
| Migrations.SpecificVersionRefused | gbrain/src/commands/apply-migrations.ts:412-415 | exit code 2 iff the version is unregistered, or installed and wedged |
| Migrations.WedgedVersionIsRefused | gbrain/src/commands/apply-migrations.ts:412-415 | a registered version, wedged by three partials, refused with exit code 2 |
| Connect.ShellRoundTrip | gbrain/src/commands/connect.ts:271-284 | the printed command reads back as exactly the binary and the arguments iff no argument holds a NUL |
| Connect.CmdStringInjective | gbrain/src/commands/connect.ts:281-284 | different commands are printed differently |
| Connect.ClaudeCommand | gbrain/src/commands/connect.ts:262-264 | the pasted command passes the header with the token as one argument |
| Connect.CodexCommand | gbrain/src/commands/connect.ts:266-269 | the pasted command names the variable and not the token |
| Connect.CodexExport | gbrain/src/commands/connect.ts:310-318 | the export line sets the variable to exactly the token |
| Backlinks.LinkLeadsToSource | gbrain/src/commands/backlinks.ts:155-160 | followed from the target's directory, and never out of the brain directory on the way up, the relative path resolves to the source page |
| Backlinks.EntryLeadsToSource | gbrain/src/commands/backlinks.ts:66-184 | for titles and paths without brackets, parentheses or line breaks, the target page receives a line whose bold text is the day and whose inline link has the source title as its text and resolves from the target's directory to the source page |
| Backlinks.BrainDir.FixBacklinkGaps | gbrain/src/commands/backlinks.ts:136-188 | every target page gets its gaps' entries in order, all else stays, a dry run writes nothing, and the count is that of gaps whose target exists |
| Backlinks.CountFixableIsSize | gbrain/src/commands/backlinks.ts:148-187 | the count is the number of gaps whose target page exists |
| Backlinks.InsertKeepsAndAdds | gbrain/src/commands/backlinks.ts:164-178 | an insertion brings its entry and breaks no one-line text that was there |
| Backlinks.FixedGapsStayFixed | gbrain/src/commands/backlinks.ts:136-187 | after a batch every gap whose target exists has its back-link, and no back-link is lost |
| Backlinks.OtherPagesUntouched | gbrain/src/commands/backlinks.ts:148-184 | pages no gap points to keep their text; no page appears or disappears |
| Backlinks.TextIsConserved | gbrain/src/commands/backlinks.ts:154-180 | the non-blank lines afterwards are the page's, one entry a gap, and one heading iff there was none |
| Backlinks.OriginalLinesSurvive | gbrain/src/commands/backlinks.ts:164-178 | up to trailing white space the page's lines survive whole and in order |
| BacklinkPlacement.EntryLandsInTimeline | gbrain/src/commands/backlinks.ts:164-178 | the nearest section line above the entry is a timeline heading iff the page does not mislead: its first heading text starts a line, or, where a second one hides the next section, its last section is a timeline |
| BacklinkPlacement.FirstHeadingDecides | gbrain/src/commands/backlinks.ts:165-169 | where no section follows the first heading text, the text ends in a timeline iff that heading text starts a line |
| BacklinkPlacement.QuotedHeadingMisleads | gbrain/src/commands/backlinks.ts:165-174 | a page that quotes its heading takes the entry under another section |
| BacklinkPlacement.MentionedHeadingMisleads | gbrain/src/commands/backlinks.ts:165-174 | a page that only mentions the heading gets no timeline and takes the entry under the sentence |
| BacklinkScan.FindBacklinkGaps | gbrain/src/commands/backlinks.ts:40-133 | the loops over pages and their references to people and companies yield the specified gaps |
| BacklinkScan.FindInPage | gbrain/src/commands/backlinks.ts:111-129 | one page's gaps, each target reported at its first mention only |
| BacklinkScan.GapsExactly | gbrain/src/commands/backlinks.ts:104-129 | the gaps are those of the first mentions, each with its page's title, the name it was mentioned by and the target it leads to |
| BacklinkScan.PageGapsExactly | gbrain/src/commands/backlinks.ts:111-129 | the same for one page, which reports no gap twice |
| BacklinkScan.EntityRefsExactly | gbrain/src/commands/backlinks.ts:40-49 | the references kept are those to people and companies, in order |
| BacklinkScan.TargetOfReference | gbrain/src/commands/backlinks.ts:42-48 | a reference leads to its slug, with its directory in front unless it is there already |
| BacklinkScan.ReportedIffOpen | gbrain/src/commands/backlinks.ts:113-128 | a pair is reported iff the page mentions an existing target whose text lacks its file name |
| BacklinkScan.EveryFoundGapIsClosed | gbrain/src/commands/backlinks.ts:92-187 | for one-line page names: no gap found before a fix is found after it, for all contents and extractors, iff every person's or company's slug leads to the page of that name, the last one listed that goes by it |
| BacklinkScan.EveryFoundGapIsCounted | gbrain/src/commands/backlinks.ts:136-187 | the fix counts every gap found, for all contents and extractors, iff every listed page with a person's or company's slug has a file at that slug plus ".md" |
| BacklinkScan.NamesakeStaysOpen | gbrain/src/commands/backlinks.ts:92-124 | two pages that go by one slug: every gap is counted as fixed and one is found again |
| BacklinkScan.FixedGapsAreNotFoundAgain | gbrain/src/commands/backlinks.ts:120-128 | a scan after the fix does not report a given gap if its slug leads to the page the fix writes to |
| BacklinkScan.InnerExtensionStaysOpen | gbrain/src/commands/backlinks.ts:95-124 | a page with an inner ".md" and a link to its slug: gaps are found and the fix changes no file |
| AgentLogs.Merge | gbrain/src/commands/agent-logs.ts:71-87 | filtering both sources and sorting yields the specified events |
| AgentLogs.DumpSince | gbrain/src/commands/agent-logs.ts:65-108 | one poll writes those events, then the transcript if it is due, and returns the furthest time seen |
| AgentLogs.RunAgentLogs | gbrain/src/commands/agent-logs.ts:33-58 | the follow loop writes what the polls up to the first abort or terminal status give, and the closing line iff a terminal status ended it |
| AgentLogs.FollowEnds | gbrain/src/commands/agent-logs.ts:46-57 | the polls made are the rounds up to the first abort or the first terminal status, and the closing line names that status |
| AgentLogs.ConsoleLogsFollow | gbrain/src/commands/agent-logs.ts:42-57 | the event lines among everything written are those of following the histories |
| AgentLogs.TranscriptAtMostOnce | gbrain/src/commands/agent-logs.ts:95-105 | the transcript is written at most once a run, and never when a start time was given |
| AgentLogs.TranscriptExactly | gbrain/src/commands/agent-logs.ts:95-105 | without a start time the transcript is written iff the first poll that finds any event finds messages and a finished job |
| AgentLogs.DumpMembers | gbrain/src/commands/agent-logs.ts:77-92 | a poll prints, in time order, each event after the cursor as often as it is there, and no other |
| AgentLogs.DumpExactly | gbrain/src/commands/agent-logs.ts:71-92 | among events of one time a poll prints all if the cursor is unset or strictly earlier, the audit events first and each source in its order, and else none |
| AgentLogs.OutputIsChronological | gbrain/src/commands/agent-logs.ts:41-57 | whatever the polls return, the whole output is in time order and later than the start |
| AgentLogs.PrintedOnceOrNever | gbrain/src/commands/agent-logs.ts:77-93 | an event is printed at the poll that first sees it if it is after the cursor then, and otherwise never |
| AgentLogs.LateEventIsLost | gbrain/src/commands/agent-logs.ts:60-64 | a run on a growing history in which a late event with the cursor's own time is never printed |
| AgentLogs.NothingIsPrintedTwice | gbrain/src/commands/agent-logs.ts:60-64 | on a growing history nothing is written more often than it occurs |
| AgentLogs.FollowingIsDumpingOnce | gbrain/src/commands/agent-logs.ts:42-57 | if events arrive later than the cursor, the whole output is one sorted dump of the last history |
| AgentLogs.FilterSort | gbrain/src/commands/agent-logs.ts:77-87 | filtering and stable sorting commute, so the reader's own filter and sort change nothing |
| SelectE2e.Compile | gbrain/scripts/select-e2e.ts:102-120 | the index loop builds the specified pattern text |
| SelectE2e.CompiledParses | gbrain/scripts/select-e2e.ts:102-120 | read as a regular expression, that text is the intended sequence of classes, stars and escaped literals |
| SelectE2e.CompiledTestIsGlob | gbrain/scripts/select-e2e.ts:94-122 | the compiled pattern matches exactly the glob's language |
| SelectE2e.MatchGlob | gbrain/scripts/select-e2e.ts:96-122 | an error exactly for unsupported syntax, otherwise membership in the glob's language |
| SelectE2e.DoubleStarOnOneLine | gbrain/scripts/select-e2e.ts:94-108 | on a path without line breaks `**` matches any text |
| SelectE2e.Classify | gbrain/scripts/select-e2e.ts:143-149 | empty, documentation only, or some source file |
| SelectE2e.SelectTests | gbrain/scripts/select-e2e.ts:151-187 | the loops compute the specified selection |
| SelectE2e.SelectionMeaning | gbrain/scripts/select-e2e.ts:151-187 | everything for an empty diff, an escape hatch or nothing called for; nothing exactly for documentation; otherwise the sorted set of tests called for; an error iff a file is looked up among unsupported globs |
| SelectE2e.SharedGroundRunsEverything | gbrain/scripts/select-e2e.ts:62-92 | a change to the schema, engine core, dependencies, containers, test runner, fixtures, migrations, skills or workflows selects every test, whatever else changed |
| SelectE2e.DocsExactly | gbrain/scripts/select-e2e.ts:42-59 | with a slash only docs/ is documentation; without one every .md file, LICENSE and VERSION |
| SelectE2e.TestsExactly | gbrain/scripts/select-e2e.ts:165-171 | a changed test is a path between test/e2e/ and .test.ts |
| SelectE2e.UnmappedChangeFallsBack | gbrain/scripts/select-e2e.ts:8-12 | with an unmapped change and no escape hatch, everything is selected iff the globs are supported and the other changes call for no test or for precisely all |
| SelectE2e.UnmappedChangeCanBeNarrowed | gbrain/scripts/select-e2e.ts:8-12 | an unmapped change next to a mapped one, where a test of the full list is left out |

## Left out

- Files, HTTP, SQL text, signals, logging, clocks and process exit: they are parameters (a
  response stream, a table of rows, a history, today's date) or are not part of this model.
- Floating point: weights, budgets and delays are exact numbers.
- Locale collation: every string order is the code-unit order; the strings compared that way are
  ASCII ids and ISO timestamps.
- Unicode: strings are sequences of characters, lower-casing is a function about which only
  idempotence assumes anything, and surrogate pairs are not modelled.
- JSON text: the ingest ledger assumes a codec that reads rows back and rejects anything cut
  short or glued together (`Ledger.Lawful`); a parsed line that is not an object is not modelled.
- SHA-256 is an opaque content hash; library sorts are a stable sort; `Map` and `dict` are one
  insertion-ordered map.
- Fanout.NoStarvation: assumes dispatched jobs succeed and stamp their source before the next
  tick; `Starvation.ServedExactly` says which failures it survives.
- Starvation.ServedExactly: a failure is on record before the next tick, a success stamps its
  source before it, and nothing else stamps sources.
- Scanner.Scan: the digits `\d` accepts are those of Unicode 14; later versions add a few blocks.
- Scanner.SlugifyIsIdempotent: assumes lower-casing leaves lower-case ASCII, digits and dashes
  alone, which is a fact about the language's own lower-casing.
- MineWeights.WeightsAddUpToWallTime: assumes forward clocks and that no file is started twice;
  otherwise dropped or repeated gaps break the sum.
- AgentLogs.OutputIsChronological: assumes no event has an empty timestamp, which an unset cursor
  would be confused with.
- Backlinks.EntryLeadsToSource: for titles and paths on one line without brackets or parentheses of
  their own, which the code does not escape and which can cut a Markdown link short.
- Backlinks.FixedGapsStayFixed: for file names on one line that do not end in white space; every
  scanned name ends in ".md".
- BacklinkScan.FixedGapsAreNotFoundAgain: closure of the given gaps only; inserted entries are
  links themselves, so another scan may find new gaps elsewhere.
- BacklinkScan.FindBacklinkGaps: the link extractor and the title extractor are arbitrary functions
  of a page's text, unreadable pages are not listed, and paths are not normalised.
- BacklinkPlacement.EntryLandsInTimeline: a section starts at any line that starts with its mark,
  fenced code included, and a timeline at any line that starts with "## Timeline", so a line such
  as "## Timelines of others" counts as one.
- AutoDrain.DayStaysWithinCap: a pass happens within one UTC day, and job rows are not deleted.
- Sender.Send: the server is an arbitrary stream of responses; exceptions from the HTTP call, the
  token service and a negative delay are not modelled.
- Migrations.Runner.RunLoop: ledger writes succeed; an orchestrator writes at most one row of its
  own, with the status it returns; concurrent `apply-migrations` processes, `--force-schema` and
  the schema pre-flight are not modelled.
- AgentLogs.RunAgentLogs: how an event, a transcript and its tool rows are rendered is not modelled,
  and a history is what the audit reader's two weekly files hold.
- `loadWeights`, `parseLog`, argument parsing, git, file globbing and the command lines of the scripts.
- `resolveFanoutMax`, the concurrency clamp, configuration parsing and the brain-wide maintenance job.
- `normalizeMcpUrl`, token validation, redaction, OAuth blocks and the installer in `connect.ts`.
- `resolve_explicit` and configuration loading in the uploader are inputs of a run.
- Query planning, sync, embedding, enrichment, evaluation, the admin interface and every other
  command: their guarantees rest on the database engine or on modules outside these files.
