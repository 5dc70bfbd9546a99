# Verified model of the scheduling, sharding and text-repair kernels

This project models, in Dafny, the small algorithms inside an otherwise I/O-bound
knowledge-base tool, and proves properties of them over every input and every run:

- **Sharding** (`Sharding`, `ShardingBound`, `ShardingTight`, `ShardingResults`, `ShardingBalance`, with `Sums` and `Sorting`):
  test files are dealt to CI shards heaviest first, each to the least loaded shard. Graham's makespan bound
  is proved against every rival partition, and attained for every number of shards from two on, together with exact cover across independent CI invocations,
  balance, and the round-robin of a cold start.
- **Weight mining** (`MineWeights`): per-file durations out of interleaved job logs.
- **Fan-out** (`Fanout`, `FanoutCooldown`, `FanoutWaiting`, `FanoutQueue`): the freshness gate, the failure
  cooldown, oldest-first selection under a cap, and submission to a queue that deduplicates by key, as a
  state machine over ticks.
- **Back-links** (`Backlinks`, `BacklinksReport`, `BacklinksRepair`, `BacklinksFixpoint`, with `Text`): finding missing reverse
  links and inserting them into page text; the repair loses nothing and reaches a fixpoint.
- **Test selection** (`Glob`, `SelectE2e`): a glob compiled to the text of a regular expression, and the
  fail-closed selection of end-to-end tests.
- **Migrations** (`Migrations`, `MigrationRuns`): an append-only ledger with derived status, the plan, the
  runner and the retry markers.
- **Shell quoting** (`Shell`): a command line that POSIX lexing takes apart again (POSIX.1-2017, Shell Command
  Language, sections 2.2.1, 2.2.2, 2.3 and 2.6.7).
- **Autopilot** (`Bootstrap`, `Drain`): injection and removal of a bootstrap line, and the daily cap on drain jobs.

Methods follow the imperative code (running totals in arrays, maps filled by loops, fields reassigned) and are
proved equal to specification functions or to declarative predicates; the lemmas are about those. `dafny verify
dfyconfig.toml` checks everything.

Weights, budgets and ratios are `real`; instants are integer milliseconds. Library sorts are the stable sort of
`Sorting`, whose result is unique under a total order. Functions the model does not fix are parameters, so the
results hold for any of them: the extractors of entity mentions and of page titles, the locale's order on source
ids, the comparison of a migration's version with the installed one, the outcome of every orchestrator, the set of
submissions that throw.

Where the code and its documentation differ, the model follows the code:

- The file header of `scripts/select-e2e.ts` (lines 8-10) promises that an unmapped path selects every test. The
  code falls back to all tests only when no changed path asks for any (lines 181-183): `SelectE2e.UnmappedForcesAllIff`
  gives the exact condition, `SelectE2e.UnmappedPathIgnored` and `SelectE2e.SelectionCanShrink` the consequence.
- A fallback weight of zero is replaced by one whenever no override is given, not only when the weight map is empty
  (the comment at `scripts/sharding.ts` lines 149-154): also when more than half of the weights are zero
  (`ShardingResults.FallbackIsOneIff`, `ShardingResults.LoneZeroWeight`).
- A wedged migration named with `--migration` is reported as unregistered (`MigrationRuns.NamedNotFoundIff`).
- The runner's comment (`src/commands/apply-migrations.ts` line 474) promises registry order, but the run list holds
  the partial migrations before the pending ones (`MigrationRuns.PartialRunsFirst`); `MigrationRuns.RunsInRegistryOrderIff`
  says exactly when that is registry order.
- The failure cooldown spaces dispatches from the failures on record, not from each other: a source whose cycle
  outlives its tick is dispatched again (`FanoutCooldown.OverlappingDispatches`, `FanoutCooldown.CloseAgainIff`).
- "At most one job per source and slot" (`src/commands/autopilot-fanout.ts` lines 448-458) fails after a retry by hand
  of a dead job whose key was given away: it stands beside its successor (`FanoutQueue.RetryAfterResubmission`), or
  the next submission does not see it (`FanoutQueue.UniqueUntilSubmission`). `FanoutQueue.RunUniqueIff` gives the
  exact condition over every run.
- The look-back window of the failure cooldown never hides the latest failure of a cooling source, but can shorten
  its cooldown by forgetting older failures, exactly when the base cooldown is below the cap
  (`FanoutCooldown.WindowForgetsCount`, `FanoutCooldown.WindowHarmlessIff`).
- A tick that cannot read the day's job count may exceed the daily cap (`Drain.BlindTickExceedsCap`);
  `Drain.BlindTickKeepsCapIff` says exactly when it does not.
- Back-link repair writes to the target's slug with `.md` appended, which is not always the page the slug came from:
  the first `.md` of a path is removed, wherever it stands. `BacklinksFixpoint.TerminatesIff` gives the exact
  condition on the page names under which repeated repair comes to an end, `BacklinksFixpoint.MisnamedPage` a page
  that fails it.

## Model

| member | source | states |
|---|---|---|
| Sharding.LoadWeights | scripts/sharding.ts:73-83 | loading succeeds iff every value is a non-negative number, keeps all entries in order, and otherwise names the first bad key |
| Sharding.Partition | scripts/sharding.ts:124-181 | the error cases in their order, and otherwise exactly the shards the greedy specification gives |
| Sharding.DealOut | scripts/sharding.ts:170-180 | the loop over mutable shards and running totals refines the greedy specification |
| Sharding.ArgMin | scripts/sharding.ts:173-176 | the inner loop finds the lowest index holding the minimum |
| Sorting.StringLeqIff | scripts/sharding.ts:167 | the order on paths is by the first character that differs, a prefix first |
| Sorting.SortStable | scripts/sharding.ts:165-168 | the sort keeps the order of elements that compare equal |
| ShardingResults.ExplicitWeights | scripts/sharding.ts:146-163 | a file counts with its recorded weight, or else with the override, with one if there are no weights or more than half are zero, or with their median: partition does the same with a map that says so for every file |
| ShardingResults.FallbackIs | scripts/sharding.ts:146-157 | the fallback computed is that one |
| ShardingBound.DealWithinBound | scripts/sharding.ts:159-180 | tuple level: no running total exceeds (4/3 - 1/(3n)) times the makespan of any rival grouping of the same tuples |
| ShardingBound.RoomLeft | scripts/sharding.ts:170-179 | when all weights exceed a third of the rival's makespan, the least loaded shard takes the next tuple within that makespan |
| ShardingBound.MinimumIsBelowAverage | scripts/sharding.ts:171-178 | n times the least total is at most everything dealt so far |
| ShardingBound.TotalsAreSums | scripts/sharding.ts:171-179 | running totals are the sums of what the shards hold |
| ShardingResults.PartitionMakespan | scripts/sharding.ts:9-11 | for every weight map, file list and n, against every other way of putting the files on n shards: each shard total M has 3nM <= (4n-1)T, hence M <= 4/3 T |
| ShardingTight.GreedyOnHard | scripts/sharding.ts:170-180 | dealing weights 2n-1, 2n-1, ..., n+1, n+1, n, n, n leaves the first of n shards with 4n-1 |
| ShardingTight.BoundIsAttained | scripts/sharding.ts:9-11 | for every n from two on there are weights and files where partition reaches the bound exactly: 3nM = (4n-1)T against a rival with T on every shard |
| ShardingResults.PartitionCovers | scripts/sharding.ts:118-122 | together the shards hold every file exactly as often as it was listed |
| ShardingResults.PartitionIgnoresListingOrder | scripts/sharding.ts:159-168 | any permutation of the listing gives identical shards |
| ShardingResults.DistributedExactCover | scripts/sharding.ts:226-250 | independent invocations, each with its own listing order and printing its own shard, cover the listing exactly |
| ShardingResults.ShardsHeaviestFirst | scripts/sharding.ts:113-116 | within a shard, weights descend and ties are in path order |
| ShardingResults.HeaviestFirstByWeight | scripts/sharding.ts:113-116 | the same on recorded weights and the fallback described without the code that computes it |
| ShardingResults.MedianSplits | scripts/sharding.ts:86-97 | the median leaves equally many values on either side and is the middle value or halfway between the two nearest |
| ShardingResults.FallbackIsOneIff | scripts/sharding.ts:146-157 | without an override a file of unknown weight counts as one exactly when there are no weights or more than half of them are zero, and otherwise as the median |
| ShardingResults.LoneZeroWeight | scripts/sharding.ts:149-157 | a map that is not empty and still makes the fallback one |
| ShardingResults.TotalsRecomputed | scripts/sharding.ts:170-199 | the totals kept while dealing equal the sums the imbalance ratio recomputes from paths |
| ShardingBalance.LastPushOntoLightest | scripts/sharding.ts:172-179 | a shard without its last tuple weighs no more than any other shard |
| ShardingBalance.RatioBound | scripts/sharding.ts:183-199 | the imbalance ratio is between 1 and 1 + heaviest weight / lightest total, and infinite only with an empty-weight shard |
| ShardingResults.RatioExactly | scripts/sharding.ts:190-199 | the ratio times the lightest sum of file weights is the heaviest, infinite for a zero beside something heavier, one for no shards or only zeros |
| ShardingBalance.RoundRobin | scripts/sharding.ts:149-157 | with equal positive weights shard s holds tuples s, s+n, s+2n, ... and nothing else |
| ShardingBalance.ColdStartIsRoundRobin | scripts/sharding.ts:149-157 | with no weights at all, the files in path order are dealt round-robin |
| MineWeights.ComputeWeights | scripts/mine-shard-weights.ts:158-186 | each file's weight is the largest non-negative adjacent delta over all jobs, and only files with such a delta have one |
| MineWeights.GroupByJob | scripts/mine-shard-weights.ts:159-168 | buckets are the jobs' streams in order |
| MineWeights.StreamExactly | scripts/mine-shard-weights.ts:159-168 | a job's stream is its events, all of them and in their order |
| MineWeights.InterleavingIrrelevant | scripts/mine-shard-weights.ts:146-150 | any interleaving of the same per-job streams gives the same weights |
| MineWeights.Telescopes | scripts/mine-shard-weights.ts:170-184 | for a job with files of its own and no time reversal the weights add up to last minus first timestamp, and the last file gets none |
| Fanout.ReadRecentSourceFailures | src/commands/autopilot-fanout.ts:259-291 | the map built holds, per source, the number and the latest instant of the failures inside the window, and nothing for blank ids |
| Fanout.SelectSourcesForDispatch | src/commands/autopilot-fanout.ts:326-357 | the loop, sort and slice compute the four lists of the selection |
| Fanout.SelectionCovers | src/commands/autopilot-fanout.ts:333-356 | every source lands in exactly one of the four lists |
| Fanout.SelectionIsOldest | src/commands/autopilot-fanout.ts:316-325 | dispatched are exactly the cap-many oldest of the stale sources not cooling |
| Fanout.FreshExactly | src/commands/autopilot-fanout.ts:182-187 | skipped as fresh are exactly the sources whose last full cycle is less than the floor ago; all others have none or one at least that old |
| Fanout.NotDispatchedWhileFresh | src/commands/autopilot-fanout.ts:182-187 | over a run, no dispatch of a source before the floor has passed since a full cycle whose stamp stands |
| Fanout.CoolingExactly | src/commands/autopilot-fanout.ts:211-228 | held back are exactly the stale sources with a failure on record that no success has followed and whose cooldown is not over |
| Fanout.LastSuccessExactly | src/commands/autopilot-fanout.ts:189-202 | the last success is the per-source stamp, or the full-cycle stamp where there is none; a stamp that is no date hides the other |
| Fanout.OrderOnFields | src/commands/autopilot-fanout.ts:347-356 | the queue the cap cuts has sources without a full cycle first, then the oldest, and equal ones in the order of ids |
| Fanout.FailuresExactly | src/commands/autopilot-fanout.ts:268-285 | the record counts the dead and failed cycles of the source that finished inside the window, and keeps the latest |
| FanoutCooldown.CooldownDoubles | src/commands/autopilot-fanout.ts:204-209 | the cooldown starts at the base and doubles, at most four times and never past the cap |
| FanoutCooldown.CooldownBounds | src/commands/autopilot-fanout.ts:204-209 | it lies between min(base, cap) and cap and never shrinks as failures accumulate |
| FanoutCooldown.DefaultCooldowns | src/commands/autopilot-fanout.ts:45-47 | by default 10, 20, 40, 80 and then 120 minutes |
| FanoutCooldown.IsSourceInCooldown | src/commands/autopilot-fanout.ts:300-314 | the claim-time guard's own restricted read gives the gate's verdict, with and without a source row |
| FanoutCooldown.GateAndGuardAgree | src/commands/autopilot-fanout.ts:293-299 | on one history and instant the dispatch gate cools a stale source iff the guard does |
| FanoutCooldown.WindowKeepsCoolingFailure | src/commands/autopilot-fanout.ts:259-277 | judged on any longer history, a cooling source has its latest failure inside the window; the gate cools exactly those of them still cooling by the count inside the window |
| FanoutCooldown.WindowHarmlessIff | src/commands/autopilot-fanout.ts:263-277 | window and full history agree on every history iff the cooldown is disabled or its base reaches the cap |
| FanoutCooldown.WindowForgetsCount | src/commands/autopilot-fanout.ts:263-277 | for every base below the cap, two failures for which the window releases a source that the full history still cools |
| FanoutCooldown.DefaultWindowForgets | src/commands/autopilot-fanout.ts:45-46 | the default settings let the window change a verdict |
| FanoutCooldown.EligibleIff | src/commands/autopilot-fanout.ts:217-228 | a stale source passes the gate iff its failures in the window are cleared by a success or their doubled cooldown is over |
| FanoutCooldown.DispatchesWaitOutCooldown | src/commands/autopilot-fanout.ts:205-228 | every dispatch of a run has waited out the cooldown for the number of its failures in the window, whatever cycles are under way |
| FanoutCooldown.NotDispatchedWhileCooling | src/commands/autopilot-fanout.ts:217-228 | in any run, no dispatch falls within min(base, cap) minutes of a failure its tick has on record without a later success |
| FanoutCooldown.CloseAgainIff | src/commands/autopilot-fanout.ts:217-228 | within min(base, cap) minutes of its dispatch a source passes the gate again iff no failure finished since, or a success cleared it |
| FanoutCooldown.OverlappingDispatches | src/commands/autopilot-fanout.ts:448-450 | a source whose first cycle is still running is dispatched again five minutes later |
| FanoutCooldown.StormIsSpaced | src/commands/autopilot-fanout.ts:39-47 | dispatches that are each decided with all earlier ones of the source on record as failed and none recovered are min(base, cap) minutes apart, counted from each failure |
| FanoutCooldown.StormIsBounded | src/commands/autopilot-fanout.ts:39-47 | so the time elapsed bounds the number of such dispatches |
| FanoutCooldown.StormBacksOff | src/commands/autopilot-fanout.ts:204-209 | and their waits double: after the failures of m of them inside the window, the next comes no earlier than the cooldown for m failures after the last |
| FanoutWaiting.BoundedWaiting | src/commands/autopilot-fanout.ts:347-356 | if all dispatched cycles succeed, the caps of the ticks that pass over a stale source add up to at most the number of sources ahead of it |
| FanoutWaiting.WaitingQuotient | src/commands/autopilot-fanout.ts:347-356 | so with r sources ahead and caps that never fall below some least cap it is passed over at most floor(r / least) times |
| FanoutWaiting.ServedWithin | src/commands/autopilot-fanout.ts:347-356 | a source that stays eligible is dispatched within floor(r / least) + 1 ticks |
| FanoutWaiting.AheadShrinks | src/commands/autopilot-fanout.ts:347-353 | newly stale and re-run sources sort behind a waiting one; the set ahead only shrinks, by all that is dispatched |
| FanoutWaiting.SkippedBehindFullDispatch | src/commands/autopilot-fanout.ts:354-356 | a cap skip means cap-many distinct sources ahead were dispatched |
| FanoutQueue.KeysInjective | src/commands/autopilot-fanout.ts:448-450 | with slots of one width the legacy, per-source and global keys are all distinct, colons in ids included |
| FanoutQueue.KeysCollideAcrossWidths | src/commands/autopilot-fanout.ts:397-450 | with slots of different widths a legacy and a per-source key coincide |
| FanoutQueue.MinionQueue.Add | src/core/minions/queue.ts:131-237 | live key holder, freed key of a gone row, waiting row under maxWaiting, or a new row, in that order |
| FanoutQueue.ResubmitIff | src/core/minions/queue.ts:139-151 | a key held by a row that is neither dead nor cancelled returns that row unchanged; a dead or cancelled row loses it to a new one |
| FanoutQueue.KeyText | src/commands/autopilot-fanout.ts:397-557 | the three keys |
| FanoutQueue.NamesMatchRecord | src/commands/autopilot-fanout.ts:273-285 | the cycles submitted carry the name the failure record counts, global maintenance does not |
| FanoutQueue.CoalescesIff | src/core/minions/queue.ts:176-225 | with maxWaiting and no standing holder of the key, a row is inserted iff none of its name waits; otherwise the latest waiting row of its name is returned |
| FanoutQueue.RunOneGlobalWaiting | src/commands/autopilot-fanout.ts:548-563 | over a run whose global jobs are submitted with maxWaiting and made to wait by submissions only, at most one waits |
| FanoutQueue.MinionQueue.RetryJob | src/core/minions/queue.ts:523-534 | a retry makes a failed or dead row wait and finds no other |
| FanoutQueue.AddKeepsConsistent | src/core/minions/queue.ts:131-151 | no submission lets a key be held twice, and without maxWaiting the row returned is live and of the kind submitted |
| FanoutQueue.OneStandingJobPerSourceAndSlot | src/commands/autopilot-fanout.ts:448-458 | over any run of submissions, worker transitions and retries that keep their keys there is at most one job per source and slot that is not dead or cancelled, and one global job per slot |
| FanoutQueue.RunConsistentIff | src/core/minions/queue.ts:524-535 | every standing row holds its key, and no key is held twice, throughout a run iff every retry of a dead row finds it with its key |
| FanoutQueue.StepUniqueIff | src/core/minions/queue.ts:131-237 | an event keeps one standing job per kind iff it is neither a retry beside a standing job nor a submission, not coalesced, past one that has lost its key |
| FanoutQueue.RunUniqueIff | src/commands/autopilot-fanout.ts:448-458 | over any run there is never more than one standing job per source and slot, or global job per slot, iff every event is of that sort |
| FanoutQueue.RetryUniqueIff | src/core/minions/queue.ts:524-535 | retrying a dead row leaves one standing job per kind iff none of its kind stands already, which is sure in a consistent queue if it has its key |
| FanoutQueue.RetryAfterResubmission | src/core/minions/queue.ts:139-151 | a job that died, was submitted again and is then retried stands twice |
| FanoutQueue.UniqueUntilSubmission | src/core/minions/queue.ts:139-151 | when its successor has died too, the retry leaves one standing job, and the next submission makes a second one |
| FanoutQueue.DispatchPerSource | src/commands/autopilot-fanout.ts:368-512 | legacy fallback, windowed read, selection, and one submission per dispatched source that does not throw |
| FanoutQueue.SubmitEach | src/commands/autopilot-fanout.ts:430-488 | a submission that throws leaves out its source only |
| FanoutQueue.SubmittedCycles | src/commands/autopilot-fanout.ts:431-450 | every row a tick adds is the cycle of one of its dispatched sources, pulling iff the source has a remote |
| FanoutQueue.DispatchedHaveJobs | src/commands/autopilot-fanout.ts:453-458 | every source reported as dispatched has a job of its own for the slot, possibly finished but not dead or cancelled |
| FanoutQueue.RepeatedTickCoalesces | src/commands/autopilot-fanout.ts:448-450 | a second tick in the same slot inserts nothing while the jobs are not dead or cancelled |
| FanoutQueue.DispatchGlobalMaintenance | src/commands/autopilot-fanout.ts:533-571 | submits exactly when the last global run is missing or old |
| Backlinks.Brain.FindBacklinkGaps | src/commands/backlinks.ts:92-132 | the gaps found by the walk are those of the specification |
| Backlinks.Brain.FindPageGaps | src/commands/backlinks.ts:101-129 | the seen set keeps one gap per target |
| BacklinksReport.ReportedExactly | src/commands/backlinks.ts:99-129 | the gaps are exactly the missing links: a page mentions people/ or companies/ and a slug, first at that reference, and the last page listed with that slug lacks the part of its path after the last slash; each names both pages, the mention and the title |
| BacklinksReport.MentionReported | src/commands/backlinks.ts:111-129 | every mention of a listed page that lacks the file name is reported, under its path and the name of the first such mention |
| BacklinksReport.StandsForIff | src/commands/backlinks.ts:92-97 | a slug stands for the last page listed with it |
| BacklinksReport.EntryLinksToSource | src/commands/backlinks.ts:155-162 | the entry is a dated line whose link, followed from the target page's directory, leads to the mentioning page |
| BacklinksReport.NewTimelineAtEnd | src/commands/backlinks.ts:175-178 | a page without a timeline gets one at its end, with the entry |
| BacklinksReport.EntryAtEnd | src/commands/backlinks.ts:165-174 | with a timeline and no section after it the entry is added at the end |
| Text.WhitespaceCodes | src/commands/backlinks.ts:171-178 | the trailing whitespace trimmed, by code point |
| Backlinks.Brain.FixBacklinkGaps | src/commands/backlinks.ts:136-188 | every existing target takes its gaps in order, missing targets are skipped, a dry run writes nothing, the count is that of gaps with a target |
| Backlinks.GroupByTarget | src/commands/backlinks.ts:140-146 | each target's bucket is its gaps in order |
| Backlinks.Brain.FixTarget | src/commands/backlinks.ts:148-185 | an existing target is rewritten once with all its entries, a missing one or a dry run changes nothing |
| Backlinks.InsertEach | src/commands/backlinks.ts:154-180 | the insertion loop |
| BacklinksRepair.InsertShape | src/commands/backlinks.ts:164-178 | an insertion keeps a prefix and pushes whole lines down or drops trailing whitespace |
| BacklinksRepair.EntryEndsTimeline | src/commands/backlinks.ts:165-171 | with a section after the timeline, the entry becomes the last line of the timeline |
| BacklinksRepair.InsertKeeps | src/commands/backlinks.ts:164-178 | no one-line substring that does not end in whitespace is destroyed |
| BacklinksRepair.InsertAllKeeps | src/commands/backlinks.ts:154-180 | nor do all the insertions of a repair, so no existing link is lost |
| BacklinksRepair.InsertAllCloses | src/commands/backlinks.ts:154-180 | every gap handled is closed after all insertions |
| BacklinksRepair.RepairKeepsLines | src/commands/backlinks.ts:154-185 | all lines survive exactly and in order, blank ones included, up to the whitespace the page ends in |
| BacklinksFixpoint.OneGapPerTarget | src/commands/backlinks.ts:103-116 | a page yields at most one gap per target however often it mentions it |
| BacklinksFixpoint.GapFacts | src/commands/backlinks.ts:114-127 | a gap names a listed target that lacks the source's file name |
| BacklinksFixpoint.NoGapsIff | src/commands/backlinks.ts:99-132 | there are no gaps iff every resolved mention is linked back |
| BacklinksFixpoint.LinksGrow | src/commands/backlinks.ts:136-188 | a repair loses no existing link |
| BacklinksFixpoint.RepairCloses | src/commands/backlinks.ts:148-185 | after a repair every gap with an existing target is closed |
| BacklinksFixpoint.RoundAddsLink | src/commands/backlinks.ts:71-188 | a find-then-fix round that finds a gap adds a link |
| BacklinksFixpoint.RepairTerminates | src/commands/backlinks.ts:71-188 | when every page that can be mentioned gets its own name back from its slug, at most pages-squared rounds reach a state without gaps that further rounds leave alone |
| BacklinksFixpoint.NeverRepaired | src/commands/backlinks.ts:94-124 | for any extractor: a gap between two pages that no slug leads to is reported in every round for ever |
| BacklinksFixpoint.UnreachableMisnamed | src/commands/backlinks.ts:94-98 | if some page that can be mentioned does not get its own name back, there is one that no slug leads to |
| BacklinksFixpoint.TerminatesIff | src/commands/backlinks.ts:71-188 | for any extractor that can mention every misnamed page, the rounds come to an end on all page contents iff no page that can be mentioned is misnamed |
| BacklinksFixpoint.MisnamedNeverRepaired | src/commands/backlinks.ts:94-124 | the failing brain: such a page mentioning itself without its file name |
| BacklinksFixpoint.MisnamedIff | src/commands/backlinks.ts:94-98 | a page people/x.mdT, x without a dot, gets its own name back iff T.md equals .mdT |
| BacklinksFixpoint.MisnamedPage | src/commands/backlinks.ts:94-98 | people/a.md.b.md, with slug people/a.b.md, does not |
| Glob.MatchGlob | scripts/select-e2e.ts:96-122 | fails exactly on unsupported syntax, otherwise accepts exactly the paths the glob means |
| Glob.Compile | scripts/select-e2e.ts:102-120 | the loop emits the text of the compilation |
| Glob.EmittedTextParses | scripts/select-e2e.ts:102-121 | read as a regular expression, the emitted text has one item per token of the glob |
| Glob.CompilationPreservesMeaning | scripts/select-e2e.ts:94-122 | for every path the anchored match of the emitted text agrees with the declarative meaning |
| Glob.StarRun | scripts/select-e2e.ts:107-112 | two or more stars in a row stand for any string of a path without line breaks |
| SelectE2e.Classify | scripts/select-e2e.ts:143-149 | empty, documentation only, or source |
| SelectE2e.SelectTests | scripts/select-e2e.ts:151-187 | the selection case by case: all, nothing, an error, or the sorted union |
| SelectE2e.UnionOf | scripts/select-e2e.ts:165-179 | the set filled is what some changed path asks for; it fails iff the map is consulted and unreadable |
| SelectE2e.SelectionDetermined | scripts/select-e2e.ts:143-187 | the cases determine the output |
| SelectE2e.NothingSelectedIffDocOnly | scripts/select-e2e.ts:8-12 | when tests exist, nothing is selected iff the change is documentation only |
| SelectE2e.DocIsNoEscapeHatch | scripts/select-e2e.ts:52-92 | no documentation path is an escape hatch |
| SelectE2e.HatchIff | scripts/select-e2e.ts:62-92 | the escape hatches are these fourteen files and what lies under these four directories |
| SelectE2e.DocumentIff | scripts/select-e2e.ts:40-59 | documentation is LICENSE, VERSION, Markdown at the root and what lies under docs |
| SelectE2e.ListsDecide | scripts/select-e2e.ts:151-163 | only documentation changed selects nothing; a change to one of the files and directories named selects everything |
| SelectE2e.ChangedTestSelectsItself | scripts/select-e2e.ts:165-174 | a changed test file outside the fixtures, alone, selects itself |
| SelectE2e.OnlySourcePathsMatter | scripts/select-e2e.ts:159-187 | order, repetition and documentation paths never change the selection of a source change |
| SelectE2e.UnmappedPathIgnored | scripts/select-e2e.ts:181-183 | an unmapped path changes nothing; all tests run by default iff no path asks for any |
| SelectE2e.UnmappedForcesAllIff | scripts/select-e2e.ts:8-10 | with an unmapped path in the change set, the output is all tests iff an escape hatch is hit, no path asks for a test, or the union is all tests |
| SelectE2e.SelectionCanShrink | scripts/select-e2e.ts:181-186 | adding a mapped path to an unmapped one shrinks the selection from all tests |
| Migrations.IndexCompleted | src/commands/apply-migrations.ts:120-130 | the index holds each version's entries in order |
| Migrations.StatusForVersion | src/commands/apply-migrations.ts:146-167 | the backward count computes the derived status |
| Migrations.BuildPlan | src/commands/apply-migrations.ts:190-205 | the five lists of the plan |
| Migrations.Ledger.AppendCompleted | src/core/preferences.ts:143-167 | a complete after a complete is not written again |
| Migrations.Ledger.ForceRetry | src/commands/apply-migrations.ts:331-340 | a registered version gets a retry marker, an unknown one an error |
| Migrations.Ledger.ForceOrchestrator | src/commands/apply-migrations.ts:345-361 | a retry marker for every version wedged at the outset, counted |
| Migrations.Ledger.RunApplyMigrations | src/commands/apply-migrations.ts:436-553 | partial then pending migrations are attempted and recorded until a failure, a throw or a failed write |
| Migrations.Ledger.RunEach | src/commands/apply-migrations.ts:482-550 | the loop attempts, records and stops as the specification says |
| MigrationRuns.RunRecords | src/commands/apply-migrations.ts:482-550 | over a run each version attempted is completed, gets one partial, or keeps its entries, by its outcome and whether it could be recorded; the attempted ones are a prefix up to the first that fails, throws or is not recorded; all others keep their entries |
| MigrationRuns.FailsIff | src/commands/apply-migrations.ts:482-552 | the run fails iff one of its migrations fails, throws or is not recorded |
| MigrationRuns.PlanExactly | src/commands/apply-migrations.ts:190-205 | who is in which list of the plan |
| MigrationRuns.WedgedExactly | src/commands/apply-migrations.ts:155-164 | wedged iff never completed and the last three entries are partial |
| MigrationRuns.CompleteSurvives | src/commands/apply-migrations.ts:143-145 | completed survives any appends without a retry |
| MigrationRuns.RetryReopens | src/commands/apply-migrations.ts:135-138 | one retry makes any history pending |
| MigrationRuns.RetryBuysOneAttempt | src/commands/apply-migrations.ts:135-154 | on a completed version a retry buys exactly one attempt, whatever its outcome |
| MigrationRuns.ForceOrchestratorExact | src/commands/apply-migrations.ts:342-361 | the pass makes exactly the wedged registered versions pending and changes no other status |
| MigrationRuns.RunsInRegistryOrderIff | src/commands/apply-migrations.ts:461-475 | the run list is in registry order iff no pending migration stands before a partial one |
| MigrationRuns.PartialRunsFirst | src/commands/apply-migrations.ts:461-475 | a partial migration registered after a pending one runs first |
| MigrationRuns.EveryRunSpends | src/commands/apply-migrations.ts:461-550 | a run with something to do strictly decreases the attempts left, whatever the orchestrators return or throw |
| MigrationRuns.NothingPlannedIffSettled | src/commands/apply-migrations.ts:190-205 | a run has nothing to do iff every version is applied, wedged or future |
| MigrationRuns.QuiescentAfterRuns | src/commands/apply-migrations.ts:461-550 | after three runs per registered migration every version is applied, wedged or future |
| MigrationRuns.NamedNotFoundIff | src/commands/apply-migrations.ts:453-456 | a migration given by name is reported as not registered iff it is not registered or wedged |
| Shell.ShellRoundTrip | src/commands/connect.ts:271-284 | lexing the rendered command gives the binary and exactly the arguments iff no argument holds a NUL |
| Shell.QuotedArgument | src/commands/connect.ts:276-279 | a quoted argument is read as that one word |
| Shell.LeftUnquotedIff | src/commands/connect.ts:276-279 | an argument is left as it is iff it consists of letters, digits and - . / : @ _, one at least |
| Shell.SpecialStops | src/commands/connect.ts:271-275 | the lexing used stops at any unquoted character with a meaning of its own |
| Shell.CommandGrows | src/commands/connect.ts:281-284 | each further argument adds one blank and its quotation |
| Shell.TokenStaysInOneArgument | src/commands/connect.ts:262-284 | whatever the token holds, the client receives it inside one argument |
| Shell.CodexCommandRoundTrip | src/commands/connect.ts:266-284 | the command for the other client lexes to exactly its arguments |
| Bootstrap.BootstrapFile.Inject | src/commands/autopilot.ts:1615-1627 | skips a marked file, else trims and appends the snippet |
| Bootstrap.InjectedLines | src/commands/autopilot.ts:1614-1626 | below the trimmed text stand the marker line and the start command |
| Bootstrap.BootstrapFile.Uninstall | src/commands/autopilot.ts:1709-1724 | removes each marked line and its successor |
| Bootstrap.UninstallUndoesInject | src/commands/autopilot.ts:1612-1724 | uninstall after inject gives the original text, trimmed and ended by one newline |
| Bootstrap.UninstallAfterAppend | src/commands/autopilot.ts:1612-1724 | text written below the injected lines in the meantime is kept unchanged |
| Bootstrap.InjectTwiceAndCycle | src/commands/autopilot.ts:1615-1626 | injecting twice is injecting once, and a second install-uninstall cycle changes nothing |
| Bootstrap.UninstallRemovesMarker | src/commands/autopilot.ts:1711-1724 | after an uninstall no marker is left, whatever the file held |
| Bootstrap.UninstallKeepsOtherLines | src/commands/autopilot.ts:1711-1724 | the lines left are, in order, those that neither open a removal nor follow one that does |
| Drain.JobTable.AutoDrain | src/commands/autopilot.ts:813-888 | the loop with its early exits computes the tick |
| Drain.DrainKeeps | src/commands/autopilot.ts:833-888 | the counter stays in step with the day's jobs, the cap holds and no source gets a second job |
| Drain.DailyCap | src/commands/autopilot.ts:816-819 | over any ticks of a day that starts within the cap, jobs times 0.3 stay within the daily budget, one job per source |
| Drain.MaxJobsExactly | src/commands/autopilot.ts:816-819 | the cap is the number of runs at 0.30 the budget pays for |
| Drain.CountExactly | src/commands/autopilot.ts:822-828 | the count is that of the day's jobs |
| Drain.TickAdds | src/commands/autopilot.ts:840-888 | a tick adds exactly as many jobs as sources qualify, or what its count leaves of the cap |
| Drain.BlindTick | src/commands/autopilot.ts:829-831 | a tick that cannot read the count gives no source a second job and adds at most the cap |
| Drain.BlindTickKeepsCapIff | src/commands/autopilot.ts:829-838 | such a tick keeps the daily cap iff no job of the day exists or no more sources qualify than the cap has left |
| Drain.BlindTickExceedsCap | src/commands/autopilot.ts:829-838 | with the cap used up, one more qualifying source takes it over the cap |
| Drain.KeyTakenBySourceOnly | src/commands/autopilot.ts:842-861 | a source's key is taken only by its own job of the day |

## Left out

- Processes, files, git, SQL text, HTTP and the parsing of logs, JSON, ISO dates and command-line flags: their results are parameters.
- Floating point: weights, quotients and budgets are exact reals, ages are compared in integer milliseconds.
- Strings are sequences of Unicode scalar values, so the order of strings differs from JavaScript's order of UTF-16 units outside the basic plane.
- The directory walk of the back-link finder (hidden and underscored names, unreadable files): the list of pages found is a parameter.
- ShardingResults.PartitionMakespan: assumes non-negative weights, which is what loading guarantees; a caller could pass a negative weight directly.
- BacklinksFixpoint.RepairTerminates: the listing and its order are the same in every round, all files exist, and names hold no newline.
- FanoutWaiting.BoundedWaiting: every submission succeeds.
- FanoutQueue.OneStandingJobPerSourceAndSlot: the pruning of old rows is not an event of the model.
- Queue features the autopilot does not use (delays, parents, other queues, concurrent submitters).
- The clamp of the fan-out to the worker's concurrency, the health score routing of a tick, and the autopilot lock file.
- Migrations.Ledger.RunApplyMigrations: schema migrations, `--list` and `--dry-run` are not modelled; orchestrators do not write to the ledger themselves.
- The shell model rejects double quotes and every expansion instead of interpreting them, and stops at tokens: no grammar, reserved words or aliases.
- Backups of bootstrap files, the detection of bootstrap candidates, and the other install targets.
