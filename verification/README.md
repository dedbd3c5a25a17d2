# Verified models of the repository's scripts

This project models the algorithms behind the repository's benchmark, backfill and release tooling and proves
what those scripts promise. `dafny verify dfyconfig.toml` checks all of it.

- **Frozen snapshots** (`FrozenSnapshot`): a repository as a maintainer saw it at instant T. Nothing after T
  reaches the snapshot, the order of reading does not matter, and the checksum commits to the content.
- **Phase 2 of the calibration backfill** (`RawContextPass`, `RawContextCampaign`, `SuccessorCursor`,
  `SuccessorMatch`, `MetadataPatches`, `TargetKeys`): resumable, budgeted passes over GitHub, as campaigns of
  runs that stop, abort and resume on an arbitrary network.
- **Counterfactual replay** (`CounterfactualReplay`): the budgeted loop over the artifact cache.
- **Phase 1 of the calibration backfill** (`CorpusSynthesis`, `SqlText`, `UpsertStore`, `SqlEngine`, `AuditRows`):
  decisions to audit rows, rows to SQL text, SQL text to a table. `PhaseOneRerun` puts the two phases together.
- **Released migrations** (`ReleasedMigrations`): what a check per release means for every deployment.
- **Scanners and rewriters** (`CleanSql`, `TemplateCollapse`, `MarkerRewrite`).
- **Worklists and graph checks** (`Worklists`, `Reachability`, `PublishableDeps`, `LinkedVersions`).
- `Text`, `Sequences` and `Sorting` hold the string order, filters and maps, and stable sorting.

`Date.parse`, `Number`, `toISOString`, `JSON.stringify`, SHA-256, `evaluateSuccessorMatch`, the rebaseline
table, the model provider, GitHub and the regular expressions that pull names out of a script body are
parameters. A theorem that needs one of them to be injective or in order says so.

## What the code does not do

Where a promised property fails, the code is modelled as it is, and a lemma says exactly when the property holds.

- The raw-context pass counts a diff request that ends in a 403, 429 or 5xx after five attempts as "no match"
  and moves its cursor past the row, so no later run patches it. Resumed runs equal an uninterrupted one exactly
  when that never happens to a row that wanted its diff (`ResumedEqualsUninterrupted`; `TransientErrorLosesRow`
  is a concrete run).
- Snapshots do not depend on the order of reading exactly when no id names two open units of one kind that look
  different at T (`OrderIndependenceIsExact`; `RetitledUnitsClash` is such an input).
- Checked releases keep every deployment booting exactly when each rebaselined file that was first shipped under
  the check, with a release after it, was first shipped at its rebaselined content
  (`UpgradesBootIffRebaselineIsSafe`; `RebaselinedEditStopsUpgrade` is a history that passes and stops). From a
  ledger recorded at any time they do exactly when, besides, it agrees with what those releases ship
  (`LedgerBootsIff`).
- "Latest terminal decision wins" compares ISO texts. It holds in every list drawn from the rows exactly when the
  ISO texts of each target's eligible decisions follow their times (`LatestWinsIffIsoFollowsTime`). At the turn of
  the year 10000 they do not (`ExtendedYearLoses`).
- "The earliest qualifying merge wins" compares merge timestamps as text. It holds in every list drawn from the
  candidates exactly when the qualifying timestamps are in text order where they are in time order
  (`EarliestWinsIffTextFollowsTime`). A timestamp with an offset is enough to lose (`OffsetTimestampLoses`).
- A request that fails, because the provider throws or its answer cannot be written, leaves nothing in the cache,
  so the fixture is sent again. No fixture is sent twice exactly when no run that failed is followed by one whose
  budget gets as far as the fixture (`SentOnceIffNoRetry`; `FailThenSucceedSendsTwice` is the two-run case).
- Re-running phase 1 is a no-op only while its rows are unchanged: after phase 2 it overwrites the patched
  metadata (`RerunIsNoOpIff`, `PhaseOneResetsMetadata`). A later raw-context campaign gives a row its diff back exactly
  when no run loses it and the saved cursor had not passed it (`RerunRestoredIff`, `RerunLosesDiff`;
  `SmallRerunLosesDiff` is one decision). The header of backfill-calibration-corpus-core.ts (line 15) still says
  `INSERT OR IGNORE`; the code upserts, and the model follows the code.
- The linked-versions check compares group names, and every unnamed plugin has the same one. Passing means one
  plugin per chain exactly when deciding plugins that carry the same name are the same plugin
  (`LinkedMeansOnePluginIff`; `TwoUnnamedPlugins` is a configuration that passes with two groups).
- Rewriting a generated section again changes nothing exactly when the new text does not contain the END marker.
  When END ends by the end of BEGIN the file is accepted and grows on every rewrite (`MisorderedMarkersGrow`,
  `SwappedMarkersGrow`).
- A call resolves to its documented path exactly when no later documented path has the same shape and the path
  does not end in a slash (`ResolveUndoesFill`; `UserPathResolvesToLogin` is a pair of paths of one shape).
- One fixture whose own cost exceeds the budget blocks every replay run, even when it is cached
  (`CompletableIffFits`).

## Model

| member | source | states |
|---|---|---|
| `FrozenSnapshot.DecisionOrderIsTotal` | scripts/frozen-repo-snapshot-core.ts:148-160 | the decision comparator is a total order whose ties are only between equal decisions |
| `FrozenSnapshot.SnapshotShows` | scripts/frozen-repo-snapshot-core.ts:198-247 | a built snapshot holds exactly the units of each kind created by T and not known to be closed by T, one to one, with their id, number, kind, title, body, author and creation time, exactly the non-empty labels applied by T and the changed paths, both sorted without repeats, and exactly the decisions made by T, in order; its checksum is that of this content |
| `FrozenSnapshot.BodyJsonShows` | scripts/frozen-repo-snapshot-core.ts:178-189 | the text under the checksum is an object with sorted keys that holds every field but the checksum |
| `FrozenSnapshot.UnitJsonShows` | scripts/frozen-repo-snapshot-core.ts:184-185 | a frozen unit is written with its nine fields under sorted keys |
| `FrozenSnapshot.DecisionJsonShows` | scripts/frozen-repo-snapshot-core.ts:186-186 | a frozen decision is written with its four fields under sorted keys |
| `FrozenSnapshot.NonInterference` | scripts/frozen-repo-snapshot-core.ts:198-247 | two inputs that differ only in records created, labels applied, decisions made or closes happening after T (or at unreadable times) build the same snapshot, checksum included |
| `FrozenSnapshot.SortedSetCanonical` | scripts/frozen-repo-snapshot-core.ts:143-144 | a deduplicated sorted list depends only on which strings occur |
| `FrozenSnapshot.OrderIndependence` | scripts/frozen-repo-snapshot-core.ts:191-247 | permuting the work units and the decisions leaves the snapshot and its checksum unchanged, for units without clashing ids |
| `FrozenSnapshot.OrderIndependenceIsExact` | scripts/frozen-repo-snapshot-core.ts:156-160 | every reordering of the units gives the same snapshot if and only if no id names two open units of one kind that freeze differently |
| `FrozenSnapshot.RetitledUnitsClash` | scripts/frozen-repo-snapshot-core.ts:156-160 | one pull request read with two titles: the order of reading shows in the snapshot |
| `FrozenSnapshot.ListOrderIndependence` | scripts/frozen-repo-snapshot-core.ts:130-146 | reordering or repeating labels and changed paths never changes the snapshot |
| `FrozenSnapshot.ChecksumCommits` | scripts/frozen-repo-snapshot-core.ts:169-189 | two verifying snapshots with one checksum have the same content, or their own two texts are different and collide under the hash |
| `FrozenSnapshot.AuditSnapshotForLeaks` | scripts/frozen-repo-snapshot-core.ts:264-281 | the audit reports exactly the units and decisions that are not by T and the four outcome fields that a unit carries, of an arbitrary deserialized snapshot, each once per occurrence and in order |
| `FrozenSnapshot.BuiltSnapshotIsSound` | scripts/frozen-repo-snapshot-core.ts:249-281 | every built snapshot verifies its own checksum and has no leak to report |
| `RawContextPass.FetchFrom` | scripts/backfill-calibration-corpus-phase2.ts:122-149 | a fetch spends between one and five requests, whatever the network does |
| `RawContextPass.FetchStopsAtFirstServed` | scripts/backfill-calibration-corpus-phase2.ts:122-149 | a fetch stops at the first attempt that is served or after the fifth, and ends as that attempt does: answered, thrown, or given up on a 403, 429 or 5xx |
| `RawContextPass.RequestBudget.constructor` | scripts/backfill-calibration-corpus-phase2.ts:102-104 | a new budget has spent nothing |
| `RawContextPass.RequestBudget.Spend` | scripts/backfill-calibration-corpus-phase2.ts:108-110 | one request more is spent |
| `RawContextPass.GithubFetch` | scripts/backfill-calibration-corpus-phase2.ts:113-149 | the retry loop ends and spends as `FetchFrom` says, final 403, 429 and 5xx responses included |
| `RawContextPass.GoalIsIdempotent` | scripts/backfill-calibration-corpus-phase2.ts:438-459 | a row that reached its goal stays there |
| `RawContextPass.GoalOnAnswers` | scripts/backfill-calibration-corpus-phase2.ts:428-450 | the goal of a row is the patch with its diff where the repository answered `private: false` and the diff is to be had, and the row as it is otherwise |
| `RawContextPass.RowWithoutDiff` | scripts/backfill-calibration-corpus-phase2.ts:421-436 | a row without a target, one whose repository cannot be asked, and one of a private repository: what is counted, spent and saved, and which of them ends the run |
| `RawContextPass.RowWithDiff` | scripts/backfill-calibration-corpus-phase2.ts:438-459 | a row of a public repository, on what the request, the body, the patcher and the update do: what ends the run, what counts as patched, already patched or no match, and what is written |
| `RawContextPass.AskRepo` | scripts/backfill-calibration-corpus-phase2.ts:428-431 | the privacy of a repository is asked once, and a refused, failed or unreadable answer aborts the run |
| `RawContextPass.ScanDiff` | scripts/backfill-calibration-corpus-phase2.ts:438-459 | database, cursor, budget and report move as the diff step on values does, unreadable bodies and failing updates included |
| `RawContextPass.ApplyMetadataUpdate` | scripts/backfill-calibration-corpus-phase2.ts:254-256 | an update lands, or throws with or without having been written |
| `RawContextPass.ScanRow` | scripts/backfill-calibration-corpus-phase2.ts:421-459 | database, cursor, privacy cache, budget and report move as the row step on values does |
| `RawContextPass.ScanRows` | scripts/backfill-calibration-corpus-phase2.ts:415-462 | the loop with its budget check and break refines the recursive pass, though it reads rows loaded before it started |
| `RawContextPass.RunRawContextPass` | scripts/backfill-calibration-corpus-phase2.ts:410-463 | a run from a saved cursor refines the pass over exactly the rows the cursor has not passed |
| `RawContextCampaign.RowEffect` | scripts/backfill-calibration-corpus-phase2.ts:421-459 | one row changes only its own metadata, to its goal, spends at most ten requests, keeps the report balanced, and leaves the goal unmet only when the run aborted or gave up on its diff and left the row as it was |
| `RawContextCampaign.PassEffect` | scripts/backfill-calibration-corpus-phase2.ts:415-462 | what holds at the end of every run: which rows are done, where the cursor is, what was given up, how much was spent |
| `RawContextCampaign.SpendIsBounded` | scripts/backfill-calibration-corpus-phase2.ts:415-462 | no run, aborted ones included, spends more than its maximum plus nine, and its report accounts for every scanned row |
| `RawContextCampaign.ExhaustedRunAdvances` | scripts/backfill-calibration-corpus-phase2.ts:416-420 | a run stopped by its budget strictly advanced the cursor |
| `RawContextCampaign.ExhaustedRunsAreFew` | scripts/backfill-calibration-corpus-phase2.ts:416-420 | no campaign has more budget-stopped runs in a row than there are rows |
| `RawContextCampaign.PassedRowsStay` | scripts/backfill-calibration-corpus-phase2.ts:412-412 | no campaign touches a row that the cursor has passed, whatever it holds |
| `RawContextCampaign.PrivateRowsStay` | scripts/backfill-calibration-corpus-phase2.ts:428-436 | no campaign changes a row whose repository did not answer `private: false` |
| `RawContextCampaign.CampaignInvariant` | scripts/backfill-calibration-corpus-phase2.ts:410-463 | from any saved state, after any campaign of limited and aborted runs, every row is as it was or at its goal, and a row the cursor has passed is at its goal unless it was left behind at the start or a run gave up on it while it wanted its diff |
| `RawContextCampaign.RowReachesGoalIff` | scripts/backfill-calibration-corpus-phase2.ts:410-463 | from any saved state, a campaign ended by an unexhausted run brings a row to its goal if and only if no run lost it and the cursor had not passed it, unless it was there already |
| `RawContextCampaign.CampaignReachesGoal` | scripts/backfill-calibration-corpus-phase2.ts:410-463 | any campaign ended by an unexhausted run leaves the goal store if and only if no run lost a row |
| `RawContextCampaign.ResumedEqualsUninterrupted` | scripts/backfill-calibration-corpus-phase2.ts:410-463 | such a campaign leaves the same store as one finished run on a network that never gives up, if and only if it lost no row |
| `RawContextCampaign.SteadyNetworksLoseNothing` | scripts/backfill-calibration-corpus-phase2.ts:438-443 | where five attempts in a row without an answer always end in a thrown fetch, nothing is lost, however runs are limited or aborted |
| `RawContextCampaign.TransientErrorLosesRow` | scripts/backfill-calibration-corpus-phase2.ts:438-443 | a concrete run in which five failed attempts lose a row for good |
| `RawContextCampaign.ScriptWorldSettles` | scripts/backfill-calibration-corpus-phase2.ts:444-450 | the script's own key splitter, diff cap and patcher meet the assumptions of the campaign theorems |
| `RawContextCampaign.ScriptGoalShows` | scripts/backfill-calibration-corpus-phase2.ts:444-450 | what the script writes into a row: the diff, capped at 45000 characters with a marker where the driver inlines SQL, cut at the limit, with its provenance |
| `TargetKeys.SplitTargetKey` | scripts/backfill-calibration-corpus-phase2.ts:258-263 | a split key is a non-empty repository, the last `#`, and the rest |
| `TargetKeys.SplitUndoesKey` | scripts/backfill-calibration-corpus-phase2.ts:258-263 | splitting a key that phase 1 built gives back its repository and number, even when the repository holds a `#` |
| `TargetKeys.SplitsIff` | scripts/backfill-calibration-corpus-phase2.ts:258-263 | a key splits if and only if its last `#` follows a non-empty repository and precedes a finite number |
| `TargetKeys.FilterIsSuffix` | scripts/backfill-calibration-corpus-phase2.ts:412-412 | on sorted keys the resume filter leaves exactly the suffix the cursor has not passed |
| `SuccessorCursor.GroupByRepo` | scripts/backfill-calibration-corpus-phase2.ts:309-314 | the loop builds the insertion-ordered grouping of the parseable rows |
| `SuccessorCursor.VisitsInKeyOrder` | scripts/backfill-calibration-corpus-phase2.ts:306-329 | for repository names without `#`, walking the groups of sorted keys visits the parseable rows in exactly the sorted order |
| `SuccessorCursor.ResumeLeavesExactlyTheRest` | scripts/backfill-calibration-corpus-phase2.ts:304-329 | wherever a run stops, the next one visits exactly the rows not yet visited, in order |
| `SuccessorMatch.MatchIsLeast` | scripts/backfill-calibration-corpus-phase2-core.ts:61-79 | the match names the number and heuristics of the least candidate, by merge timestamp and number, among those that are another pull request, merged after the close within the lookback and accepted by the heuristics; it is null exactly when there is none |
| `SuccessorMatch.CandidateOrderIsIrrelevant` | scripts/backfill-calibration-corpus-phase2-core.ts:56-79 | permuting candidates with distinct numbers keeps the match |
| `SuccessorMatch.MoreCandidatesKeepTheMatch` | scripts/backfill-calibration-corpus-phase2-core.ts:56-79 | adding candidates that do not qualify or come later keeps the match |
| `SuccessorMatch.WinnerMergedFirst` | scripts/backfill-calibration-corpus-phase2-core.ts:56-79 | the winner is the earliest merge in time where the qualifying timestamps are in text order |
| `SuccessorMatch.EarliestWinsIffTextFollowsTime` | scripts/backfill-calibration-corpus-phase2-core.ts:59-70 | the earliest merge wins in every list drawn from the candidates if and only if the qualifying timestamps are in text order where they are in time order |
| `SuccessorMatch.LaterMergeWins` | scripts/backfill-calibration-corpus-phase2-core.ts:70-76 | of two qualifying candidates out of text order the later merge is matched |
| `SuccessorMatch.OffsetTimestampLoses` | scripts/backfill-calibration-corpus-phase2-core.ts:70-70 | a merge at eight written with an offset loses to one at nine |
| `MetadataPatches.PatchesAreConfluent` | scripts/backfill-calibration-corpus-phase2-core.ts:129-185 | any sequence, with repeats, of the diff and reason-code patches ends where the set of them ends |
| `MetadataPatches.SamePatchesSameMetadata` | scripts/backfill-calibration-corpus-phase2-core.ts:124-185 | two campaigns made of the same patches leave the same metadata |
| `MetadataPatches.FiredPatchesAreFramed` | scripts/backfill-calibration-corpus-phase2-core.ts:129-195 | no other key changes, captured text is never replaced, and unparseable metadata is left alone |
| `MetadataPatches.FirstRetroLabelIsFinal` | scripts/backfill-calibration-corpus-phase2-core.ts:93-122 | on override rows `reversed` is absorbing, the first retro label is never replaced, and no other key changes |
| `MetadataPatches.FiredPatchesShow` | scripts/backfill-calibration-corpus-phase2-core.ts:129-185 | what any sequence of the two fired patches leaves under each key: the first characters of the diff and the trimmed reason code with their provenance where they were due, and the old values otherwise |
| `MetadataPatches.FirstRetroLabelShows` | scripts/backfill-calibration-corpus-phase2-core.ts:93-122 | what the first override patch records: the verdict and the retro label of its kind |
| `CounterfactualReplay.RunReplay` | scripts/counterfactual-replay.ts:194-211 | the loop over the artifacts directory refines the recursive replay, with every request and answer recorded, those that a failure kept out of the cache included |
| `CounterfactualReplay.CampaignSavesPrefix` | scripts/counterfactual-replay.ts:196-211 | after any campaign from an empty cache, exactly a prefix of the plan was saved, each fixture once and in order, and the artifacts are those of that prefix |
| `CounterfactualReplay.RequestCount` | scripts/counterfactual-replay.ts:201-208 | a fixture is sent once for its saved answer, if it has one, and once for every run that failed on it |
| `CounterfactualReplay.AnswerCount` | scripts/counterfactual-replay.ts:204-208 | a fixture is answered once for its saved answer, if it has one, and once for every answer that could not be written |
| `CounterfactualReplay.SentOnceIffNoRetry` | scripts/counterfactual-replay.ts:196-211 | no fixture is sent twice if and only if no run that failed is followed by one whose budget gets as far as the fixture it failed on |
| `CounterfactualReplay.FailThenSucceedSendsTwice` | scripts/counterfactual-replay.ts:204-207 | one fixture, a run that fails and a run that succeeds: the fixture is sent twice, and answered twice if the first answer could not be written |
| `CounterfactualReplay.EveryRunScoresPrefix` | scripts/counterfactual-replay.ts:196-211 | the costs of the answers a run saved add up to what it spent and stay within its budget, and it scores a prefix of the plan with the verdicts of an unlimited run |
| `CounterfactualReplay.SpentIsTotal` | scripts/counterfactual-replay.ts:198-208 | a run has always spent exactly what the fixtures it saved cost |
| `CounterfactualReplay.CachedAnswersAreScored` | scripts/counterfactual-replay.ts:199-210 | from any cache, stale artifacts included, a scored fixture gets the verdict of its artifact, or of a new answer where there was none |
| `CounterfactualReplay.IncompleteRunMakesProgress` | scripts/counterfactual-replay.ts:198-209 | where every cost fits, a run that neither fails nor completes caches a new fixture |
| `CounterfactualReplay.CampaignCompletes` | scripts/counterfactual-replay.ts:196-211 | where every cost fits, as many runs as fixtures complete the plan, with the verdicts of one unlimited run |
| `CounterfactualReplay.CompletableIffFits` | scripts/counterfactual-replay.ts:198-198 | a plan can be completed under a budget if and only if every fixture's own cost fits it |
| `ReleasedMigrations.Freeze` | scripts/check-released-migrations-immutable.ts:48-51 | each file is frozen at the tag and content of the oldest release that shipped it |
| `ReleasedMigrations.ApplyRebaseline` | scripts/check-released-migrations-immutable.ts:54-57 | rebaselined files keep their tag and take the table's content |
| `ReleasedMigrations.FindMutatedReleasedMigrations` | scripts/check-released-migrations-immutable.ts:44-66 | the violations are exactly the shipped files that are missing or differ from their baseline, one each and sorted by name, and none exactly when the files pass |
| `ReleasedMigrations.ReleasedFilesAreImmutable` | scripts/check-released-migrations-immutable.ts:13-21 | in a checked history a released file never disappears and keeps its first-released or rebaselined content |
| `ReleasedMigrations.DeploymentsBoot` | src/selfhost/migrate.ts:139-170 | with a safe rebaseline table, a deployment running checked releases in any order never meets a recorded-hash mismatch |
| `ReleasedMigrations.UpgradesBootIffRebaselineIsSafe` | scripts/check-released-migrations-immutable.ts:5-9 | a fresh deployment boots along every upgrade path of checked releases if and only if the table is safe |
| `ReleasedMigrations.LedgerBootsIff` | scripts/migration-rebaseline.ts:7-11 | from any ledger, every upgrade path of checked releases boots if and only if the table is safe and each recorded hash of a file they ship is what they ship |
| `ReleasedMigrations.RebaselinedEditStopsUpgrade` | scripts/migration-rebaseline.ts:17-19 | one file edited after its first release and rebaselined: the check passes, and the upgrade does not boot |
| `CorpusSynthesis.SortOut` | scripts/backfill-calibration-corpus-core.ts:90-106 | eligible decisions and the three skip counters, which together account for every input row |
| `CorpusSynthesis.SynthesizeBackfillRows` | scripts/backfill-calibration-corpus-core.ts:77-147 | the counters on the input rows: one eligible for each newest eligible row of a target, reversed for those that were merged, a skip for each reason in order of priority, and all of them together make the input length; twice as many rows as eligible are emitted |
| `CorpusSynthesis.SynthesisIsExact` | scripts/backfill-calibration-corpus-core.ts:109-145 | each target with an eligible row gets exactly one pair, that of its newest one (first in the input on ties), column by column: labelled reversed exactly when that row was merged, with its confidence and times, the override one second after the firing |
| `CorpusSynthesis.EmittedRowsHaveDecisions` | scripts/backfill-calibration-corpus-core.ts:109-145 | every emitted row belongs to the target of an eligible decision |
| `CorpusSynthesis.CandidateRows` | scripts/backfill-calibration-corpus-core.ts:90-106 | the candidates are the eligible rows in order, each with its row's target, time, label and confidence |
| `CorpusSynthesis.WinnersAreDistinct` | scripts/backfill-calibration-corpus-core.ts:109-116 | winners have distinct targets, each with an eligible decision |
| `CorpusSynthesis.EmittedIdsAreDistinct` | scripts/backfill-calibration-corpus-core.ts:123-144 | the emitted ids are pairwise distinct |
| `CorpusSynthesis.LatestWinsIffIsoFollowsTime` | scripts/backfill-calibration-corpus-core.ts:107-107 | the latest decision in time wins in every list drawn from the rows if and only if the ISO texts of each target's eligible decisions follow their times |
| `CorpusSynthesis.ExtendedYearLoses` | scripts/backfill-calibration-corpus-core.ts:107-114 | a decision of the year 10000 loses to one of 9999 |
| `CorpusSynthesis.EarlierWins` | scripts/backfill-calibration-corpus-core.ts:107-114 | two decisions out of text order: the earlier one wins |
| `SqlText.ReadPrintedLiteral` | scripts/backfill-calibration-corpus-core.ts:150-152 | reading a printed literal gives back the string, whatever quotes it holds |
| `SqlText.BuildBackfillInsertStatements` | scripts/backfill-calibration-corpus-core.ts:163-181 | one statement per chunk, for every integer chunk size |
| `SqlText.StatementsRoundTrip` | scripts/backfill-calibration-corpus-core.ts:163-181 | reading all statements back in order gives exactly the rows, and every statement but the last holds as many as the chunk size, or one where that is not positive |
| `UpsertStore.ExecutingPrintedStatements` | scripts/backfill-calibration-corpus-core.ts:175-178 | executing the printed text upserts exactly the rows, whatever the chunk size |
| `SqlEngine.RunningPrintedStatements` | scripts/backfill-calibration-corpus-core.ts:163-181 | an engine that reads column names, values and conflict clause from the text alone upserts exactly the rows, whatever the chunk size |
| `SqlEngine.ConflictUpdates` | scripts/backfill-calibration-corpus-core.ts:176-177 | on a conflict the detail, the metadata and the time are overwritten and nothing else |
| `UpsertStore.FullRowsIffFixedColumnsAgree` | scripts/backfill-calibration-corpus-core.ts:176-177 | the full rows end up at their ids if and only if the columns outside the conflict clause already agreed |
| `UpsertStore.RestartReachesSameTable` | scripts/backfill-calibration-corpus-core.ts:154-162 | however often it is stopped early, re-running from the start reaches the table of one run |
| `UpsertStore.RestartedStatements` | scripts/backfill-calibration-corpus-core.ts:163-181 | the script's statement texts for synthesized rows, stopped after any of them and all executed again, leave the table of one execution |
| `UpsertStore.RerunIsNoOpIff` | scripts/backfill-calibration-corpus-core.ts:154-162 | a re-run changes nothing if and only if every row is there with its detail, metadata and time |
| `UpsertStore.LaterBackfillWins` | scripts/backfill-calibration-corpus-core.ts:154-162 | across two runs over different ledger states the second leaves its full rows and nothing else changes |
| `PhaseOneRerun.PhaseOneResetsMetadata` | scripts/backfill-calibration-corpus-core.ts:176-177 | phase 1 puts its own metadata into the fired row of every winner, and so changes a table in which a patch had altered it |
| `PhaseOneRerun.RerunLosesDiff` | scripts/backfill-calibration-corpus-phase2.ts:412-412 | after a phase-1 re-run, one that adds targets included, a winner that the raw-context cursor has passed and that wants its diff never gets it back, however many raw-context runs follow |
| `PhaseOneRerun.RerunRestoredIff` | scripts/backfill-calibration-corpus-phase2.ts:410-463 | after a phase-1 re-run, a finished raw-context campaign brings a winner to its goal if and only if no run lost it and the saved cursor had not passed it, unless it needs no diff |
| `PhaseOneRerun.SmallRerunLosesDiff` | scripts/backfill-calibration-corpus-phase2.ts:412-412 | one closed decision, its row passed by the cursor: its diff does not come back |
| `CleanSql.CleanSql` | scripts/check-migrations.ts:76-132 | on every text, terminated or not, the output is the rendering of a token-level reading of the text |
| `CleanSql.ReadingIsUnique` | scripts/check-migrations.ts:78-130 | a text has one token-level reading |
| `CleanSql.ReadingIsLossless` | scripts/check-migrations.ts:78-130 | the tokens spell the text back |
| `CleanSql.SurvivorsKeepTheirLine` | scripts/check-migrations.ts:179-185 | every surviving character is the source character it came from and has its line number, although doubled quotes shorten the text |
| `CleanSql.EverythingElseIsBlank` | scripts/check-migrations.ts:81-127 | any character of the output that is neither blank nor newline is code, or content of a quoted token before a dot |
| `TemplateCollapse.SkipInterpolation` | scripts/gen-contract-api-schemas.ts:126-132 | the inner loop stops behind the brace that closes the interpolation |
| `TemplateCollapse.CollapseInterpolations` | scripts/gen-contract-api-schemas.ts:123-138 | the loop computes the recursive collapse |
| `TemplateCollapse.CollapseFilled` | scripts/gen-contract-api-schemas.ts:123-138 | collapsing a path filled with balanced expressions gives its shape |
| `TemplateCollapse.ShapePrinted` | scripts/gen-contract-api-schemas.ts:108-108 | the documented path text has the shape of its pieces |
| `TemplateCollapse.BuildShapeTable` | scripts/gen-contract-api-schemas.ts:106-108 | the shape table keeps the last parameterised path of each shape |
| `TemplateCollapse.ResolvesIff` | scripts/gen-contract-api-schemas.ts:118-144 | on every text: a call of the API with an interpolation resolves to a path if and only if that is the last parameterised path of its shape, and to none if and only if no parameterised path has its shape; any other text resolves to none |
| `TemplateCollapse.ResolveUndoesFill` | scripts/gen-contract-api-schemas.ts:118-144 | a call that spells out any balanced filling, with slashes and query, resolves to exactly its documented path if and only if that path is the last of its shape and does not end in a slash |
| `TemplateCollapse.SharedShapeResolvesToLast` | scripts/gen-contract-api-schemas.ts:108-108 | of two documented paths of one shape every call resolves to the second |
| `TemplateCollapse.UserPathResolvesToLogin` | scripts/gen-contract-api-schemas.ts:108-108 | a concrete pair of paths of one shape |
| `TemplateCollapse.LeadOfTemplate` | scripts/gen-contract-api-schemas.ts:115-116 | the name or call in front of a template is read back, whatever blanks are around it |
| `TemplateCollapse.ComposedCallResolves` | scripts/gen-contract-api-schemas.ts:113-120 | a call composed on a declared base, by name or helper call, resolves like the path it stands for |
| `TemplateCollapse.UndeclaredLeadResolvesToNone` | scripts/gen-contract-api-schemas.ts:115-121 | a call composed on a name or helper that is not declared resolves to none |
| `MarkerRewrite.RewriteIsFramedAndIdempotent` | scripts/gen-mcp-client-config.ts:132-137 | when END ends behind BEGIN, also when it starts inside it, text through BEGIN and from END on is kept, and rewriting twice is rewriting once if and only if the replacement does not contain END |
| `MarkerRewrite.FailsIffMarkerMissing` | scripts/gen-mcp-client-config.ts:132-137 | the rewrite fails if and only if a marker is missing |
| `MarkerRewrite.MisorderedMarkersGrow` | scripts/gen-mcp-client-config.ts:133-136 | when END ends by the end of BEGIN every rewrite makes the file longer |
| `MarkerRewrite.SwappedMarkersGrow` | scripts/gen-mcp-client-config.ts:133-136 | a file with its markers swapped grows |
| `Worklists.ReachableNpmScripts` | scripts/check-checkers-wired.ts:71-95 | exactly the names reachable from the root, on cyclic scripts too: the least set that has the root and, with each script, its references and its defined pre and post hooks |
| `Worklists.CollectCoverage` | scripts/check-typecheck-coverage.ts:66-83 | exactly what a script reachable from the entry covers, which are the scripts of the least set closed under references |
| `Worklists.FindTypecheckGaps` | scripts/check-typecheck-coverage.ts:61-92 | exactly the workspaces that no reachable script covers under any of three aliases, in order |
| `Worklists.Closure` | scripts/gen-contract-api-schemas.ts:225-242 | the blocks, in declaration order, of the least set that has the declared roots and, with each declaration, the declared names it mentions |
| `Worklists.ReachedIsLeastClosed` | scripts/gen-contract-api-schemas.ts:224-242 | the reached names are the least dependency-closed set with the known roots |
| `PublishableDeps.FindPublishableDepViolations` | scripts/check-publishable-deps.ts:41-87 | the violations are exactly the workspace dependencies of published packages that are private, else unpublished, else unregistered, in order |
| `PublishableDeps.CleanIffChainsInstall` | scripts/check-publishable-deps.ts:41-87 | there is none if and only if every workspace package reached from a published one through any chain of runtime dependencies is non-private, published and registered |
| `LinkedVersions.LinkedVersionGroups` | scripts/check-release-linked-versions.ts:63-75 | the loop fills the group map, unnamed groups included |
| `LinkedVersions.GroupIsLastNamed` | scripts/check-release-linked-versions.ts:65-73 | the last plugin that names a component decides its group |
| `LinkedVersions.CheckReleaseLinkedVersions` | scripts/check-release-linked-versions.ts:81-124 | on the configuration and the tracked packages: the violations are exactly the paths without a manifest entry and the dependencies, of any of three kinds, on a tracked package outside the group of the dependent, with both groups, in order |
| `LinkedVersions.LinkedIffChainsShareGroup` | scripts/check-release-linked-versions.ts:105-121 | there is no unlinked edge if and only if packages joined by any chain of such edges, in either direction, have the same group name |
| `LinkedVersions.LinkedMeansOnePluginIff` | scripts/check-release-linked-versions.ts:63-121 | whatever is tracked, passing puts each chain under one plugin if and only if deciding plugins that carry the same name are the same plugin |
| `LinkedVersions.TwoUnnamedPlugins` | scripts/check-release-linked-versions.ts:69-71 | two unnamed plugins: the check passes two packages that are in two groups |

## Left out

- Processes, files, git, wrangler, npm, HTTP, argument parsing and console reports: I/O around the cores.
- A cache write that fails half way and leaves a truncated artifact, which the next run would score.
- Request pacing and wait times of `githubFetch`: only its attempts and its spending are modelled.
- Budgets that are not natural numbers: an argument that parses to a negative number or NaN.
- The dry-run mode of the raw-context pass, which writes nothing.
- The result of the successor pass under an exhausted budget: listing and file hydration may use up the budget, so
  only the order of its rows is modelled.
- The outcome column of slop-corpus rows sent through the same upsert (scripts/backfill-slop-corpus-core.ts).
- FrozenSnapshot.AuditSnapshotForLeaks: the report is a list of leaks, not of the sentences that describe them.
- FrozenSnapshot.ChecksumCommits: JSON text is an injective function of the canonical object and SHA-256 an
  arbitrary function, so a collision of the two texts is an alternative outcome.
- ReleasedMigrations.FindMutatedReleasedMigrations: `localeCompare` is a parameter, assumed to be a total preorder
  where the order of the report is stated.
- TemplateCollapse.ResolveUndoesFill: starts from a template text and the table of declared paths; finding both in
  source by regular expression is not modelled.
- MetadataPatches.PatchesAreConfluent: metadata is a map, so the key order of the stored JSON text is not modelled.
- Strings are sequences of Unicode scalar values; JavaScript compares and indexes UTF-16 code units, which differs
  outside the basic multilingual plane.
- Floating point, calendar parsing, JSON syntax and database collation.
- ReleasedMigrations.DeploymentsBoot: the statements a migration executes are not modelled, only the ledger of
  names and content hashes.
- Package allowlists, secret patterns, document generators, drift checks and release watchers: constant tables and
  regular expressions over files.
- `planDecisionLabelBackfill`, `planPrOutcomeBackfill`, `replaySlopCorpus`, `percentile`: smaller versions of what
  is proved here.
