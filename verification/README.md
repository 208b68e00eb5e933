# Musicoin verification project

A Dafny model of the algorithmic parts of the Musicoin archive, with proofs about them. Each module follows one
component; loops and state changes of the source are methods, and what they compute is stated by functions about which
the properties are proved.

- `Shuffle`, `Sampling`, `GenreGroups`: catalogue selection of the core API.
- `Patcher`, `PatcherSchedule`, `PatcherRuns`, `Stats`, `StatsSchedule`, `BlockWalker`: the chain indexer tools of the
  explorer.
- `Supply`, `Ecip1017`: the supply accounting of the explorer.
- `Rlp`, `BlockStream`, `StateExport`: block import and export and state export of the node.
- `SwapMigration`, `Consolidation`: database migration of the node under failures and crashes.
- `LaunchDefaults`: what the node remembers from one launch to the next.
- `Hashes`, `Ledger`, `Supervisor`: the two string hashes, prepaid plays, and the forum's worker supervisor.

## Conventions

- Databases and directories are maps and sets. Random draws, failures, crashes, schedules and the blocks a node delivers
  are explicit inputs, so a statement "for all" of them covers every behaviour of the environment.
- Callbacks are steps: `PatcherSchedule`, `StatsSchedule`, `Ledger` and `Supervisor` quantify over all interleavings.
- Rewards are reals, because the source adds and multiplies them exactly; block numbers and balances are integers;
  32-bit wrap-around is written out in `Hashes`.

## Where the code does less than it seems to promise

- The bisection never descends into an empty range of three or more blocks (`Patcher.FindsAllIffNoHole`). Reruns at
  the same height do not fill such holes (`Patcher.HolesSurviveARerun`); a run over a longer chain is halved elsewhere
  and can (`PatcherRuns.GrowthFillsAHole`). `PatcherRuns.MissingIffAlwaysSkipped` is exact for every history.
- The reported supply falls at every reward reduction (`Supply.RewardsFallExactlyAtPoorerEras`), because each segment
  omits one block and the block at an era start counts for the previous era until the next one arrives.
- An interrupted statistics run leaves a hole that only a rescan fills (`Stats.HolesArePermanent`).
- Overlapping statistics runs can end the process; `StatsSchedule.EndsWithoutClashIff` says exactly when they do.
- The import readahead panics on a block of fewer than 8 bytes unless it is the last one
  (`BlockStream.ImportUndoesExport`, `BlockStream.ImportStopsAtFirstOffender`); no real block is that short. A pipe
  that delivers only a part of a header falsifies the length of the block (`BlockStream.ImportIsExactIff`,
  `BlockStream.SafeOnEveryPipeIff`).
- A crash between the two renames of a migration makes a rerun delete the backup (`SwapMigration.RerunIsSafeIffDatabaseIsThere`)
  or skip the database (`SwapMigration.GapStaysSkipped`).
- Ignored failures of the final removals of a consolidation can cost data on a rerun
  (`Consolidation.FailedRemovalLosesExtras`); `Consolidation.RunKeepsRecoverableIff` says exactly when.
- Killing the database sets a first-launch flag that loading ignores, so tracing and fat-db stay refused
  (`LaunchDefaults.KillDoesNotReenable`).
- A failed play transaction is not refunded (`Ledger.RefusedButCharged`, `Ledger.FailedPlayIsNotRefunded`).
- A restart with fewer ports can leave the supervisor's counter above three per process
  (`Supervisor.ShrinkingBreaksTheBound`), and overlapping restarts can double a worker
  (`Supervisor.OverlapDoublesWorkers`) that then no restart or stop reaches (`Supervisor.OrphansAreForever`). The exact
  conditions are `Supervisor.CounterIsBoundedIff` and `Supervisor.OneWorkerPerIndexIff`.

## Model

| member | source | states |
|---|---|---|
| `Shuffle.ShuffleInPlace` | core-master/js-api/license.js:303-309 | the countdown loop of swaps leaves the array in the order that its draws determine |
| `Shuffle.OutcomeIsPermutation` | core-master/js-api/license.js:303-309 | every legal sequence of draws rearranges the items and loses or repeats none |
| `Shuffle.RoundsFixLastCell` | core-master/js-api/license.js:303-309 | the round for a cell puts the item at the drawn position there, and no later round moves it |
| `Shuffle.ShuffleReaches` | core-master/js-api/license.js:303-309 | an order comes from some legal draw sequence if and only if it is a permutation of the input; for distinct items from exactly one |
| `Shuffle.ShuffleIsUniform` | core-master/js-api/license.js:303-309 | the n! legal draw sequences reach n! different orders of distinct items, so the shuffle is unbiased |
| `Sampling.Reorder` | core-master/js-api/license.js:220-229 | first tracks of artists come first (reversed), repeated artists after them in order |
| `Sampling.ReorderingLeadsWithEveryArtist` | core-master/js-api/license.js:220-229 | the reordered list is a permutation and starts with exactly one track of every artist |
| `Sampling.ReorderedPositions` | core-master/js-api/license.js:220-229 | the exact order: the positions of the first tracks of all artists falling, then the positions of all other tracks rising |
| `Sampling.Sample` | core-master/js-api/license.js:218-231 | shuffle, reorder and slice return min(limit, candidates) of the candidates with min(limit, artists) different artists |
| `Sampling.SliceIsDiverse` | core-master/js-api/license.js:222-230 | the slice shows min(limit, number of artists) artists |
| `Sampling.SliceIsMostDiverse` | core-master/js-api/license.js:222-230 | no selection of at most `limit` of the same tracks shows more artists |
| `GenreGroups.Place` | core-master/js-api/license.js:411-427 | one release goes to its first known genre with room, opening groups on the way, and the dictionary, group order and count stay in step |
| `GenreGroups.GroupByGenre` | core-master/js-api/license.js:405-430 | the allocator returns the groups of the greedy decisions: none twice, each group together, the groups in the order of their first members, and each in input order |
| `GenreGroups.GreedyMeaning` | core-master/js-api/license.js:413-427 | every examined release is under its first known genre that had room; if it is under none, all its groups are full for good |
| `GenreGroups.LayoutIsGrouped` | core-master/js-api/license.js:417-429 | in the layout the entries of a genre stand together, and of two genres the one with the earlier first member comes first |
| `GenreGroups.GroupingIsGreedyAndCapped` | core-master/js-api/license.js:405-429 | limit and group caps hold, no release twice, groups contiguous and ordered by their first members, input order inside a group, entries exactly the placed releases under their own known genres, a release is left out only if its groups are full, and examination stops early only at the limit |
| `GenreGroups.LeftOutMeansOtherIsFull` | core-master/js-api/license.js:405-429 | with the built-in genre table a release is left out only when "Other" is full |
| `Patcher.CountsAddUp` | explorer-gmc-master/tools/patcher.js:138-148 | stored plus missing is the size of a range, so the two comparisons of counts mean empty and full |
| `Patcher.RequestsAreExact` | explorer-gmc-master/tools/patcher.js:121-152 | a number is requested if and only if it is in range, missing, and in no empty bisection range of three or more |
| `Patcher.RequestsDoNotRepeat` | explorer-gmc-master/tools/patcher.js:121-152 | no number is requested twice |
| `Patcher.FindsAllIffNoHole` | explorer-gmc-master/tools/patcher.js:138-149 | all missing numbers are requested if and only if no bisection range of three or more is empty |
| `Patcher.ConcreteHole` | explorer-gmc-master/tools/patcher.js:138-148 | with only block 0 of six stored, blocks 3 to 5 are skipped |
| `Patcher.FindsScatteredGaps` | explorer-gmc-master/tools/patcher.js:121-152 | all missing numbers are requested when no three consecutive ones are missing |
| `Patcher.SecondRunIsIdle` | explorer-gmc-master/tools/patcher.js:141-148 | once the requested blocks are written a second run over the same range requests nothing |
| `Patcher.HolesSurviveARerun` | explorer-gmc-master/tools/patcher.js:138-148 | a number in a hole is missing, not requested, and still missing, in a hole and not requested by a rerun over the same range after the writes of the run |
| `Patcher.BisectionIsCheap` | explorer-gmc-master/tools/patcher.js:138-148 | with m missing blocks there are at most 1 + 2 * m * depth calls |
| `Patcher.CallsAreEntries` | explorer-gmc-master/tools/patcher.js:121-149 | the number of calls is the number of ranges entered |
| `Patcher.EnteredIff` | explorer-gmc-master/tools/patcher.js:138-149 | a range is entered if and only if it is a bisection range and all bisection ranges that properly contain it are partly stored |
| `Patcher.DepthMeaning` | explorer-gmc-master/tools/patcher.js:146-148 | the depth in that bound is the binary logarithm, rounded up, less one |
| `PatcherRuns.MissingIffAlwaysSkipped` | explorer-gmc-master/tools/patcher.js:107-149 | over every history of runs at any heights and of writes by other tools a number is missing at the end if and only if it was missing at the start and each event left it out: it did not arrive, or was outside the range of the run or in one of its holes |
| `PatcherRuns.MissingAfterRunIsHoles` | explorer-gmc-master/tools/patcher.js:121-149 | after a run the missing numbers of its range are exactly those in its holes |
| `PatcherRuns.GrowthFillsAHole` | explorer-gmc-master/tools/patcher.js:116-149 | a run up to block 5 skips block 3, and a run up to block 6 requests it |
| `PatcherRuns.FillableIffSomethingStored` | explorer-gmc-master/tools/patcher.js:116-149 | however long the chain already is, some runs at increasing heights store a given number if and only if some block is stored: no hole is final, and nothing comes from an empty collection |
| `PatcherSchedule.StepKeepsInv` | explorer-gmc-master/tools/patcher.js:66-152 | every callback, with the fetch, the existence check and the write of a block as separate ones, conserves what was and will be requested, although later queries see earlier writes |
| `PatcherSchedule.EveryScheduleAgrees` | explorer-gmc-master/tools/patcher.js:66-152 | under every interleaving of queries, fetches, checks and writes a finished run has requested exactly what the sequential scan requests, each once, and has stored exactly the requested numbers for which the node delivers a block |
| `PatcherSchedule.EveryScheduleEnds` | explorer-gmc-master/tools/patcher.js:121-152 | every interleaving ends: it takes fewer than six callbacks per block number |
| `Supply.ComputeRewards` | explorer-gmc-master/routes/index.js:224-240 | the loop over the reward table yields the segments and the total of reward times (end - start) |
| `Supply.SegmentsTile` | explorer-gmc-master/routes/index.js:224-236 | for increasing non-negative starts the segments are contiguous, disjoint and cover first start to height |
| `Supply.ClampedSegments` | explorer-gmc-master/routes/index.js:224-236 | for any increasing starts there is one segment per era below the height, with its reward and uncle factor, a negative start counting as 0 |
| `Supply.EveryBlockHasItsSegment` | explorer-gmc-master/routes/index.js:224-236 | every block of that stretch lies in exactly one segment |
| `Supply.RewardsAgainstPerBlockSum` | explorer-gmc-master/routes/index.js:225-238 | reported rewards plus one block per active era equal the per-block sum, up to a correction that is zero unless the height is an era start |
| `Supply.GrowthPerBlock` | explorer-gmc-master/routes/index.js:225-238 | one more block adds the era reward, but the step past an era start adds the new reward minus the previous one |
| `Supply.RewardsFallExactlyAtPoorerEras` | explorer-gmc-master/routes/index.js:225-238 | the reported rewards decrease from a height to the next exactly at the start of a later era with a smaller reward |
| `Supply.BuiltInTable` | explorer-gmc-master/routes/index.js:179-184 | closed form for the built-in table, and its reported rewards fall exactly from 600000 to 600001 |
| `Supply.EstimateUncles` | explorer-gmc-master/routes/index.js:283-293 | the estimate loop computes the sum over the segments |
| `Supply.UnclesAreAFixedShare` | explorer-gmc-master/routes/index.js:284-293 | with one uncle factor the estimate is rate * factor * miner rewards |
| `Supply.UnclesAreAdditive` | explorer-gmc-master/routes/index.js:284-293 | the estimate is a sum over the segments |
| `Ecip1017.Regenerate` | explorer-gmc-master/routes/index.js:199-221 | era j spans 5,000,000j+1 to 5,000,000(j+1) with reward reduced by 20% per era; eras beyond the second exist exactly when they start below the height |
| `Ecip1017.UnclesByEra` | explorer-gmc-master/routes/index.js:199-221 | the estimate with the two uncle factors of the regenerated table: 29/32 for the first era, a sixteenth for all later ones |
| `Ecip1017.GeometricSum` | explorer-gmc-master/routes/index.js:202-215 | n full eras and five times the next era make up exactly 1.25e26 wei |
| `Ecip1017.MinerRewardsStayBelowCap` | explorer-gmc-master/routes/index.js:199-240 | total miner rewards stay below 1.25e26 wei at every height |
| `Stats.BlockStats.GetStats` | explorer-gmc-master/tools/stats.js:30-112 | the walk keeps every record and adds only correct ones of its window, even when a fetch fails; with no failure it fills the window if and only if it rescans or the records were closed downwards |
| `Stats.BlockStats.UpdateStats` | explorer-gmc-master/tools/stats.js:10-27 | the same for the aligned height and window of one run |
| `Stats.UpdateExtends` | explorer-gmc-master/tools/stats.js:70-109 | a run, even an interrupted one, keeps existing records and adds only window blocks, each with the block time against the block one interval higher |
| `Stats.CompletedUpdate` | explorer-gmc-master/tools/stats.js:10-109 | a completed run fills its window if and only if it rescans or the records were closed downwards in the window |
| `Stats.RunKeepsComplete` | explorer-gmc-master/tools/stats.js:10-109 | a later run keeps the window complete although it stops at the first known block |
| `Stats.IncrementalRunsLoseNothing` | explorer-gmc-master/tools/stats.js:10-109 | after any completed runs at non-decreasing heights every multiple of the interval in the window has its correct record |
| `Stats.RecordsAddUp` | explorer-gmc-master/tools/stats.js:82 | the block times of a complete collection, each for a whole interval, add up to the time that passed on the chain |
| `Stats.RescanRecords` | explorer-gmc-master/tools/stats.js:10-27 | a completed rescan records, of the range (1000 by default) of whole intervals below the start, all but the last one and those at or below block 0, each with the time to the block one interval higher over the interval |
| `Stats.AlignedMeaning` | explorer-gmc-master/tools/stats.js:23-25 | for intervals of 10 or more the start is the largest multiple not above the latest block |
| `Stats.HolesArePermanent` | explorer-gmc-master/tools/stats.js:98-108 | a number missing below a recorded one is never filled by non-rescan runs |
| `Stats.InterruptedRunLeavesHole` | explorer-gmc-master/tools/stats.js:42-50 | a failed fetch leaves such a hole inside the window of the next run |
| `StatsSchedule.RunKeepsInv` | explorer-gmc-master/tools/stats.js:70-112 | however runs at non-decreasing heights interleave, until a clash every record is correct and every missing number of the latest window is still ahead of some walk with no record in between |
| `StatsSchedule.InterleavedRunsLoseNothing` | explorer-gmc-master/tools/stats.js:70-156 | once interleaved runs have all ended without a clash, every multiple of the interval in the latest window has its correct record |
| `StatsSchedule.EndsWithoutClashIff` | explorer-gmc-master/tools/stats.js:71-97 | a schedule followed to its end avoids a duplicate record, which ends the process, if and only if at no time two walks are about to save the same number |
| `StatsSchedule.OneAtATimeNeverClashes` | explorer-gmc-master/tools/stats.js:152-156 | runs that do not overlap never clash |
| `StatsSchedule.OverlappingRunsCanClash` | explorer-gmc-master/tools/stats.js:85-91 | two runs at one height that clash at block 200 and leave block 100 unrecorded |
| `Stats.SelectInterval` | explorer-gmc-master/tools/stats.js:130-147 | the digit-dropping loop selects a power of ten |
| `Stats.Log10Meaning` | explorer-gmc-master/tools/stats.js:138-143 | that power is the largest one not above the requested interval |
| `BlockWalker.Grabber.GrabBlock` | explorer-gmc-master/tools/blockHelper.js:38-110 | fetches exactly the planned numbers up to the first one the node lacks, saves them, and pops the stack |
| `BlockWalker.Grabber.GrabNext` | explorer-gmc-master/tools/blockHelper.js:13-23 | the same from the top of the stack; an empty stack is done |
| `BlockWalker.CoveredMeaning` | explorer-gmc-master/tools/blockHelper.js:79-96 | an interval is fetched once per number in descending order, "latest" being the highest block of the node; with end below start only its end is fetched |
| `BlockWalker.PlanMeaning` | explorer-gmc-master/tools/blockHelper.js:79-96 | the walk plans exactly the numbers that some entry covers |
| `BlockWalker.SaveAllMeaning` | explorer-gmc-master/tools/blockHelper.js:112-132 | existing records stay, new ones are the node blocks |
| `BlockWalker.WalkFinishesIffOnChain` | explorer-gmc-master/tools/blockHelper.js:58-66 | the walk completes if and only if the node has every covered block |
| `BlockWalker.FinishedWalkCoversItsWork` | explorer-gmc-master/tools/blockHelper.js:38-132 | a completed walk leaves the old records unchanged plus exactly the covered numbers |
| `Rlp.DecodeUsize` | Parity4MCIP8-parity195/util/rlp/src/impls.rs:16-31 | the shift loop decodes a big-endian length and refuses more than 8 bytes and then a leading zero |
| `Rlp.InfoFrom` | Parity4MCIP8-parity195/util/rlp/src/untrusted_rlp.rs:50-91 | a header is readable if and only if all its length bytes are there and the first of them is not zero; which error is given otherwise; a readable item is never empty |
| `Rlp.HeaderReadsBack` | Parity4MCIP8-parity195/util/rlp/src/untrusted_rlp.rs:50-91 | the header of a list item (Yellow Paper, Appendix B) is read back exactly, whatever follows |
| `Rlp.StringHeaderReadsBack` | Parity4MCIP8-parity195/util/rlp/src/untrusted_rlp.rs:73-91 | string headers are read back as well, and a byte below 0x80 is its own item |
| `Rlp.HeaderLength` | Parity4MCIP8-parity195/util/rlp/src/untrusted_rlp.rs:50-60 | a list header has at most 8 bytes if and only if the payload is below 2^56; the first 8 bytes of a longer one are refused |
| `Rlp.TruncatedHeader` | Parity4MCIP8-parity195/util/rlp/src/untrusted_rlp.rs:50-91 | a header of which only the first bytes are there and the rest reads as zeros yields a smaller length, the right one if and only if the missing bytes are zeros; with the leading byte alone it is refused |
| `Rlp.LeadingByte` | Parity4MCIP8-parity195/parity/blockchain.rs:395-398 | a list starts with 0xf9 if and only if its payload has 256 to 65535 bytes |
| `BlockStream.ReadFrame` | Parity4MCIP8-parity195/parity/blockchain.rs:432-442 | one round: carried-over bytes or a readahead of as many bytes as the environment delivers, size from the header, rest of the item |
| `BlockStream.ExecuteImport` | Parity4MCIP8-parity195/parity/blockchain.rs:386-445 | format detection and the readahead loop agree with frame-by-frame parsing of the input, however the reads are cut |
| `BlockStream.ExecuteExport` | Parity4MCIP8-parity195/parity/blockchain.rs:588-601 | the output is the concatenation of the blocks from the first number up to the first one the chain lacks; it succeeds if none is missing |
| `BlockStream.ImportIsExactIff` | Parity4MCIP8-parity195/parity/blockchain.rs:429-445 | however the reads are cut, the import is exact if and only if at every item the payload is below 2^56, the readahead is not longer than the item, and the header bytes it leaves out are zeros |
| `BlockStream.ImportFailsAtFirstMisfit` | Parity4MCIP8-parity195/parity/blockchain.rs:429-445 | otherwise exactly the items before the first misfit are delivered, and then a proper prefix of that item if its length was cut, or the import ends with the named fault |
| `BlockStream.ImportUndoesExport` | Parity4MCIP8-parity195/parity/blockchain.rs:429-445 | from a file, a concatenation of RLP lists is delivered complete, in order and to the end if and only if all payloads are below 2^56 and all but the last item have at least 8 bytes |
| `BlockStream.ImportStopsAtFirstOffender` | Parity4MCIP8-parity195/parity/blockchain.rs:429-445 | from a file, any other concatenation delivers exactly the items before the first offending one and then panics on a short item with a successor or reports a too short header on a payload of 2^56 or more |
| `BlockStream.SafeOnEveryPipeIff` | Parity4MCIP8-parity195/parity/blockchain.rs:386-442 | the import is exact under every cutting of the reads if and only if every payload has at most 55 bytes and all but the last at least 7 |
| `BlockStream.ExportThenImport` | Parity4MCIP8-parity195/parity/blockchain.rs:588-596 | the same for any list of RLP blocks, as exported and imported in binary format from a file |
| `BlockStream.AutoDetectedImport` | Parity4MCIP8-parity195/parity/blockchain.rs:391-445 | with the format detected, an import however cut is exact if and only if additionally the first payload has 256 to 65535 bytes |
| `BlockStream.RejectionStopsImport` | Parity4MCIP8-parity195/parity/blockchain.rs:415-443 | a rejected block ends the import after it was handed over, however the reads are cut |
| `BlockStream.FinishedMeansAll` | Parity4MCIP8-parity195/parity/blockchain.rs:429-445 | for any input and any cutting of its reads: what is delivered is a prefix of the input, and the import succeeds if and only if all of the input was delivered and accepted |
| `BlockStream.FailureIsNamed` | Parity4MCIP8-parity195/parity/blockchain.rs:436-442 | why any other import ends: at the first bytes not delivered the header is unreadable, or the item is shorter than the readahead, or longer than what is left |
| `BlockStream.TruncatedImport` | Parity4MCIP8-parity195/parity/blockchain.rs:436-442 | a file that ends inside an item delivers exactly the items before the cut and ends in a read error, or in a header error if only the leading byte of a long header is left or the payload has 2^56 bytes or more |
| `StateExport.WriteStorage` | Parity4MCIP8-parity195/parity/blockchain.rs:663-677 | paging over storage keys writes every slot once, in order, with commas only between |
| `StateExport.WriteAccount` | Parity4MCIP8-parity195/parity/blockchain.rs:650-681 | one account is written with code and storage as the options ask |
| `StateExport.WriteIfSelected` | Parity4MCIP8-parity195/parity/blockchain.rs:641-682 | an account outside the balance bounds is skipped; any other is written after a comma unless it is the first |
| `StateExport.WritePage` | Parity4MCIP8-parity195/parity/blockchain.rs:640-687 | the cursor follows every account of a page, filtered or not |
| `StateExport.ExecuteExportState` | Parity4MCIP8-parity195/parity/blockchain.rs:629-691 | the cursor loops terminate and write exactly the rendering of a plain filtered scan; the document opens an entry for an account if and only if its balance is within the bounds, and reads back as entries that show those accounts field by field and in order |
| `StateExport.CursorFinds` | Parity4MCIP8-parity195/ethcore/src/client/client.rs:1503-1511 | a cursor at an account continues just after it |
| `StateExport.SelectedMeaning` | Parity4MCIP8-parity195/parity/blockchain.rs:641-645 | the scan selects exactly the accounts within the bounds, each address once |
| `StateExport.DocumentMeaning` | Parity4MCIP8-parity195/parity/blockchain.rs:640-687 | the document of a state reads back as entries that show, field by field and in order, the accounts within the bounds, and opens no other entry |
| `StateExport.ExampleDocument` | Parity4MCIP8-parity195/parity/blockchain.rs:633-689 | a whole document, token by token |
| `StateExport.RenderReadsBack` | Parity4MCIP8-parity195/parity/blockchain.rs:633-689 | every rendering reads back as the list it was made from |
| `SwapMigration.FileSystem.MigrateDatabase` | Parity4MCIP8-parity195/parity/migration.rs:193-222 | when the database path holds the data, every recorded disk has it at the database path or, if that is vacant, at the backup path; only a failed restore leaves no database; success leaves the migrated copy and no backup |
| `SwapMigration.SwapNeverLosesData` | Parity4MCIP8-parity195/parity/migration.rs:193-222 | after every operation, whatever fails, the whole data is at the database path or, if that is vacant, at the backup path |
| `SwapMigration.OriginalIsKeptUntilReplaced` | Parity4MCIP8-parity195/parity/migration.rs:210-221 | the original is at one of the two paths until the migrated copy is at the database path |
| `SwapMigration.OutcomesMeanWhatTheySay` | Parity4MCIP8-parity195/parity/migration.rs:203-221 | what each outcome leaves behind; only a failed swap with a failed restore leaves no database |
| `SwapMigration.OutcomeIff` | Parity4MCIP8-parity195/parity/migration.rs:199-222 | from an old database each outcome happens exactly under the stated failures; a backup path that is still occupied fails the first rename |
| `SwapMigration.FailedCopyIsPartial` | Parity4MCIP8-parity195/parity/migration.rs:203 | a failed copy leaves a part in the temporary directory unless an earlier attempt completed it |
| `SwapMigration.NothingFromNothing` | Parity4MCIP8-parity195/parity/migration.rs:199-218 | without a database or a completed copy no run produces data |
| `SwapMigration.RerunIsSafeIffDatabaseIsThere` | Parity4MCIP8-parity195/parity/migration.rs:199-201 | an unguarded rerun from a safe disk stays safe under all faults if and only if the database path holds the data |
| `SwapMigration.RerunAfterGapRecovers` | Parity4MCIP8-parity195/parity/migration.rs:199-218 | after a crash between the renames the data survives a rerun in the temporary directory and is the database if the rerun succeeds |
| `SwapMigration.GuardedRunsNeverLoseData` | Parity4MCIP8-parity195/parity/migration.rs:270-275 | with the existence guard no sequence of failing, crashing and repeated runs loses the data |
| `SwapMigration.GuardSkipsIffMissing` | Parity4MCIP8-parity195/parity/migration.rs:270-275 | the guard skips exactly a missing directory |
| `SwapMigration.GapStaysSkipped` | Parity4MCIP8-parity195/parity/migration.rs:270-275 | but after a crash between the renames every guarded run skips the database |
| `Consolidation.DataDirectory.Consolidate` | Parity4MCIP8-parity195/parity/migration.rs:245-265 | from every recoverable disk, whatever removals fail, headers and bodies hold the parts of the original blocks and the other columns equal the original databases; the disk stays recoverable if and only if the failures are harmless; exactly the directories whose removal failed are left |
| `Consolidation.ConsolidatedIff` | Parity4MCIP8-parity195/parity/migration.rs:252-259 | what the columns must hold, said of the entries: header and body part of each block under its key, and the extras, state and trace entries unchanged |
| `Consolidation.CompletedRunDrops` | Parity4MCIP8-parity195/parity/migration.rs:260-263 | a completed run leaves exactly the legacy directories whose removal failed, with the keys that survived it |
| `Consolidation.RunIsGenuine` | Parity4MCIP8-parity195/parity/migration.rs:245-265 | whatever fails and wherever it crashes, a run writes nothing that is not in the original or its target |
| `Consolidation.RecoverableMeans` | Parity4MCIP8-parity195/parity/migration.rs:245-265 | a disk is recoverable if and only if every completed run from it, whatever removals fail, leaves the right entries in all columns |
| `Consolidation.RunKeepsRecoverableIff` | Parity4MCIP8-parity195/parity/migration.rs:250-263 | a crashed or completed run keeps a disk recoverable if and only if it is cut short before the removals, removes the blocks directory, or leaves every legacy database whole |
| `Consolidation.ConsolidationIsRestartableIff` | Parity4MCIP8-parity195/parity/migration.rs:245-265 | over every history of crashed, failing and completed runs the disk is recoverable at every moment if and only if no run did harm |
| `Consolidation.ConsolidationIsRestartable` | Parity4MCIP8-parity195/parity/migration.rs:245-265 | in particular, when every removal of the blocks directory that is begun succeeds, any history followed by a completed run ends with the right columns |
| `Consolidation.RerunIsFaithfulIff` | Parity4MCIP8-parity195/parity/migration.rs:252-259 | a rerun that clears the new database restores a column of any disk if and only if its source still yields the original column |
| `Consolidation.FailedRemovalLosesExtras` | Parity4MCIP8-parity195/parity/migration.rs:260-263 | two runs, the first leaving the blocks directory behind and removing the others, end with an empty extras column |
| `LaunchDefaults.Serialize` | Parity4MCIP8-parity195/parity/user_defaults.rs:40-65 | the object built by the inserts reads back as the saved defaults, apart from the first-launch flag and fractions of a second |
| `LaunchDefaults.SaveThenLoad` | Parity4MCIP8-parity195/parity/user_defaults.rs:40-118 | loading what was saved gives back all but the first-launch flag and fractions of a second; exactly whole-second durations come back unchanged |
| `LaunchDefaults.FileFormat` | Parity4MCIP8-parity195/parity/user_defaults.rs:40-65 | the entries and names in the file |
| `LaunchDefaults.ReadableIff` | Parity4MCIP8-parity195/parity/user_defaults.rs:84-118 | exactly which files are refused |
| `LaunchDefaults.MissingEntries` | Parity4MCIP8-parity195/parity/user_defaults.rs:90-95 | a missing fat-db entry means off, a missing mode active |
| `LaunchDefaults.LoadOfLostFile` | Parity4MCIP8-parity195/parity/user_defaults.rs:120-145 | the defaults without a readable file |
| `LaunchDefaults.AttemptSwitchesNothingOn` | Parity4MCIP8-parity195/parity/params.rs:311-328 | from a readable file no command switches tracing or fat-db on |
| `LaunchDefaults.LaunchObeysSwitches` | Parity4MCIP8-parity195/parity/params.rs:311-328 | a launch is refused, leaving the file alone, if and only if it asks for something that an earlier launch left off; otherwise on and off hold as asked and auto as it was, for the node and for the next load |
| `LaunchDefaults.ImportObeysSwitches` | Parity4MCIP8-parity195/parity/blockchain.rs:324-335 | the same for an import, which keeps the mode |
| `LaunchDefaults.KillKeepsTheRest` | Parity4MCIP8-parity195/parity/blockchain.rs:694-707 | a kill saves everything but the first-launch flag as it was |
| `LaunchDefaults.ModeChangeKeepsTheRest` | Parity4MCIP8-parity195/parity/run.rs:818-824 | a change of mode saves what the node started with, and the new mode |
| `LaunchDefaults.NothingSavedWithoutStart` | Parity4MCIP8-parity195/parity/run.rs:810-816 | a command that does not start saves nothing |
| `LaunchDefaults.FailedSaves` | Parity4MCIP8-parity195/parity/user_defaults.rs:147-150 | a save that cannot create the file leaves it, one that fails later loses it, and a launch that cannot save ends |
| `LaunchDefaults.NoGaps` | Parity4MCIP8-parity195/parity/run.rs:424-434 | over every history of launches, imports, kills and mode changes with a readable file, tracing (fat-db) on later means on at every earlier point |
| `LaunchDefaults.LaunchIsRemembered` | Parity4MCIP8-parity195/parity/run.rs:810-816 | the next load sees the switches, algorithm and (in whole seconds) mode a launch saved |
| `LaunchDefaults.AutoLaunchChangesNothing` | Parity4MCIP8-parity195/parity/run.rs:424-437 | a launch with everything on auto after a launch saves the very same file |
| `LaunchDefaults.LostFileAllowsGap` | Parity4MCIP8-parity195/parity/user_defaults.rs:134-145 | a lost file lets the next launch switch both on |
| `LaunchDefaults.KillDoesNotReenable` | Parity4MCIP8-parity195/parity/blockchain.rs:694-707 | whatever the file was, a launch after a kill is accepted if and only if it switches nothing on that was off before, and tracing (fat-db) asked for is on if and only if it was on before the kill |
| `Hashes.HashCode` | app-master/tools/util.js:181-187 | the unwrapped hash is congruent to the base-31 polynomial modulo 2^32 |
| `Hashes.HashKey` | core-master/utils/musicoin-api.js:223-234 | the wrapped hash is the signed 32-bit value of the polynomial and of the unwrapped hash |
| `Hashes.HashOfTwo` | app-master/tools/util.js:181-187 | the hash of "ab" is 3105 |
| `Hashes.HashCodeIsExact` | app-master/tools/util.js:181-187 | for up to 4194176 code units all intermediate values are exact in double precision |
| `Hashes.RGBIsSixDigits` | app-master/tools/util.js:189-193 | the colour is six upper-case hex digits that encode the low 24 bits |
| `Hashes.GetColorCodeForString` | app-master/tools/util.js:181-197 | the code is "#" and six hex digits whose value is the polynomial modulo 2^24 |
| `Ledger.AccountManager.Pay` | core-master/components/account-manager.js:15-31 | takes the whole amount or nothing and never makes a balance negative |
| `Ledger.AccountManager.CreateAccount` | core-master/components/account-manager.js:71-88 | adds at most one account, with balance zero, keeps every other balance, and no balance becomes negative |
| `Ledger.LedgerIsSafe` | core-master/rest-api/license.js:36-63 | over every interleaving balances are not negative, credits minus balance is what was charged, and every returned key follows exactly one charge of its own price to its own client |
| `Ledger.BalanceIsCreditsLessCharges` | core-master/components/account-manager.js:15-31 | over every history a client has an account once it was created, and the balance is the sum of the later credits less the charges |
| `Ledger.AnswersHaveCauses` | core-master/rest-api/license.js:36-63 | a request is answered with a key and a transaction if and only if that transaction was reported while it waited, the key being that of its looked-up offer; it is refused if and only if the lookup failed, the client could not pay, or the transaction failed |
| `Ledger.ChargesOnlyGrow` | core-master/rest-api/license.js:47-58 | a charge is added exactly by a payment step that can pay, and answers never change |
| `Ledger.AnswersAndChargesAreFinal` | core-master/rest-api/license.js:36-63 | over every continuation the charge log only grows at its end, and an answered request keeps its answer and its single charge |
| `Ledger.RefusedButCharged` | core-master/rest-api/license.js:51-62 | over every interleaving a refused request was charged at most once, and it was charged if and only if its play transaction failed at some point |
| `Ledger.FailedPlayIsNotRefunded` | core-master/rest-api/license.js:36-63 | a reachable run from an empty ledger to a refused request that cost the whole balance |
| `Supervisor.Loader.ForkWorker` | forum-master/loader.js:107-136 | a fork staffs its index if it has a port and keeps every unmarked worker registered when the index was free |
| `Supervisor.Loader.StartWorkers` | forum-master/loader.js:94-105 | afterwards every index with a port is staffed, and by one unmarked worker each if and only if none was alive on such an index before |
| `Supervisor.Loader.KillWorkers` | forum-master/loader.js:195-200 | the loop marks the processes in the array, and no unmarked worker is left when all were registered |
| `Supervisor.Loader.OnExit` | forum-master/loader.js:53-76 | a new process is started, on the same index, if and only if the exit is a crash within the budget of an unmarked worker whose index has a port; a clean exit neither counts nor halts; registration and order are kept |
| `Supervisor.Loader.Restart` | forum-master/loader.js:152-160 | no unmarked worker is left while the configuration is read |
| `Supervisor.Loader.OnConfigRead` | forum-master/loader.js:159-175 | one unmarked worker per index afterwards if and only if the configuration is clear of unmarked workers |
| `Supervisor.ExitStartsProcessIff` | forum-master/loader.js:53-76 | the same for the live workers, the array, the counter and the halt, as a lemma |
| `Supervisor.TimerRestoresBudget` | forum-master/loader.js:57-63 | after the timer a series of crashes halts only beyond three per process |
| `Supervisor.StopIsFinal` | forum-master/loader.js:187-200 | after a stop nothing is started any more without a restart, and no unmarked worker is left |
| `Supervisor.CounterIsBounded` | forum-master/loader.js:53-68 | the restart counter never exceeds three times the largest number of processes so far |
| `Supervisor.CounterIsBoundedIff` | forum-master/loader.js:53-68 | at every moment of a history the counter is within three times the current number of processes if and only if every newly read configuration has room for the restarts counted so far |
| `Supervisor.CounterIsBoundedWithoutShrinking` | forum-master/loader.js:53-68 | in particular restarts that never shrink the cluster keep the bound at every moment |
| `Supervisor.ShrinkingBreaksTheBound` | forum-master/loader.js:94-95 | a reachable run whose counter is 4 with one process: four crashes of two processes, then a restart with one port |
| `Supervisor.CrashLoopHalts` | forum-master/loader.js:55-68 | a series of crashes halts the supervisor exactly when it exceeds the restarts left of three per process, none if a smaller configuration used them up |
| `Supervisor.EveryIndexIsStaffed` | forum-master/loader.js:71-75 | over every history in which no unmarked worker leaves for good, every index with a port has a live unmarked worker whenever no restart is waiting and the supervisor has not halted |
| `Supervisor.OneWorkerPerIndexIff` | forum-master/loader.js:53-200 | at every moment of a history each index has at most one live worker not marked for death if and only if every configuration is read when no unmarked worker is alive on an index for which it has a port |
| `Supervisor.OneWorkerPerIndex` | forum-master/loader.js:53-200 | in particular restarts that do not overlap keep one unmarked worker per index at every moment |
| `Supervisor.OverlapDoublesWorkers` | forum-master/loader.js:152-176 | a reachable run with two overlapping restarts that leaves two unmarked workers on one index, one of them in no array position |
| `Supervisor.OrphansAreForever` | forum-master/loader.js:195-200 | a live unmarked worker that is in no array position is reached by no later restart or stop, until it exits by itself |

## Left out

- HTTP routes, user interfaces, database schemas, RPC clients, sessions and encryption: input and output without a deep invariant.
- Hex import and export: the pretty printer is foreign and the exporter writes no line separators.
- Short writes: the exporter calls `write` once per block, which is taken to write the whole block.
- The RLP encoder: blocks are RLP lists as the Yellow Paper defines them; the node's own encoder stores list lengths in 32 bits, so it agrees for payloads below 2^32.
- The text of state export values: every write to the stream is one token, the hexadecimal digits inside it are not modelled.
- Migration code that rewrites values, in-place migrations, RocksDB itself, the version file and `is_needed`; `Consolidation` starts when the legacy databases need no migration of their own, and a directory that a removal leaves half emptied opens as a database with the keys left in it.
- Consolidation.ConsolidatedIff: says nothing about the parts of an entry of the blocks database that is not a block; the keys of the columns cover such an entry too.
- Two databases sharing one temporary directory: `SwapMigration` follows a single database.
- SwapMigration.RerunAfterGapRecovers: holds for a manager with exactly one migration that alters data, as all managers in `parity/migration.rs` have; with several, `Manager::execute` removes the other temporary directory, which is not modelled.
- SwapMigration.GuardedRunsNeverLoseData: data counts as kept whether it is migrated or not, and migrating a migrated database again is taken as harmless, because the version file that would prevent it is written only at the end and is not modelled.
- StateExport.CursorFinds: takes the seek of the trie iterator as its documented contract; the trie itself is not modelled.
- StateExport.RenderReadsBack: reads back the tokens written, not the characters inside them.
- Supervisor.EveryIndexIsStaffed: the ports change when a new configuration is read; the source replaces its configuration store a little earlier, so a worker forked in between may already see other ports.
- `PatcherRuns` takes every fetch and write as successful; failed fetches and interleavings of one run are in `PatcherSchedule`.
- `StatsSchedule` takes every fetch as successful; failed fetches are in `Stats`.
- Deposits: the source passes the amount as the whole update document, so credits are steps of the environment.
- Balances in double precision: `Ledger` uses exact integers.
- Inherited property names: the sampler's dictionary of artists is a set of addresses, so an address that spells a name of `Object.prototype` is not modelled.
- Fractional and missing limits: `Sampling` takes the limit as a natural number, as the route computes it for integral input.
- Blocks named by hash in the walker's stack, and `terminateAtExistingDB`.
- Uncle aggregation through the database: asynchronous sums over the segments already covered.
- Negative era starts: `Supply.SegmentsTile` and what builds on it take non-negative starts; with several negative starts the clamped segments overlap (`Supply.ClampedSegments`).
- Intervals of 2 to 9 blocks in `Stats.IncrementalRunsLoseNothing`: the selection loop never yields one, and the walk does not align to them.
- An interval of 0 in `Stats`: the range is then 0 as well and the source's run ends at once.
- Hashes.HashCode: beyond 4194176 code units double precision may round, which the integer model does not follow.
- Hashes.GetColorCodeForString: the same length bound.
- A node running beside an import or a kill: `LaunchDefaults` lets only the latest command use the defaults file, as the database lock enforces.
- Snapshot, light client, and the commands that load the defaults without saving them.
