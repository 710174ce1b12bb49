# Verification of the lakehouse and LLM data platform

This Dafny project models the parts of the repository whose correctness is hardest to see by reading,
and proves what their documentation and tests promise of them:

- **Spark benchmark plans** (`SchemaAlignment`, `SparkPlans`, `SparkReport`, `SparkInputs`, `SparkRepeatedIds`, over
  `Relational` and `TextOrder`): when the baseline query and its rewrite with `max_by` and salted partial sums return the same
  report.
- **Gold builders** (`CompanyHistory`, `PointInTime`, `DistressLabels`, `RowLabels`, `SectorPolicy`): history compression, the
  point-in-time join and the distress rule, in SQL's three-valued logic and once more row by row.
- **Snapshot table** (`LakehouseTable`, `LakehouseClients`, `SnapshotDiff`): optimistic commits, schema
  evolution, time travel, many clients, keyed diff.
- **Embedding hot swap** (`EmbeddingRegistry`): any interleaving of two-phase swaps against the one-lock contract.
- **Publication** (`MinioPublish`, `AtomicPublish`): prefix promotion with rollback, and the rename protocol,
  with failures at every step.
- **Generator** (`StreamSchedule`, `StreamProfile`, `StreamEvents`, `OfflineDuplicates`, over `IsoTime`, `IsoReading`,
  `Rounding`, `StableSort`):
  the event schedule, the profiler that inverts it, and the injected duplicate rate.
- **Text, routing and files** (`PiiRedaction`, `RagPipeline`, `RagOutcome`, `AbRouter`, `Compaction`).

Objects the source mutates are classes whose methods are proved against functions of the old state; loops
stay loops; dataframe expressions are functions and relations. What the engine, the random generator, the
clock or another library chooses is an input or an arbitrary choice, so every result holds for all choices.
Floats and decimals are exact integers or reals.

The operations are functions that follow the source. What they do is stated beside them a second time, in plain
terms: sums of integers, positions, characters and cells, without naming those functions (the rows ending in
`Meaning` and their neighbours).

Where a promised property fails of the code, the model keeps the code and the property is stated with its
exact condition:

- The optimized Spark plan counts source ids, the baseline counts distinct ones: equal if and only if no id
  occurs twice in a sector, that is, if no two newest statements of one sector share an id.
- History compression drops a change to null: history is kept if and only if no such change follows a
  null-free row that otherwise agrees.
- Raising liabilities from negative or zero can turn a distressed row healthy; exactly the safe rises keep
  every label.
- The distress rule exists twice: the columns divide by positive denominators only, the row form by any but
  zero. The labels agree if and only if the sector verdicts do and the row is excluded or total assets, current
  liabilities and interest expense are null or not negative.
- The sector test exists twice too, by substring and by the configured policy. For every policy file some row
  splits them; under the shipped one a row's verdicts agree if and only if a whole text matches, or a term occurs
  just when a code matches.
- Time travel by id is stable if and only if the table has a snapshot: one without any answers every id.
- Promotion's docstring promises the previous snapshot on failure (`src/io/minio_publish.py:31`); a failure
  inside the backup loop makes the handler clear data it has no copy of.
- A directory publish that is retried after dying between its two renames deletes the only copy first, and a
  failing build then leaves none.
- An empty table hands out `None` as its head token, which switches the commit check off.
- Stream validation compares the burst requirement with all events, not with the originals, so a valid
  configuration can leave the burst window short.
- The duplicate rate bound holds if and only if the requested duplicates do not exceed the base rows by more
  than one half.
- `chunks_new` over-counts repeated text within one document.
- A run whose embedding backend fails has already registered the parent document.
- A second compaction into the default directory, which lies under the source, deletes the first one's files
  and then fails to read them; so does compacting a directory into itself.

## Model

| member | source | states |
|---|---|---|
| SchemaAlignment.AlignBaseline | src/jobs/spark_baseline_job.py:14-22 | the drop-and-renull loop and the positional union compute the manual alignment |
| SchemaAlignment.AlignmentsAgree | src/jobs/spark_optimized_job.py:8-16 | manual alignment and by-name union give the same records in the same order, for every frame |
| SchemaAlignment.AlignmentMeaning | src/jobs/spark_optimized_job.py:12-16 | each cell of the aligned table: version-one rows first with null evolved columns, version-two rows unchanged after them |
| SchemaAlignment.KeptIff | src/jobs/spark_baseline_job.py:18-21 | a row survives a version filter if and only if its version cell is that number |
| SchemaAlignment.FilterMeaning | src/jobs/spark_baseline_job.py:18-21 | a version filter keeps exactly the rows whose `schema_version` cell is that number, as often and in the order they stand |
| SchemaAlignment.AlignedCells | src/jobs/spark_baseline_job.py:14-22 | both alignments cell by cell: version-one rows with null under the three evolved columns, then version-two rows as they are |
| Relational.LatestAgree | src/jobs/spark_optimized_job.py:19-28 | the `row_number` window and the `max_by` aggregation keep the same rows when every key is settled |
| Relational.SettledIff | src/jobs/spark_optimized_job.py:22-23 | when a timestamped key leaves neither form a choice: all rows with the newest timestamp are equal |
| Relational.DistinctTimestampsSettle | src/jobs/spark_baseline_job.py:30-44 | timestamps present and distinct per key settle every key |
| SparkPlans.Regroup | src/jobs/spark_optimized_job.py:43-63 | grouping by any finer key and adding the groups up gives the sector's own sum |
| SparkPlans.CompanyGroupsAreTickers | src/jobs/spark_optimized_job.py:43-51 | the per-company groups of a sector are its distinct tickers |
| SparkPlans.StagesCompute | src/jobs/spark_optimized_job.py:43-64 | what the three stages compute for a sector, for every salt function and group order |
| SparkPlans.BaselineComputes | src/jobs/spark_baseline_job.py:50-59 | the single group-by's row against the same quantities: only the id column can differ, downwards |
| SparkPlans.RunsShareSectors | src/jobs/spark_optimized_job.py:55-64 | both plans report the same sectors in the same order |
| SparkPlans.RewritePreservesReport | src/jobs/spark_optimized_job.py:31-64 | sectors, company counts, statement counts and asset sums agree for every salt; the reports are equal if and only if no source id repeats in a sector |
| SparkPlans.DistinctIdsStayDistinct | src/jobs/spark_optimized_job.py:38-42 | ids distinct among the kept statements stay distinct through the join |
| SparkPlans.RunsExist | src/jobs/spark_optimized_job.py:31-64 | for every pair of input tables and every salt both plans have a result |
| SparkReport.BaselineReportMeaning | src/jobs/spark_baseline_job.py:50-59 | each row of the baseline's report: distinct tickers, statements, distinct ids, and the integer sum of the amounts (null if none) of the statements that meet the sector |
| SparkReport.OptimizedReportMeaning | src/jobs/spark_optimized_job.py:43-64 | the same of the rewrite's report, for every salt and group order, with ids counted as often as they occur |
| SparkReport.BaselineSectors | src/jobs/spark_baseline_job.py:45-59 | the reported sectors are exactly those some kept statement meets, `Unknown` for companies without one |
| SparkReport.BaselineOrder | src/jobs/spark_baseline_job.py:58-58 | once each and in ascending order |
| SparkReport.OptimizedSectors | src/jobs/spark_optimized_job.py:38-64 | the same for the rewrite |
| SparkReport.OptimizedOrder | src/jobs/spark_optimized_job.py:64-64 | once each and in ascending order |
| SparkReport.BaselineStatement | src/jobs/spark_baseline_job.py:36-44 | exactly one statement per ticker and period is kept, and none of them is later |
| SparkReport.BaselineCompany | src/jobs/spark_baseline_job.py:30-35 | exactly one company row per ticker is kept, and none of them is later |
| SparkReport.OptimizedStatement | src/jobs/spark_optimized_job.py:19-28 | the same for `max_by`, which leaves only the key where no row has a timestamp |
| SparkReport.OptimizedCompany | src/jobs/spark_optimized_job.py:19-28 | the same for companies |
| SparkReport.ReadsWhatIsWritten | src/jobs/spark_baseline_job.py:36-57 | every column is read from the column of its name |
| SparkInputs.RewriteEqualIff | src/jobs/spark_optimized_job.py:31-64 | on settled tables, for every run and salt: the reports are equal if and only if no two newest statement rows share an id while their tickers' newest company rows show one sector |
| SparkInputs.RewriteEqual | src/jobs/spark_benchmark_common.py:113-118 | the equality the benchmark demands, from conditions on its two input tables alone |
| SparkRepeatedIds.ReportsCanDiffer | src/jobs/spark_optimized_job.py:43-47 | two input tables, with an id shared by two quarters, on which the reports differ for every salt |
| CompanyHistory.IntervalsTile | src/jobs/stage1_spark_lakehouse_job.py:217-226 | from a ticker's first raw row on exactly one dim row covers each moment, before it none |
| CompanyHistory.KeptIff | src/jobs/stage1_spark_lakehouse_job.py:194-215 | which raw rows are kept, column by column against the row just before |
| CompanyHistory.UpperMeaning | src/jobs/stage1_spark_lakehouse_job.py:222-222 | upper-casing of tickers, character by character |
| CompanyHistory.DimRowMeaning | src/jobs/stage1_spark_lakehouse_job.py:217-240 | every column of a kept row's dim row: its values, a missing flag as false, valid until the next kept row |
| CompanyHistory.OneCurrentRow | src/jobs/stage1_spark_lakehouse_job.py:217-226 | each ticker has exactly one current row, and it is the last |
| CompanyHistory.CoversIff | src/jobs/stage1_spark_lakehouse_job.py:217-226 | a kept row is in force exactly until the next kept row of its ticker |
| CompanyHistory.KeepsHistoryIff | src/jobs/stage1_spark_lakehouse_job.py:190-240 | as-of lookups in the dim equal the raw table at every time if and only if no row is silently dropped |
| CompanyHistory.SilentDropIff | src/jobs/stage1_spark_lakehouse_job.py:200-215 | in column terms, when the null-aware filter drops a visible change |
| CompanyHistory.NullChangeIsLost | src/jobs/stage1_spark_lakehouse_job.py:200-215 | two rows of a ticker, the industry going to null, whose history is lost |
| CompanyHistory.NeighboursDifferIff | src/jobs/stage1_spark_lakehouse_job.py:200-215 | adjacent dim rows differ if and only if no unchanged row was kept |
| CompanyHistory.NullFreeHistory | src/jobs/stage1_spark_lakehouse_job.py:190-240 | with null-free tracked columns history is kept and neighbours differ |
| PointInTime.FirstIffPick | src/jobs/stage1_spark_lakehouse_job.py:609-617 | ranking first in the window is exactly being an eligible market row that no eligible one is later than, or null when none is eligible |
| PointInTime.OneRowEachIff | src/jobs/stage1_spark_lakehouse_job.py:589-617 | one output row per reference row if and only if no (ticker, period) repeats |
| PointInTime.ResultExists | src/jobs/stage1_spark_lakehouse_job.py:589-617 | the join and window have a result for every pair of tables |
| PointInTime.JoinIsNestedLoop | src/jobs/stage1_spark_lakehouse_job.py:589-617 | with unique keys the possible results of join and window are exactly those of the nested loop |
| DistressLabels.WarningsMeaning | src/jobs/stage1_spark_lakehouse_job.py:319-367 | the five warnings on the columns, without a division |
| DistressLabels.ScoreMeaning | src/jobs/stage1_spark_lakehouse_job.py:307-317 | when a row has a score, and that it is the weighted sum rounded to the nearest ten-thousandth |
| DistressLabels.LabelMeaning | src/jobs/stage1_spark_lakehouse_job.py:377-386 | the nested conditions read off: when the label is 1, 0 or null |
| DistressLabels.BelowThresholdIff | src/jobs/stage1_spark_lakehouse_job.py:317-317 | the rounded score is below 1.1 if and only if the raw one is below 1.09995 |
| DistressLabels.DistressedIff | src/jobs/stage1_spark_lakehouse_job.py:307-386 | the label in terms of the unrounded sum and the warning count |
| DistressLabels.WarningsRise | src/jobs/stage1_spark_lakehouse_job.py:361-375 | the warning count never falls when liabilities rise |
| DistressLabels.DistressMonotone | src/jobs/stage1_spark_lakehouse_job.py:307-386 | with positive liabilities, raising them never takes label 1 away |
| DistressLabels.UnsafeRaiseLosesDistress | src/jobs/stage1_spark_lakehouse_job.py:313-315 | every other rise turns some distressed row healthy |
| DistressLabels.MonotoneIff | src/jobs/stage1_spark_lakehouse_job.py:307-386 | exactly the safe rises keep every distress label |
| RowLabels.LabelsAgreeIff | src/transforms/compute_distress_labels.py:61-261 | the row form gives the column form's label on every row with given denominators if and only if the sector verdicts agree and the row is excluded or no denominator is negative |
| RowLabels.SameScore | src/transforms/compute_distress_labels.py:123-152 | with total assets null or not negative both forms have the same score |
| RowLabels.SameWarnings | src/transforms/compute_distress_labels.py:155-178 | with the three denominators null or not negative both forms count the same warnings |
| SectorPolicy.MentionsMeaning | src/jobs/stage1_spark_lakehouse_job.py:325-359 | the column test: one of four lower-cased texts has one of nine terms somewhere in it |
| SectorPolicy.TextMatchesMeaning | src/transforms/compute_distress_labels.py:77-90 | the policy test on texts: equal to an entry of the file, spaces around and case aside |
| SectorPolicy.CodeMatchesMeaning | src/transforms/compute_distress_labels.py:86-90 | the policy test on codes: the sector code, or the first two characters of the GICS code, is an entry |
| SectorPolicy.CoveredIff | src/transforms/compute_distress_labels.py:77-90 | for every policy file: matching a policy text always means mentioning a column term if and only if each policy term contains one |
| SectorPolicy.SectorTestsAgreeIff | src/jobs/stage1_spark_lakehouse_job.py:342-359 | under a covered policy the two tests agree on a row if and only if a whole text matches, or a term is mentioned just when a code matches |
| SectorPolicy.ShippedPolicyIsCovered | configs/sector_exclusion.yaml:1-12 | the shipped policy is covered |
| SectorPolicy.ShippedCodesMeaning | configs/sector_exclusion.yaml:8-12 | of the shipped codes the two-character cut of a GICS code can only be 40; the longer ones count as sector codes alone |
| SectorPolicy.NoPolicyAgrees | src/transforms/sector_policy.py:40-60 | for every policy file there is a row that mentions a bank and is not in the policy |
| SectorPolicy.LabelsAgreeBySectorIff | src/transforms/compute_distress_labels.py:215-261 | under a covered policy both forms label every statement of a company alike if and only if its sector tests agree and it is excluded or no denominator is negative |
| LakehouseTable.LocalIcebergTable.Create | src/lakehouse/catalog.py:94-115 | a table without fields is refused; otherwise it starts empty with its distinct fields |
| LakehouseTable.LocalIcebergTable.CommitRows | src/lakehouse/catalog.py:132-166 | stale tokens and foreign fields are refused, else one snapshot is added |
| LakehouseTable.LocalIcebergTable.AppendRows | src/lakehouse/catalog.py:168-178 | appending commits the current contents followed by the new rows |
| LakehouseTable.LocalIcebergTable.ReplaceRows | src/lakehouse/catalog.py:180-187 | replacing commits the new rows alone |
| LakehouseTable.LocalIcebergTable.EvolveSchema | src/lakehouse/catalog.py:189-197 | a valid new name is added at the end, any other is refused |
| LakehouseTable.LocalIcebergTable.ReadRows | src/lakehouse/catalog.py:201-214 | the search loop finds the oldest snapshot with the id |
| LakehouseTable.CommitMeaning | src/lakehouse/catalog.py:132-166 | each outcome of a commit; the stored rows cell by cell, every value under its column and null under the others |
| LakehouseTable.WriteMeaning | src/lakehouse/catalog.py:168-187 | an append stores the newest rows and then the new ones, a replacement the new ones alone, cell by cell |
| LakehouseTable.EvolveMeaning | src/lakehouse/catalog.py:189-197 | which names are refused, and what is added otherwise |
| LakehouseTable.ReadMeaning | src/lakehouse/catalog.py:201-214 | what a read returns: nothing, the newest rows, the oldest snapshot with the id, or an error |
| LakehouseTable.UnrepeatedInOrder | src/lakehouse/catalog.py:101-106 | a new table's columns stand in the order of their first mention |
| LakehouseTable.CommitWellFormed | src/lakehouse/catalog.py:138-156 | a commit keeps the linear chain, numbering, parents, row shapes and schema prefixes |
| LakehouseTable.RunsOnlyAdd | src/lakehouse/catalog.py:132-197 | after any run snapshots and schema only grew, and the chain is intact |
| LakehouseTable.ReadsAreStable | src/lakehouse/catalog.py:201-214 | once the table has a snapshot, an id that can be read keeps its rows through any later operations |
| LakehouseTable.ReadsAreStableIff | src/lakehouse/catalog.py:201-214 | a readable id returns the same rows after every run of operations if and only if the table has a snapshot |
| LakehouseTable.ReadsFindTheirSnapshot | src/lakehouse/catalog.py:206-214 | an id reads its own snapshot, for a hash that separates sequence numbers |
| LakehouseTable.AppendSucceedsIff | src/lakehouse/catalog.py:158-178 | an append on the head succeeds if and only if its own rows fit; older rows never stand in the way and are widened by nulls |
| LakehouseTable.RejectedChangesNothing | src/lakehouse/catalog.py:132-197 | a write is rejected if and only if it leaves the table as it was |
| LakehouseClients.TokenMeansCurrent | src/lakehouse/catalog.py:139-144 | a commit that passes the check was computed from the current contents |
| LakehouseClients.NoLostUpdates | src/lakehouse/catalog.py:132-187 | after any interleaving the contents are the serial composition of exactly the successful commits |
| LakehouseClients.LogCountsSnapshots | src/lakehouse/catalog.py:145-156 | one logged commit per snapshot added |
| LakehouseClients.TokenGuardsIff | src/lakehouse/catalog.py:139-144 | the head token guards later writes if and only if the table has a snapshot |
| SnapshotDiff.DiffReadsItsSnapshots | src/lakehouse/snapshots.py:92-97 | a diff compares exactly the recorded rows, whatever was written since |
| SnapshotDiff.ListingExists | src/lakehouse/snapshots.py:101-105 | every two keyed views have a listing of their differences |
| SnapshotDiff.DiffMeaning | src/lakehouse/snapshots.py:99-106 | row by row: which rows are reported as added, removed and updated |
| SnapshotDiff.StartMeaning | src/lakehouse/snapshots.py:92-92 | where a diff starts: no rows without an id, else the rows the id names |
| SnapshotDiff.EndMeaning | src/lakehouse/snapshots.py:93-94 | where a diff ends: at the id, or at the newest snapshot |
| SnapshotDiff.InputsMeaning | src/lakehouse/snapshots.py:92-97 | when a diff is refused, and with which error |
| SnapshotDiff.DiffIsPatch | src/lakehouse/snapshots.py:99-106 | applying the diff to the old keyed view gives the new one |
| SnapshotDiff.DiffIsDisjoint | src/lakehouse/snapshots.py:101-105 | added, removed and updated keys are disjoint, and all empty if and only if the views are equal |
| SnapshotDiff.RowDeltaIsKeyDelta | src/lakehouse/snapshots.py:32-34 | the delta is the change in the number of keys |
| SnapshotDiff.RowDeltaIff | src/lakehouse/snapshots.py:32-34 | the delta is the change in rows if and only if both sides lose equally many rows to key collisions |
| SnapshotDiff.CollapsedIff | src/lakehouse/snapshots.py:99-100 | no row collapses if and only if business keys are unique |
| EmbeddingRegistry.CheckShape | src/llm/embedding_registry.py:179-187 | the loop accepts a result if and only if every vector has the right length |
| EmbeddingRegistry.EmbeddingVersionRegistry.RegisterVersion | src/llm/embedding_registry.py:71-88 | registering is the contract's registering |
| EmbeddingRegistry.EmbeddingVersionRegistry.ValidateDualRead | src/llm/embedding_registry.py:105-137 | which error validation raises and what it records |
| EmbeddingRegistry.EmbeddingVersionRegistry.CommitSwap | src/llm/embedding_registry.py:148-153 | the swap happens if and only if the alias is still the validated one |
| EmbeddingRegistry.EmbeddingVersionRegistry.HotSwap | src/llm/embedding_registry.py:139-159 | an undisturbed swap is the one-lock swap; a failed one changes nothing |
| EmbeddingRegistry.RegisterMeaning | src/llm/embedding_registry.py:71-88 | which models are accepted, and every field of the registry afterwards |
| EmbeddingRegistry.AtomicSwapMeaning | src/llm/contracts.py:280-294 | each outcome of the one-lock swap and the registry afterwards |
| EmbeddingRegistry.StepKeeps | src/llm/embedding_registry.py:71-159 | every step of every thread keeps the registry invariant, the records and the active dimension |
| EmbeddingRegistry.TwoPhaseRefinesAtomic | src/llm/contracts.py:266-306 | every interleaving is a run of the one-lock registry with the same state and outcomes |
| EmbeddingRegistry.SwapsFormChain | src/llm/embedding_registry.py:148-159 | successful swaps chain previous to active, ending at the current alias |
| EmbeddingRegistry.QueriesSurviveSwaps | src/llm/embedding_registry.py:161-171 | a query vector valid before any number of swaps is valid after them |
| EmbeddingRegistry.StableIffCollisionFree | src/llm/embedding_registry.py:80-87 | the active dimension is stable in all runs if and only if models sharing an identifier share a dimension |
| MinioPublish.Bucket.CopyPrefix | src/io/minio_publish.py:10-22 | a copy installs each source object at its relative key, or stops part way; nothing else changes |
| MinioPublish.Bucket.ClearPrefix | src/io/minio_writer.py:129-139 | a clear empties the prefix or deletes only some of it and reports |
| MinioPublish.Bucket.ReplaceAll | src/io/minio_publish.py:41-47 | after clear and copy every dataset is exactly what was kept for it |
| MinioPublish.Bucket.BackUp | src/io/minio_publish.py:39-40 | what the backup loop has saved when it ends or stops |
| MinioPublish.Bucket.PromoteStaged | src/io/minio_publish.py:25-51 | promoted means exactly the staged objects; a failure after a complete backup into an empty rollback root leaves every dataset exactly as before the call; a store down from the start of the backup loses them all; scratch roots end empty, other keys are untouched |
| MinioPublish.AlwaysRestoredIff | src/io/minio_publish.py:38-48 | checked before the call: every possible failure is restored if and only if the rollback root already mirrors the datasets |
| MinioPublish.RestoredIffBackedUp | src/io/minio_publish.py:38-48 | with an empty rollback root: if and only if every object had been backed up |
| MinioPublish.RestoredIffNothingStale | src/io/minio_publish.py:38-48 | with a complete backup: if and only if no stale entry belongs to a missing object |
| MinioPublish.EarlyFailureLosesData | src/io/minio_publish.py:39-47 | a run of the promotion against a store that goes down after the staging check: the dataset object is gone |
| AtomicPublish.AtomicDirectoryPublisher.Prepare | src/io/atomic_publish.py:33-46 | clearing, building and validating leave published tree and pointer alone |
| AtomicPublish.AtomicDirectoryPublisher.SwapIn | src/io/atomic_publish.py:47-54 | the two renames and the rename back: which calls must raise for each to fail, and what is left where |
| AtomicPublish.AtomicDirectoryPublisher.Publish | src/io/atomic_publish.py:26-60 | one file-system call after the other, after each a whole snapshot is published or in the backup and nothing unvalidated is visible; the calls that raise decide outcome and disk; success installs exactly the built tree and its run id |
| AtomicPublish.CrashThenRetryLoses | src/io/atomic_publish.py:39-50 | a publish passes through a state with the old tree in the backup alone, and retrying the run id from such a state with a failing build leaves no copy |
| TextOrder.SpacesMeaning | src/lakehouse/catalog.py:191-191 | which characters `strip` takes off |
| TextOrder.BeforeMeaning | src/jobs/spark_baseline_job.py:58-58 | the text order: at the first difference, or where one text ends |
| IsoTime.TextOrderIsTimeOrder | src/generator/streaming.py:63-65 | ISO text of two instants compares as the instants do, with or without a printed fraction |
| Rounding.RoundingIsUnique | src/generator/streaming.py:26-26 | nearest integer with halves to even leaves one result |
| IsoReading.CalendarMeaning | src/generator/streaming.py:31-51 | the date some days after the start, by the Gregorian day count |
| IsoReading.StampReadsBack | src/generator/streaming.py:63-65 | a stamp, read field by field, is the instant it was printed for |
| StableSort.SortedInOrder | src/generator/streaming.py:84-84 | the sort orders by rank and keeps the order of equal ranks |
| StreamSchedule.GenerateStreamEvents | src/generator/streaming.py:21-85 | the loops and the sort compute the schedule, or the error the source raises |
| StreamSchedule.ScheduleIsInTimeOrder | src/generator/streaming.py:84-85 | the list holds every original and copy, in ingest-time order, stably |
| StreamSchedule.LatenessIsBounded | src/generator/streaming.py:52-57 | how far event time can trail ingest time, by flag |
| StreamEvents.EventMeaning | src/generator/streaming.py:36-83 | every field of every event of a schedule: window, position, times, flags, and what a copy changes |
| StreamEvents.ScheduleIsComplete | src/generator/streaming.py:36-85 | each sequence number has its original, each drawn one its copy, and the events number as configured |
| StreamEvents.OutcomeMeaning | src/generator/config.py:43-61 | when a configuration is rejected, asks for too many duplicates, or leaves the calendar |
| StreamEvents.DrawnNumbers | src/generator/streaming.py:26-30 | how many sequence numbers are flagged and repeated |
| StreamProfile.WindowCounts | src/generator/profile.py:43-47 | the counting loop over event times |
| StreamProfile.WindowIsInterval | src/generator/streaming.py:37-47 | the branches cut sequence numbers into consecutive windows of the configured sizes |
| StreamProfile.RecoveredIff | src/generator/profile.py:44-47 | an event's window comes back if and only if position plus shift fits in it |
| StreamProfile.ProfileStartsAtZero | src/generator/profile.py:44-44 | the earliest ingest time is the schedule's start |
| StreamProfile.ProfilerInvertsIff | src/generator/profile.py:43-47 | for the events as built, also where a date overflow would refuse the schedule: all windows are recovered for every random choice if and only if the fullest window and the duplicate shift fit |
| StreamProfile.ScheduleInvertsIff | src/generator/profile.py:43-47 | for the schedules that come out: fitting recovers all of them, and where no date can overflow nothing less does |
| StreamProfile.DrawnRecoveredIff | src/generator/profile.py:43-47 | for one schedule: every event is recovered if and only if the fullest window fits and each copy lands in its original's window |
| StreamProfile.UnfitScheduleExists | src/generator/config.py:58-61 | a valid configuration inside the calendar whose schedule the profiler misreads |
| StreamProfile.InCalendarSchedules | src/generator/streaming.py:37-84 | a configuration whose windows and longest lateness stay in the calendar always gives a schedule |
| StreamProfile.ProfileMeaning | src/generator/profile.py:43-51 | each counted window holds its stretch of originals and the copies drawn from it |
| StreamProfile.WindowIsFullIff | src/generator/streaming.py:36-47 | baseline and burst windows hold their configured counts if and only if enough originals are left |
| StreamProfile.BurstCanFallShort | src/generator/config.py:58-61 | a valid configuration whose burst window holds 49 originals instead of 100 |
| OfflineDuplicates.InjectCompanyDuplicates | src/generator/offline.py:49-65 | originals first and unchanged, then one updated copy per sampled row |
| OfflineDuplicates.GenerateCompanies | src/generator/offline.py:164-171 | the reported rate is the share of injected rows |
| OfflineDuplicates.AchievedMeaning | src/generator/offline.py:164-171 | the reported rate times all rows is the number of injected ones |
| OfflineDuplicates.ErrorIs | src/generator/offline.py:43-46 | the error in rate, times the rows, is the rounding or clamping error in duplicates |
| OfflineDuplicates.RateIsCloseIff | src/generator/offline.py:43-55 | the rate is within (1 - rate) / (2 * rows) if and only if the base rows cover the request up to one half |
| OfflineDuplicates.RateCanMiss | src/generator/offline.py:43-55 | one company and a rate of 0.75, for which the achieved rate is 0.5 |
| PiiRedaction.AddFinding | src/llm/data_governance.py:87-90 | a finding is added if and only if it overlaps none |
| PiiRedaction.DetectPii | src/llm/data_governance.py:93-108 | the four loops report the candidates greedily, specific patterns first |
| PiiRedaction.MatchesAreAccounted | src/llm/data_governance.py:93-108 | every match of each of the four patterns, with its keyword in front where one is needed, is reported under its kind or shares a character with the report of an earlier pattern or an earlier match of its own |
| PiiRedaction.KeywordIsInFront | src/llm/data_governance.py:73-84 | the keyword test: one of the words, after lower-casing, in the 25 characters in front |
| PiiRedaction.DetectionCovers | src/llm/data_governance.py:78-108 | reports are in the text and disjoint; each candidate is reported or overlaps an earlier report, not both |
| PiiRedaction.ReportsAreMatches | src/llm/data_governance.py:97-108 | every report is a match of its pattern, a bare digit run only with one of its keywords in the 25 characters before it |
| PiiRedaction.EmailsAreReported | src/llm/data_governance.py:97-99 | every e-mail match is reported |
| PiiRedaction.Redact | src/llm/data_governance.py:111-122 | the loop replaces findings from right to left |
| PiiRedaction.RedactionIsRebuild | src/llm/data_governance.py:111-122 | redacting what was detected gives the left-to-right rebuild, which keeps exactly the characters outside the spans in order |
| PiiRedaction.OverlapGarbles | src/llm/data_governance.py:119-121 | what replacing two overlapping spans with different starts gives: the first cuts into the second one's mark |
| RagPipeline.PgVectorStore.InsertChunks | src/llm/rag/pgvector_store.py:84-126 | insert-if-absent per content hash and version, returning the rows added |
| RagPipeline.PgVectorStore.InsertQuarantine | src/llm/rag/pgvector_store.py:128-149 | the first quarantine record of a content hash stays |
| RagPipeline.RagIngestionPipeline.ParseAndChunk | src/llm/rag_pipeline.py:155-181 | chunks of a document, and which document its hash names from now on |
| RagPipeline.RagIngestionPipeline.DeduplicateChunks | src/llm/rag_pipeline.py:183-211 | exactly the chunks not stored under the backend's version |
| RagPipeline.RagIngestionPipeline.EnforceLicensingAndMetadata | src/llm/rag_pipeline.py:213-230 | clean chunks stay, violations are quarantined, a gap stops the run |
| RagPipeline.RagIngestionPipeline.WriteVectors | src/llm/rag_pipeline.py:232-264 | parents first, then the backend, which may fail, then rows, and the version only if a row was added |
| RagPipeline.RunIngestion | src/llm/rag_pipeline.py:267-290 | the whole run and its report |
| RagOutcome.RowMeaning | src/llm/rag_pipeline.py:183-264 | over settings, document and store alone: a finished run adds a row exactly for each unstored text that is complete, licensed, of an allowed class and free of personal data; the row holds the first such text of its hash |
| RagOutcome.QuarantineMeaning | src/llm/data_governance.py:215-236 | a finished run quarantines exactly the other unstored texts, each under the first condition it fails |
| RagOutcome.ReportMeaning | src/llm/rag_pipeline.py:278-290 | how every run ends: each failure with its cause, and otherwise every field of the report |
| RagOutcome.DocumentMeaning | src/llm/rag_pipeline.py:250-252 | the run's document is registered exactly when something of it is to be stored |
| RagPipeline.ScreenMeaning | src/llm/data_governance.py:215-236 | a finished screening kept exactly the clean chunks and quarantined the rest |
| RagPipeline.ChunkOutcome | src/llm/rag_pipeline.py:213-264 | each unseen chunk of a finished run is stored or quarantined |
| RagPipeline.NeverBoth | src/llm/rag_pipeline.py:222-264 | no content hash gains both a row and a quarantine record in one run, when the hash tells the document's chunk texts apart |
| RagPipeline.NewRowsAreClean | src/llm/rag_pipeline.py:254-264 | rows are never rewritten, and each new one is a clean unseen chunk of the document |
| RagPipeline.FailureAddsNoChunk | src/llm/rag_pipeline.py:213-264 | a run that raised stored no chunk and kept every quarantine record; it added exactly the unregistered parent if and only if the embedding backend failed |
| RagPipeline.EmbeddingFailsIff | src/llm/rag_pipeline.py:241-264 | a backend failure shows if and only if a working backend would have stored a chunk; otherwise it makes no difference |
| RagPipeline.RetryRecovers | src/llm/rag_pipeline.py:250-264 | retrying after a backend failure, on any day, reaches the store and report of a run of that day that never failed |
| RagPipeline.RerunWritesNothing | src/llm/rag_pipeline.py:183-211 | a finished run repeated on any day, on any store that still has its rows, writes nothing and returns the empty version |
| RagPipeline.RerunIsIdle | src/llm/rag_pipeline.py:267-290 | repeated at once, even past midnight, it changes nothing at all |
| RagPipeline.ChunksNewIff | src/llm/rag_pipeline.py:284-290 | the reported count is the number of rows added if and only if no content hash repeats in the batch |
| RagPipeline.RepeatedTextOverCounts | src/llm/rag_pipeline.py:284-290 | a document with repeated text: two chunks reported, one row added |
| RagPipeline.IngestKeepsParents | src/llm/rag_pipeline.py:250-263 | every stored chunk has its parent document |
| AbRouter.CreatedIsNormal | src/ml/ab_router.py:20-31 | which weights are accepted, and that accepted ones sum to exactly one |
| AbRouter.CreateMeaning | src/ml/ab_router.py:20-31 | the three refusals in their order; names and salt are kept, and each weight's share of the sum |
| AbRouter.Decide | src/ml/ab_router.py:33-41 | the loop returns the first variant whose cumulative weight exceeds the bucket |
| AbRouter.TakesIsInterval | src/ml/ab_router.py:36-40 | a variant takes exactly a run of consecutive buckets |
| AbRouter.ExactlyOneTakes | src/ml/ab_router.py:37-41 | each bucket goes to exactly one variant and the fallback never decides |
| AbRouter.BucketCount | src/ml/ab_router.py:35-40 | the number of buckets of a variant is within one of its weight times 2^64 |
| Compaction.BucketCountMeaning | src/lakehouse/compaction.py:55-58 | between one and the input count, and the fewest files whose average is at most the target |
| Compaction.BucketsAreEven | src/lakehouse/compaction.py:110-119 | no bucket is empty and each gets the floor or the ceiling of the average |
| Compaction.DealtAt | src/lakehouse/compaction.py:110-113 | where each input table lands: buckets keep input order |
| Compaction.DealingKeepsRows | src/lakehouse/compaction.py:110-122 | dealing and merging keep the multiset of rows |
| Compaction.CompactSmallFiles | src/lakehouse/compaction.py:85-134 | the job's files and summary, or the read failure |
| Compaction.SucceedsIff | src/lakehouse/compaction.py:102-106 | it succeeds if and only if no source file lies directly in the output directory |
| Compaction.JobKeepsRows | src/lakehouse/compaction.py:106-134 | the planned number of files is written, the rows in them are the rows of the inputs with their multiplicities, and the reported row counts are true |
| Compaction.JobWritesParts | src/lakehouse/compaction.py:102-124 | the output directory holds exactly the planned files; others are untouched |
| Compaction.PartHoldsItsBucket | src/lakehouse/compaction.py:117-122 | each planned file holds its bucket's rows |
| Compaction.TableInBucket | src/lakehouse/compaction.py:110-118 | each input's rows stand together and in order in its bucket's file, behind the inputs dealt there before |
| Compaction.SummaryMeaning | src/lakehouse/compaction.py:97-134 | the counted files and bytes, read and written |
| Compaction.OutputFilesMeaning | src/lakehouse/compaction.py:85-109 | the fewest files whose average size stays within the target of so many mebibytes |
| Compaction.PartNameMeaning | src/lakehouse/compaction.py:119-119 | a part's name: its number in decimal, padded to five digits |
| Compaction.ListingsMeaning | src/lakehouse/compaction.py:39-103 | which paths are listed as inputs and as stale outputs |
| Compaction.DefaultRerunFails | src/lakehouse/compaction.py:87-106 | a second run into the default directory, with any target size, fails after deleting the first one's files |

## Left out

- Spark itself: only the relational meaning of the operators; tie-breaks, group and row order are arbitrary.
- Decimal overflow, float rounding and float equality: amounts, rates, weights and scores are exact; a float router's weights need not sum to one.
- Company key column and the columns copied unchanged by the gold builders, and the label's reason, confidence and eligibility columns.
- SectorPolicy.SectorTestsAgreeIff: lower-casing that changes a text's length or looks at neighbouring characters; codes and texts are strings or null.
- RowLabels.LabelsAgreeIff: amounts, quarter numbers and the previous row are parsed columns, the same for both forms; text that one form parses and the other does not, decimal precision and how each finds the previous row are not modelled.
- CompanyHistory.KeepsHistoryIff: assumes upper-case tickers and one row per (ticker, created_ts), as the silver table has; ties in the window are arbitrary otherwise.
- Hashes: identifiers are functions given as parameters, with the collision condition each result needs stated on it.
- Field types, partition fields, commit times and copying of rows in the snapshot table; rows are values, so aliasing is not modelled.
- The order of a diff's rows: any listing of the keys without repetition.
- MinioPublish.Bucket.PromoteStaged: assumes dataset prefixes that are not nested in each other or in the scratch roots, and a failure handler and clean-up that do not fail themselves.
- Process death during a publish, and another run id writing to the same directory at the same time; a removal of a directory is one step that may leave part behind.
- StreamSchedule.GenerateStreamEvents: event id, ticker, price and volume columns and the random generator; samples are arbitrary sets and lists of the right sizes.
- OfflineDuplicates.GenerateCompanies: only the injection at the end of the batch generator; building companies, prices and statements is not modelled.
- The profile's distributions, rates and digests beyond the window counts.
- Regular expressions: the matches of each pattern are an arbitrary list of non-empty spans in the text; lower-casing is a parameter.
- RagPipeline.RagIngestionPipeline.ParseAndChunk: chunking, normalization, UTF-8 decoding and hashing are parameters; a run fetches one document, as the source's fetch does.
- RagPipeline.RagIngestionPipeline.EnforceLicensingAndMetadata: returns the filtered list that the source assigns in place; on an error the source leaves its list as it was.
- Embedding vectors, and why a backend fails: whether it delivers in a run is an input.
- Database errors other than the foreign key, which is a precondition of the insert that callers are proved to meet.
- Compaction.CompactSmallFiles: Parquet encoding and schema promotion; file sizes are a parameter and the listing order is arbitrary. Z-order sorting is not modelled.
- Orchestration, containers, network clients, evidence auditors, screenshot and benchmark scripts.
