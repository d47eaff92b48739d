# TimescaleDB background jobs, maintenance policies and continuous-aggregate catalog

This project models part of TimescaleDB in Dafny and proves properties of the model. It covers four pieces:

- **Jobs API.** add_job, alter_job, delete_job and run_job. It also covers the configuration check those functions apply to the built-in policies, and the scan that writes alter_job's changes into the job table.
- **Policy procedures.** Retention, reorder, compression and continuous-aggregate refresh. For each one the model covers:
  - how it reads and validates its configuration;
  - which chunk it picks;
  - what it does to the catalog;
  - the "fast restart" signal that makes the scheduler run a job again immediately.
- **Job execution.** The transaction and snapshot framing `job_execute` puts around a job's procedure.
- **Continuous-aggregate catalog.**
  - Classifying a view name.
  - The lookups.
  - Schema and view renames.
  - The walk to the inherited integer-now function.
  - The watermark.
  - The drop cascades run when a continuous aggregate, one of its views or its hypertable is dropped.
  - Plus the policy-table bookkeeping: deleting a hypertable's jobs, and counting jobs by type.

How the model is built:

- The database is a value `Tables` holding every catalog table the core reads or writes (`CatalogModel`).
- The class `Catalog` holds the current tables. Each operation that changes the catalog is a method that updates those tables in place.
- Each such method is proved equal to a specification function over `Tables`. The lemmas about those functions carry the properties.
- Every `ereport(ERROR)` becomes an `Err`/`Fail` result. A failing method leaves the catalog as it was, which models the transaction's rollback.
- Calls into the storage layer (reorder a chunk, compress it, drop chunks, refresh, drop a view, trigger or hypertable) are kept as a log of `StorageAction`s in call order.
- Time values are integers in microseconds. `DT_NOBEGIN` and `DT_NOEND` are the int64 sentinels PostgreSQL uses for -infinity and +infinity.

Modules, one per source file plus shared vocabulary:

| module | file | models |
|---|---|---|
| `Base` | base.dfy | error codes, `Option`/`Result`, sentinels, filtering and counting over sequences |
| `CatalogModel` | catalog.dfy | catalog rows, `Tables`, class `Catalog`, the job-stat upsert and the job delete cascade |
| `TimeUtils` | time_utils.dfy | type ranges, saturating addition, timestamp plus interval |
| `BgwPolicy` | policy.dfy | src/bgw_policy/policy.c and the `BgwJobTypeCount` record of policy.h |
| `ContinuousAgg` | continuous_agg.dfy | src/continuous_agg.c |
| `PolicyJob`, `JobExecution` | job.dfy | tsl/src/bgw_policy/job.c: the policies, and `job_execute` |
| `JobApi` | job_api.dfy | tsl/src/bgw_policy/job_api.c |

Three edge cases of the code that the model keeps:

- **Reorder with exactly three slices.** tsl/src/bgw_policy/job.c:77-91 takes the third-latest slice of the time dimension. It accepts a chunk whose slice starts at or before that slice (`BTLessEqualStrategyNumber`, line 89). With exactly three slices, the oldest chunk is therefore eligible. `PolicyJob.ReorderChoiceRule` states this rule.
- **alter_job with an unset last finish.** tsl/src/bgw_policy/job_api.c:211-218 writes the last finish plus the new interval as the next start. It passes `allow_unset = true`, so the write happens even when the result is -infinity. A last finish of -infinity therefore gives a next start of -infinity. `TimeUtils.TimestampPlusInterval` and `JobApi.JobAlterNextStart` state this.
- **-infinity as any other next start.** The job-stat table refuses -infinity as a next start from every writer except that recompute (`CatalogModel.NextStartRefused`). The refusal aborts the transaction. So three calls fail, with everything they did undone:
  - add_job with an initial start of -infinity;
  - alter_job with an explicit next start of -infinity;
  - a policy run whose fast restart would write -infinity. This happens to a job whose only statistics row was seeded by an initial start, because the job's last start is then still -infinity (job.c:56-57).

## Model

| member | source | states |
|---|---|---|
| CatalogModel.UpsertNextStart | tsl/src/bgw_policy/job_api.c:130-134 | the job-stat upsert sets the job's next start, keeps its other columns, seeds a fresh row (last start/finish -infinity) when there was none, and leaves every other job's row alone |
| CatalogModel.DeleteJob | src/bgw_policy/policy.c:23 | deleting a job by id removes exactly the job rows with that id, its job-stat row and its per-chunk statistics, and no other table |
| CatalogModel.Catalog.UpsertJobNextStart | tsl/src/bgw_policy/job_api.c:130-134 | the in-place upsert refuses -infinity with an internal error and changes nothing; any other next start leaves the tables as UpsertNextStart says and changes no other table |
| TimeUtils.SaturatingAddIsClampedSum | src/continuous_agg.c:975 | for an integer partitioning type and in-range operands, saturating addition is the sum clamped to the type's range |
| TimeUtils.SaturatingAddTemporal | src/continuous_agg.c:975 | for a temporal type, saturating addition is the sum in range, +infinity above and -infinity below |
| TimeUtils.TimestampPlusInterval | tsl/src/bgw_policy/job_api.c:211-218 | -infinity plus an interval stays -infinity; a finite timestamp moves by exactly the interval |
| BgwPolicy.DeleteRowOnlyTupleFound | src/bgw_policy/policy.c:27-38 | the callback deletes exactly the row under the scan, deletes nothing from the job table, and always asks to continue |
| BgwPolicy.ChunkStatsDeleteRowOnlyByJobId | src/bgw_policy/policy.c:27-38 | a scan with the row-only callback over a job's per-chunk statistics leaves exactly the rows of other jobs, in order, and no other table changes |
| BgwPolicy.DeleteJobById | src/bgw_policy/policy.c:23 | the in-place delete (per-chunk statistics through the row-only scan, then the job-stat row, then the job) ends in DeleteJob's tables |
| BgwPolicy.JobIdsOnHypertable | src/bgw_policy/policy.c:19 | an id is listed exactly when some job attached to the hypertable has it |
| BgwPolicy.DeleteJobs | src/bgw_policy/policy.c:20-24 | deleting a list of jobs keeps exactly the jobs, job-stat rows and per-chunk statistics whose job id is not in the list, and nothing else changes |
| BgwPolicy.DeleteByHypertableId | src/bgw_policy/policy.c:13-25 | the loop over the hypertable's jobs leaves the tables of DeleteJobs applied to the listed ids |
| BgwPolicy.DeleteByHypertableIdExact | src/bgw_policy/policy.c:13-25 | after deleting a hypertable's policies, a job remains exactly when it is not attached to it, and no attached job keeps a job-stat row or per-chunk statistics |
| BgwPolicy.JobTypeCounts | src/bgw_policy/policy.c:40-72 | each of the six counters, starting at zero, equals the number of jobs of its kind |
| BgwPolicy.CountsAddUp | src/bgw_policy/policy.c:48-69 | the six counters add up to the number of jobs counted at all, which is at most the number of jobs |
| BgwPolicy.OneCounterPerJob | src/bgw_policy/policy.c:52-68 | a job increments exactly one counter when it is counted, and none otherwise |
| BgwPolicy.UserDefinedActionsCounted | src/bgw_policy/policy.c:65-68 | the user-defined-action counter is the number of jobs outside the internal schema |
| BgwPolicy.ClassifyInternal | src/bgw_policy/policy.c:52-64 | an internal job is counted by none of the counters exactly when its procedure name is none of the five policy names; each policy name selects its own counter (refresh, compression, reorder, retention, telemetry) |
| ContinuousAgg.ViewTypeOf | src/continuous_agg.c:686-700 | the classification is a view type whose stored name is the one given, user view first, then partial, then direct; it says "any" exactly when no view has that name |
| ContinuousAgg.HypertableStatusOf | src/continuous_agg.c:206-235 | the raw flag is set exactly when some continuous aggregate is defined on the hypertable, the materialization flag exactly when one is materialized in it, even with the early stop |
| ContinuousAgg.NumberOfContinuousAggsAttached | src/continuous_agg.c:136-146 | the count is the number of catalog rows on the raw hypertable |
| ContinuousAgg.FindByRawTableId | src/continuous_agg.c:237-264 | the list is exactly the rows on the raw hypertable, in catalog order |
| ContinuousAgg.FindByMatHypertableId | src/continuous_agg.c:266-294 | the scan returns the last row with the materialization id, or none |
| ContinuousAgg.FindByMatHypertableIdUnique | src/continuous_agg.c:266-294 | with the primary key, the lookup finds nothing exactly when no row has the id, and otherwise the one row that has it |
| ContinuousAgg.FindByViewName | src/continuous_agg.c:296-367 | the scan returns the last row whose view of the given type (or any of whose views, for "any") has the name |
| ContinuousAgg.FindByViewNameFinds | src/continuous_agg.c:296-367 | an untyped lookup succeeds exactly when some row has a view of that name, and the row found has one; a typed lookup finds a row whose view of that type has the name |
| ContinuousAgg.FindUserViewName | src/continuous_agg.c:369-373 | the lookup by user-view name is the typed lookup for the user view |
| ContinuousAgg.FindByRelid | src/continuous_agg.c:381-391 | an OID that resolves to no relation finds nothing; otherwise the lookup is the user-view lookup of the relation's name |
| ContinuousAgg.RenameSchemaName | src/continuous_agg.c:711-753 | after a schema rename every row is its old self with the views of the old schema moved to the new one, and no other table changes |
| ContinuousAgg.RenameSchemaInRowEffect | src/continuous_agg.c:711-753 | a schema rename keeps ids, bucket width and view names, moves exactly the views that were in the old schema, and leaves none in it |
| ContinuousAgg.RenameSchemaRoundTrip | src/continuous_agg.c:711-753 | renaming a schema and back restores a row none of whose views was already in the new schema |
| ContinuousAgg.RenameSchemaIdempotent | src/continuous_agg.c:711-753 | renaming a schema twice is renaming it once |
| ContinuousAgg.RenameViewOutcome | src/continuous_agg.c:755-822 | with n rows whose user view has the old name, the rename fails (feature not supported) exactly when n >= 1 under ALTER VIEW or n >= 2; otherwise each row is renamed, and the object type becomes a view when n = 1 |
| ContinuousAgg.RenameViewInRowEffect | src/continuous_agg.c:771-810 | in one row, only the first of the user, partial and direct views with the old name takes the new name; ids and bucket width are kept, and a row with no such view is unchanged |
| ContinuousAgg.RenameViewErrSticks | src/continuous_agg.c:755-822 | once the scan has failed on a prefix of the table, the whole scan fails with that error, which is why the loop may stop at the first refusal |
| ContinuousAgg.RenameViewRows | src/continuous_agg.c:755-822 | the loop that updates matching rows in place computes the rename scan's result |
| ContinuousAgg.RenameView | src/continuous_agg.c:755-822 | on success the catalog holds the renamed rows and the call returns the new object type; on error the catalog is unchanged |
| ContinuousAgg.RawHypertableFor | src/continuous_agg.c:846-869 | the answer is the invalid id or the raw id of a row materialized in the given hypertable, and the invalid id when there is no such row |
| ContinuousAgg.FindRawHypertableForMaterialization | src/continuous_agg.c:846-869 | the scan computes RawHypertableFor |
| ContinuousAgg.FindIntegerNowFuncByMaterializationId | src/continuous_agg.c:876-895 | the walk from the materialization towards its raw hypertables returns the first open dimension that names an integer-now function, or none |
| ContinuousAgg.IntegerNowOnChainResult | src/continuous_agg.c:876-895 | a found dimension names an integer-now function and is the open dimension of a hypertable no later than the start; the start's own function wins; a hypertable that materializes nothing ends the walk at itself |
| ContinuousAgg.ContinuousAggWatermark | src/continuous_agg.c:918-984 | the result and the cached value are those of one watermark call, including the zero entry left behind by a failed privilege check |
| ContinuousAgg.WatermarkCachedRepeat | src/continuous_agg.c:918-984 | after a successful call, the next call for the same hypertable returns the cached watermark whatever the catalog says by then |
| ContinuousAgg.WatermarkErrors | src/continuous_agg.c:918-984 | a NULL argument and an id that materializes nothing are invalid parameters; for an existing continuous aggregate the call fails exactly without SELECT privilege, unless the cache answers |
| ContinuousAgg.WatermarkValue | src/continuous_agg.c:918-984 | the watermark of an empty materialization is the type's minimum; for an integer type it is one bucket past the maximum, clamped to the type's maximum; the value is cached |
| ContinuousAgg.ScanDelete | src/continuous_agg.c:148-195 | a deleting scan keeps exactly the rows the key does not select, in order |
| ContinuousAgg.DeleteCatalogEntries | src/continuous_agg.c:545-569 | the catalog-entry part of a drop changes only the continuous-aggregate table and the three invalidation tables |
| ContinuousAgg.DeleteCatalogEntryRows | src/continuous_agg.c:545-569 | the scan deletes the rows materialized in the hypertable, and for each one its materialization log and, without other continuous aggregates on the raw hypertable, the raw log and threshold |
| ContinuousAgg.DeleteRelatedRows | src/continuous_agg.c:558-565 | the invalidation rows deleted with one catalog row extend the deleted set by that row |
| ContinuousAgg.DeleteCatalogEntriesScan | src/continuous_agg.c:545-569 | the in-place scan leaves DeleteCatalogEntries's tables |
| ContinuousAgg.InvalidationRowsDeletedStep | src/continuous_agg.c:558-565 | deleting the rows of one more catalog row is deleting those of the enlarged set |
| ContinuousAgg.DropContinuousAggSpec | src/continuous_agg.c:457-589 | a drop keeps the procedures and every chunk, dimension slice and index that does not belong to the materialization hypertable, adds none, and leaves exactly the continuous aggregates of other materializations |
| ContinuousAgg.DropCaggCascade | src/continuous_agg.c:578-582 | when the materialization hypertable exists, the cascading drop and the hypertable's deletion remove exactly its chunks, the slices of its open dimension and the indexes on its main table and chunk tables |
| ContinuousAgg.DropJobsOf | src/continuous_agg.c:470-479 | the first step of a drop changes only the job, job-stat and per-chunk statistics tables |
| ContinuousAgg.DropContinuousAgg | src/continuous_agg.c:457-589 | the in-place drop ends in the specification's tables, or leaves the catalog unchanged when it fails |
| ContinuousAgg.DropObjectsInPlace | src/continuous_agg.c:571-588 | the deletions performed one after the other leave DropObjects's tables |
| ContinuousAgg.DropCaggFails | src/continuous_agg.c:507-531 | a drop fails, with an undefined object, exactly when the raw hypertable exists, has no other continuous aggregate, and its invalidation trigger is missing |
| ContinuousAgg.DropCaggCatalogEffects | src/continuous_agg.c:457-569 | a successful drop deletes exactly the jobs of the materialization hypertable, the continuous aggregate's row, its materialization log and, without other continuous aggregates, the raw log and threshold |
| ContinuousAgg.DeleteCatalogEntriesOfRow | src/continuous_agg.c:545-569 | with unique materialization ids, the catalog-entry deletes remove exactly that row's entries |
| ContinuousAgg.DropCaggObjectEffects | src/continuous_agg.c:507-588 | a successful drop removes the user view (if asked), the partial and direct views and the materialization hypertable, and the raw trigger when the raw hypertable exists and has no other continuous aggregate |
| ContinuousAgg.DropObjectsOfPresent | src/continuous_agg.c:571-588 | dropping only the objects that still exist is removing all of them |
| ContinuousAgg.DropCaggActions | src/continuous_agg.c:571-588 | a drop appends its storage actions after the earlier ones, and drops the materialization hypertable exactly when it exists |
| ContinuousAgg.DropActionsOfMat | src/continuous_agg.c:578-582 | a drop plan drops the materialization hypertable exactly when the plan says so |
| ContinuousAgg.OnlyRowOfItsMat | src/continuous_agg.c:545-549 | with the primary key, the scan by materialization id selects the continuous aggregate's own row and no other |
| ContinuousAgg.DropHypertableErrSticks | src/continuous_agg.c:600-624 | once the hypertable-drop scan fails on a prefix, the whole scan fails with that error |
| ContinuousAgg.DropHypertableCallback | src/continuous_agg.c:600-624 | the callback computes the hypertable-drop scan over the table as of its start; on error the catalog is unchanged |
| ContinuousAgg.DropHypertableVisitRow | src/continuous_agg.c:600-624 | one row of the scan: a continuous aggregate on the hypertable is dropped with its user view; one materialized in it is an error |
| ContinuousAgg.DropHypertableOnMatFails | src/continuous_agg.c:600-624 | dropping a hypertable that materializes a continuous aggregate fails |
| ContinuousAgg.DropHypertableScanCaggs | src/continuous_agg.c:600-624 | a successful scan keeps exactly the continuous aggregates of materializations other than those of the visited rows on the hypertable |
| ContinuousAgg.DropHypertableRemovesRawCaggs | src/continuous_agg.c:600-624 | after a successful hypertable drop, the continuous aggregates left are exactly those not defined on it |
| ContinuousAgg.DropHypertableUnrelated | src/continuous_agg.c:600-624 | a hypertable no continuous aggregate is defined on or materialized in drops without changing the catalog |
| ContinuousAgg.DropInternalView | src/continuous_agg.c:627-646 | the catalog is unchanged, and the drop is refused (dependent objects) exactly when a row of the materialization exists |
| ContinuousAgg.DropViewCallback | src/continuous_agg.c:649-666 | the callback ends in DropViewSpec's tables, or leaves the catalog unchanged on error |
| ContinuousAgg.DropViewOfExistingCagg | src/continuous_agg.c:649-666 | the partial or direct view of a catalogued continuous aggregate cannot be dropped by itself; dropping its user view leaves no row of it |
| PolicyJob.FastRestartStats | tsl/src/bgw_policy/job.c:53-63 | a fast restart sets an existing job-stat row's next start to its last start, or seeds a row due at the transaction start, and changes no other job's row |
| PolicyJob.EnableFastRestart | tsl/src/bgw_policy/job.c:53-63 | a fast restart that would write -infinity fails with an internal error and changes nothing; otherwise the in-place signal leaves FastRestartStats's job-stat table and no other change |
| PolicyJob.SeededRowRefusesFastRestart | tsl/src/bgw_policy/job.c:56-57 | a job whose only statistics row was seeded by an initial start still has a last start of -infinity, so its fast restart is refused |
| PolicyJob.SliceStarts | tsl/src/bgw_policy/job.c:77-79 | one start per slice of the dimension, exactly the starts of its slices |
| PolicyJob.LatestReachedBy | tsl/src/bgw_policy/job.c:77-79 | the answer is the latest candidate reached by at least n starts, and none exactly when no candidate is |
| PolicyJob.NthLatestSliceExists | tsl/src/bgw_policy/job.c:77-83 | the n-th latest slice exists exactly when the dimension has at least n slices, and no later start is reached by n of them |
| PolicyJob.OldestChunk | tsl/src/bgw_policy/job.c:88-92 | the chunk found is eligible and starts no later than any other eligible chunk; there is none exactly when no chunk is eligible |
| PolicyJob.ReorderChoiceRule | tsl/src/bgw_policy/job.c:65-93 | fewer than three slices means no chunk; otherwise the pick is the oldest chunk of the dimension, starting at or before the third-latest slice, neither compressed, dropped nor reordered before; and none is picked only when none qualifies |
| PolicyJob.WindowBoundary | tsl/src/bgw_policy/job.c:95-119 | the boundary is integer-now minus an integer lag for integer types, the transaction start minus an interval for temporal types; a lag of the other kind or a missing integer-now function is an error |
| PolicyJob.CompressChoiceRule | tsl/src/bgw_policy/job.c:121-138 | the compression pick is an uncompressed, undropped chunk of the dimension whose range ends strictly before the boundary; none is picked only when no such chunk exists |
| PolicyJob.CheckValidIndex | tsl/src/bgw_policy/job.c:140-165 | an accepted index exists in the hypertable's schema under the given name and indexes the hypertable's main table; a refusal is an invalid parameter |
| PolicyJob.CheckValidIndexIff | tsl/src/bgw_policy/job.c:140-165 | with unique relation names, the check passes exactly when such an index exists |
| PolicyJob.ReorderReadAndValidate | tsl/src/bgw_policy/job.c:210-230 | an accepted reorder configuration names an existing hypertable, which the policy carries; every refusal is an invalid parameter |
| PolicyJob.ReorderValidateRule | tsl/src/bgw_policy/job.c:210-230 | a missing hypertable or a missing index is refused; the configuration is accepted exactly when the named index is on the hypertable's main table, and the policy carries that index's OID |
| PolicyJob.OpenDimensionFor | tsl/src/bgw_policy/job.c:232-254 | a temporal hypertable uses its own open dimension; an integer one uses the first dimension on its chain that has an integer-now function, and fails with an internal error exactly when there is none |
| PolicyJob.RetentionTarget | tsl/src/bgw_policy/job.c:270-310 | a missing hypertable is "not found"; an integer hypertable without an integer-now function on its chain is an internal error; chunks are dropped from the continuous aggregate's user view for a materialization hypertable, and from the hypertable itself otherwise |
| PolicyJob.RefreshReadAndValidate | tsl/src/bgw_policy/job.c:329-361 | an accepted refresh configuration gives a window whose start is before its end |
| PolicyJob.RefreshWindowFor | tsl/src/bgw_policy/job.c:340-360 | once the hypertable is known, an accepted window starts before it ends |
| PolicyJob.RefreshWindowRule | tsl/src/bgw_policy/job.c:344-360 | with both offsets resolved, the window is refused (invalid parameter) exactly when its start is not before its end; otherwise it is (type, start, end) |
| PolicyJob.RefreshMissingHypertable | tsl/src/bgw_policy/job.c:338-340 | for a configuration naming a missing hypertable, the code as written dereferences NULL and the corrected validator refuses it; on every other input the two agree |
| PolicyJob.RefreshMissingHypertableExample | tsl/src/bgw_policy/job.c:338-340 | an empty catalog with a refresh policy on hypertable 7 reaches the NULL dereference |
| PolicyJob.CompressionReadAndValidate | tsl/src/bgw_policy/job.c:401-414 | an accepted compression configuration names an existing hypertable, which is returned; a missing one is "hypertable not found" |
| PolicyJob.RecordJobRun | tsl/src/bgw_policy/job.c:201-202 | after recording a run the chunk counts as reordered by the job, and the statistics of every other job and chunk are kept |
| PolicyJob.PolicyReorderExecute | tsl/src/bgw_policy/job.c:167-208 | the run ends in ReorderExecuteSpec's tables and returns true, or fails with the validation error or the refused fast restart and changes nothing |
| PolicyJob.ReorderExecuteEffect | tsl/src/bgw_policy/job.c:167-208 | a validation error fails the run; with no eligible chunk it changes nothing; otherwise it appends one reorder of the chosen chunk with the configured index, records the run, keeps the chunks, and requests a fast restart exactly when another chunk is eligible; a fast restart that would write -infinity fails the run instead |
| PolicyJob.ReorderProgress | tsl/src/bgw_policy/job.c:198-204 | the chunk just reordered is not picked again |
| PolicyJob.MarkCompressed | tsl/src/bgw_policy/job.c:379-388 | compression marks the chunk with the id compressed and keeps every other chunk |
| PolicyJob.PolicyCompressionExecute | tsl/src/bgw_policy/job.c:363-399 | the run ends in CompressionExecuteSpec's tables and returns true, or fails (validation, boundary or refused fast restart) and changes nothing |
| PolicyJob.CompressionExecuteEffect | tsl/src/bgw_policy/job.c:363-399 | a validation or boundary error fails the run; with no eligible chunk nothing changes; otherwise exactly the chosen chunk is compressed, and a fast restart is requested exactly when another chunk is eligible afterwards; a fast restart that would write -infinity fails the run instead |
| PolicyJob.PolicyRetentionExecute | tsl/src/bgw_policy/job.c:256-268 | the run ends in RetentionExecuteSpec's tables and returns true, or fails and changes nothing |
| PolicyJob.PolicyRefreshCaggExecute | tsl/src/bgw_policy/job.c:312-327 | the run ends in RefreshExecuteSpec's tables and returns true, or fails and changes nothing |
| PolicyJob.SinglePassPolicies | tsl/src/bgw_policy/job.c:256-327 | retention and refresh each record exactly one storage action (a refresh over a non-empty window) and leave the job statistics alone |
| JobExecution.Backend.StartTransactionCommand | tsl/src/bgw_policy/job.c:459-463 | a transaction is started only when none is open, and the snapshot state is unchanged |
| JobExecution.Backend.PushActiveSnapshot | tsl/src/bgw_policy/job.c:465-470 | a snapshot is pushed only inside a transaction, and is then active |
| JobExecution.Backend.PopActiveSnapshot | tsl/src/bgw_policy/job.c:518-519 | only an active snapshot is popped, and none is active afterwards |
| JobExecution.Backend.CommitTransactionCommand | tsl/src/bgw_policy/job.c:521-522 | a commit needs an open transaction with no active snapshot, and closes it |
| JobExecution.Backend.Call | tsl/src/bgw_policy/job.c:416-444 | calling the procedure needs a transaction and an active snapshot; a procedure that commits leaves no active snapshot |
| JobExecution.JobExecute | tsl/src/bgw_policy/job.c:446-525 | the run's outcome, its events and the final transaction/snapshot state are JobExecuteSpec's, and the framing primitives are only ever called in states PostgreSQL allows |
| JobExecution.Teardown | tsl/src/bgw_policy/job.c:513-522 | the teardown pops only a pushed snapshot the procedure has not removed, and commits only a transaction job_execute started |
| JobExecution.JobExecuteEvents | tsl/src/bgw_policy/job.c:446-525 | a run's events are the setup, then the call when the procedure resolves to a function or procedure, then the teardown after a successful call |
| JobExecution.JobExecuteSetsUp | tsl/src/bgw_policy/job.c:459-470 | a transaction is started exactly when there is none, and a snapshot pushed exactly when none is active |
| JobExecution.JobExecuteRestoresState | tsl/src/bgw_policy/job.c:513-522 | a successful run restores the transaction state, and the snapshot state unless the procedure committed; a pop happens only for a pushed snapshot the procedure left; the run commits exactly when it started a transaction and succeeded, and then as its last step |
| JobExecution.JobExecuteCalleeCommits | tsl/src/bgw_policy/job.c:499-519 | when the procedure commits, no snapshot is popped, and only a procedure can commit; a successful non-committing run pops the snapshot it pushed |
| JobExecution.JobExecuteCall | tsl/src/bgw_policy/job.c:472-511 | an unresolved name or an aggregate/window function fails without a call; otherwise the procedure is called with the job's id and its configuration (null when there is none) |
| JobApi.JobConfigCheck | tsl/src/bgw_policy/job_api.c:32-50 | only the four policy procedures of the internal schema can have a configuration refused |
| JobApi.JobConfigCheckPolicies | tsl/src/bgw_policy/job_api.c:32-50 | each policy procedure accepts exactly the configurations its validator accepts, and refuses a document of another shape |
| JobApi.JobAdd | tsl/src/bgw_policy/job_api.c:61-137 | add_job ends in JobAddSpec's tables and returns the new id, or fails and changes nothing |
| JobApi.JobAddErrors | tsl/src/bgw_policy/job_api.c:80-134 | add_job refuses, in order: a read-only transaction, a null procedure or interval, an unknown procedure, a caller that may not execute it or own a worker, a configuration the policy rejects (with the validator's error), and an initial start of -infinity; past all of these it succeeds |
| JobApi.JobAddInserts | tsl/src/bgw_policy/job_api.c:106-135 | the new job is appended with the next id, as a custom job with the default limits, owned by the caller, scheduled unless asked otherwise; an initial start seeds its next start; nothing else changes |
| JobApi.JobAddKeepsIdsUnique | tsl/src/bgw_policy/job_api.c:117-129 | add_job keeps job ids unique and below the next id |
| JobApi.FindJob | tsl/src/bgw_policy/job_api.c:139-157 | a null id is refused unless missing jobs are allowed; a missing job is "undefined object", or "no job" when allowed; a job found has the id |
| JobApi.FindJobUnique | tsl/src/bgw_policy/job_api.c:139-157 | with unique ids, the job found is the one row with the id |
| JobApi.AddThenFind | tsl/src/bgw_policy/job_api.c:61-157 | the job add_job has added is found under the id it returned, with the interval and configuration given |
| JobApi.AddThenDelete | tsl/src/bgw_policy/job_api.c:61-183 | deleting the job just added restores the job table |
| JobApi.JobDeleteCheck | tsl/src/bgw_policy/job_api.c:162-178 | delete_job refuses a read-only transaction and a null id; otherwise it passes exactly when the job exists and the caller has its owner's privileges, and a missing job is "undefined object" |
| JobApi.JobDelete | tsl/src/bgw_policy/job_api.c:162-183 | after the checks pass the tables are DeleteJob's; after a refusal nothing changes |
| JobApi.JobDeleteEffect | tsl/src/bgw_policy/job_api.c:162-183 | a successful delete_job removes the job and its statistics and keeps every other job and job-stat row |
| JobApi.JobRun | tsl/src/bgw_policy/job_api.c:302-311 | run_job fails on what the lookup refuses without touching the backend, and otherwise is job_execute on the job found: its outcome, its trace and the transaction and snapshot state it leaves |
| JobApi.FirstJobIndex | tsl/src/bgw_policy/job_api.c:270-297 | the scan with a limit of one stops at the first row with the id, and finds none exactly when there is no such row |
| JobApi.FirstJobIndexUnique | tsl/src/bgw_policy/job_api.c:270-297 | with unique ids, that row is the one row with the id |
| JobApi.RecomputedStats | tsl/src/bgw_policy/job_api.c:202-223 | a changed interval moves an existing job-stat row's next start to its last finish plus the new interval; the same interval, or no row, changes nothing |
| JobApi.BgwJobTupleUpdateById | tsl/src/bgw_policy/job_api.c:186-262 | the callback ends in TupleUpdateSpec's tables, or rolls back on a configuration error |
| JobApi.BgwJobUpdateById | tsl/src/bgw_policy/job_api.c:264-297 | the scan ends in UpdateByIdSpec's tables, or rolls back |
| JobApi.JobAlter | tsl/src/bgw_policy/job_api.c:335-405 | alter_job ends in JobAlterSpec's tables and returns its row, or fails and changes nothing |
| JobApi.JobAlterErrors | tsl/src/bgw_policy/job_api.c:348-362 | alter_job refuses, in order: a read-only transaction, a caller that cannot accept a row, a null id, a missing job (or returns no row with if_exists), and a caller without the owner's privileges |
| JobApi.MergeColumns | tsl/src/bgw_policy/job_api.c:364-375 | each non-null argument replaces its column, and every other column is kept |
| JobApi.JobAlterOkShape | tsl/src/bgw_policy/job_api.c:364-401 | a successful alter_job writes the merged row at the job's position, recomputes the next start, upserts an explicit one, and returns the merged row |
| JobApi.JobAlterEffect | tsl/src/bgw_policy/job_api.c:364-401 | a successful alter_job writes exactly the merged columns into the job's row, keeps every other row and table, and returns that row |
| JobApi.JobAlterNextStart | tsl/src/bgw_policy/job_api.c:377-386 | an explicit next start wins; otherwise a changed interval moves it to last finish plus interval; otherwise it is kept; the row reports it, or -infinity without statistics |
| JobApi.JobAlterNoArgs | tsl/src/bgw_policy/job_api.c:335-405 | alter_job with no arguments leaves the catalog as it is and reports the job |
| JobApi.JobAlterRevalidates | tsl/src/bgw_policy/job_api.c:241-251 | the configuration left on the job is validated again: rejected, the call fails with the validator's error; accepted, it succeeds unless an explicit next start of -infinity is refused with an internal error |
| JobApi.JobAlterKeepsConfig | tsl/src/bgw_policy/job_api.c:241-251 | alter_job never removes a job's configuration |

## Left out

- Locks, memory contexts, the catalog security context and the hypertable cache's reference counting are not modelled. They do not change what the code computes.
- The storage layer is represented by the `StorageAction` log and by which chunks are marked. This covers reorder_chunk, compression, drop_chunks, refresh, performDeletion and trigger drops. What these operations do inside the data files is outside the model. Of the catalog rows a cascading drop of a materialization hypertable removes, the model holds and removes its chunks, the slices of its open dimension and the indexes on its tables. Other dependent objects (further dimensions, constraints, chunk triggers) are not part of the model.
- The job's procedure is abstract (`Callee`): whether it commits, and whether it returns or raises. Its effect on the catalog is not modelled.
- JobExecution.JobExecute: a failed run leaves the backend in the state at the error. The transaction abort that follows happens outside job_execute and is not modelled.
- Jobs API preconditions: configuration validation requires well-formed hypertable and continuous-aggregate tables (`ConfigCheckable`). These are database invariants rather than caller obligations. The raw and materialization hypertables of a continuous aggregate existing are foreign keys. No key enforces that a raw hypertable's id is smaller than its materialization's. That order holds because hypertable ids come from a sequence and a materialization hypertable is created after its raw hypertable.
- ContinuousAgg.IntegerNowOnChain: the walk at src/continuous_agg.c:881-893 ends only on an acyclic raw/materialization chain, and the model covers only such chains, which the id order above guarantees. On a cyclic chain the code would loop forever. The code also uses `ts_hypertable_get_by_id`'s result unchecked (lines 883-884). The model requires every hypertable on the chain to exist, which the foreign keys give.
- Configurations are a closed datatype (`JobConfig`). The JSON getters' own errors on a document of the wrong shape become `InvalidParameter`.
- The integer-range check of `subtract_integer_from_now` is not modelled. Neither are the calendar conversions of `subtract_interval_from_now`.
- PolicyJob.WindowBoundary: the code only asserts that an integer-partitioned dimension names an integer-now function. The model makes the missing function an internal error.
- Null refresh offsets are not modelled: both offsets are always given (`Lag`).
- The refresh of a missing continuous aggregate (a NULL `cagg` passed to the refresh) is not modelled.
- The per-chunk statistics (`ts_bgw_policy_chunk_stats_record_job_run`) and the dimension-slice queries are not part of this model. They are modelled from what job.c expects of them: record the run, and find the n-th latest slice and the oldest eligible chunk.
- The bgw/job.c delete (`ts_bgw_job_delete_by_id`) is not part of this model. It is modelled as deleting the job row, its job-stat row and its per-chunk statistics.
- Procedure resolution (`LookupFuncName` with the (integer, jsonb) signature) is reduced to the last procedure with the job's schema and name that takes those arguments. A name that does not resolve is `UndefinedFunction`.
- Privileges are inputs (`Caller`): EXECUTE on the procedure, membership in the owner's role, and the right to own a background worker. `get_role_oid` failing for an owner role that no longer exists is not modelled.
- add_job takes the new id from `nextJobId` instead of the catalog's sequence. So an add_job that fails after its insert, on an initial start of -infinity, gives the id back. A real sequence would keep it consumed.
- The job-stat writers of bgw/job_stat.c are not part of this model. Their refusal of -infinity as a next start (`CatalogModel.NextStartRefused`, an internal error) follows the comment at tsl/src/bgw_policy/job_api.c:215-217, which exempts only the `allow_unset` recompute. The model applies it to the upsert and to `set_next_start`.
- `ts_continuous_agg_with_clause_parse`, `ts_continuous_agg_find_by_rv`, `ts_number_of_continuous_aggs`, `ts_continuous_agg_get_user_view_oid` and the is-*-view-schema helpers are not modelled. They are thin wrappers or parsing code outside the catalog logic.
- Relation lookups by name (views, indexes, triggers) are reduced to membership in the model's `views`, `indexes` and `invalidationTriggers`.
- The refresh finding: the rest of the model uses PolicyJob.RefreshReadAndValidate, which refuses a missing materialization hypertable as an invalid parameter (below).

## Findings

| source | as written | input that shows it | evidently intended | confidence | as-written member | corrected member |
|---|---|---|---|---|---|---|
| tsl/src/bgw_policy/job.c:338-340 | the refresh validator looks the materialization hypertable up with `ts_hypertable_get_by_id` and passes the result to `get_open_dimension_for_hypertable` without checking it for NULL | a refresh configuration whose materialization hypertable id names no hypertable, e.g. id 7 in an empty catalog | refuse the configuration with an invalid-parameter error, as the reorder validator does for its hypertable (job.c:217-220) | not executed | PolicyJob.RefreshReadAndValidateAsWritten (shown by PolicyJob.RefreshMissingHypertable, PolicyJob.RefreshMissingHypertableExample) | PolicyJob.RefreshReadAndValidate |
