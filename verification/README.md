# CMS live replay, reconciliation and deployment: a verified model

This project models the scripts that carry meter events of the CMS energy system from archive
files to the live ledger, and the loaders and operational scripts around them, and proves what
they keep over every input and every run.

- **Replay.** Archive files of dated lines (`SourceRows`) are merged by event time in two ways,
  over open readers and by re-scanning one file at a time (`Merge`, `MergeMeaning`), cut to a
  half-open window and emitted on an event-time clock (`Injector`). A supervisor replays chunk after
  chunk and resumes from the latest committed timestamp, with a crash possible between any two posts
  (`Supervisor`, `Progress`), by a query over event ids (`RunQuery`). Day caches split the archive
  by local day (`DayCache`) and stand in for it (`CacheReplay`, `CacheBuild`), built whole or not
  (`InterruptedBuild`), chunk by chunk and over whole runs (`CachedRun`). `Selection` is the
  meter-balanced choice of files and `Publisher` the same stream through an asynchronous producer.
- **Reconciliation.** `Coverage` scans the source side, `Reconciliation` reads the live side in
  chunks, builds the issues and writes them.
- **Loaders.** `GapLoader` and `GapRun` retry and bisect inserts; `FeatureLoader` retries a grouped
  upsert and splits it by the hour. Every database call may be refused, or be committed and still
  report an error, in any pattern.
- **Thresholds.** `ThresholdFile` is the one-pass validation, `ThresholdOps` build, validate,
  promote and roll back over candidate directories, archives and the deployed file, each step of which the
  file system may cut off.
- **Scheduling and QA.** `PmaxScheduler` selects the P-Max base timestamp and counts failures,
  `ModelServing` is the run it starts, `GapCount` counts gaps.

Times are integers (microseconds since the epoch, UTC), the local offset is a constant, and SQL
timestamps are taken on the same clock. `dafny verify dfyconfig.toml` checks the whole project.

## What the code does, where that is not what one expects

- The supervisor is documented to run until its window is exhausted, but its resume query only sees
  timestamps below `target_end`, so the branch that reports "complete" is unreachable
  (`Supervisor.NeverComplete`). Finishing is therefore stated as the ledger holding every
  eligible row (`Progress.SaturatesIff`).
- With `--day-cache-parent` set, chunks are cut at the local midnight after the resume point while the resume
  point stays at the last committed row, so no run gets past the first local midnight
  (`Progress.DayCachingStopsAtFirstMidnight`).
- `--overwrite` rewrites the cache files that the archive has lines for and leaves the others in the
  directory, where they are replayed (`CacheBuild.StaleFileIsReplayed`; exact condition:
  `CacheReplay.CacheAgreesIff`).
- Cached copies are numbered from the top of each day's file, so source event ids can repeat from day to
  day within one run id (`CacheBuild.CachedIdsRestart`; exact condition: `CacheBuild.SharedEventIdIff`).
- `start_ts` may be pushed into the readers even for unsorted files (`MergeMeaning.StartPushDown`).
- `--skip-event-minute` and `--skip-rollups` are described as skipping a comparison, but the code then
  compares with nothing and reports every source minute or bucket. Together with the alignment of the
  window start this is the exact condition of `Reconciliation.NoFalseAlarmIff`.
- Chunked minute counts lose points when a chunk boundary splits a minute
  (`Reconciliation.ChunkedExactIff`), and a missing stamp stays unreported behind a foreign one
  (`Reconciliation.MinuteReportedIff`).
- The gap loader logs "degraded" although every key is in when a generated key was already stored under a
  target outside the window (`GapRun.SuccessIff`).
- A promotion without `--revalidate` ignores the meter scope it is given (`ThresholdOps.StoredScopeDecides`;
  exact condition: `ThresholdOps.GivenScopeHonouredIff`).
- A rollback copies over the deployed file in place, unlike a promotion, so a copy that is cut off can leave a
  file that never passed (`ThresholdOps.DeployedSoundIff`). A rebuild that stops while it removes the old
  directory can leave a validation without its file (`ThresholdOps.OrphanedIff`).
- A threshold file whose last line is cut short makes validation raise a `TypeError` that nothing catches,
  instead of failing (`ThresholdFile.CutLineRaises`).
- A P-Max run that is killed after its last write leaves evidence, so that its base is never reported as served
  (`ModelServing.EvidenceWithoutSuccess`, `PmaxScheduler.EvidenceIsNeverServed`).
- The supervisor chooses a day directory because it exists, so one that an interrupted build left is replayed without
  the rest (exact condition: `InterruptedBuild.CachedChunkIff`).
- The resume query finds its run by a `LIKE` pattern in which `_` stands for any character and which also matches the
  publisher's ids `run_id:day`, so rows of another run can move the resume point past rows that were never
  posted (`RunQuery.ForeignRowSkips`; exact condition: `RunQuery.OwnRunOnlyIff`).
- A stored validation that passed is not compared with what has been deployed since, so a promotion without
  `--allow-warn` can make a large change (`ThresholdOps.SecondPromotionIsUnwarned`; exact condition:
  `ThresholdOps.UnwarnedPromotionIff`).
- Only the newest window can be served by the P-Max lane, so a partial newest window blocks older complete
  ones (`PmaxScheduler.PartialNewestWindowBlocks`), and a failure limit of zero stops the scheduler after a
  healthy pass (`PmaxScheduler.SchedulerLoop`).

## Model

| member | source | states |
|---|---|---|
| `SourceRows.ReadFromElements` | scripts/live/run_live_stream_injector.py:386-416 | Reading yields exactly the lines that have a timestamp not older than the start and a value column, each under its own line number counted from the header. |
| `SourceRows.ReadingsOfFile` | scripts/live/run_live_stream_injector.py:386-416 | The k-th row read has the time and value of its own line, numbered with the header as 1; the rows come in file order, and no line with a timestamp from the start on and a value column is missing. |
| `SourceRows.ReadAscending` | scripts/live/run_live_stream_injector.py:386-416 | A time-sorted file is read as rows ascending in the merge key. |
| `SourceRows.ReadPushDown` | scripts/live/run_live_stream_injector.py:403-404 | A reader started at t gives what a full reader gives after dropping rows older than t. |
| `Merge.NextSourceRow` | scripts/live/run_live_stream_injector.py:379-383 | A re-scan from the top stops at the first readable row numbered past the given number, or finds none. |
| `Merge.SuccessorFound` | scripts/live/run_live_stream_injector.py:379-383 | Re-reading past a row of a file always lands on the next row of the filtered stream, and past the last one on nothing. |
| `Merge.FillHeap` | scripts/live/run_live_stream_injector.py:365-369 | The heap starts as the first readable row of every file. |
| `Merge.PopLeast` | scripts/live/run_live_stream_injector.py:371-372 | Popping takes the one entry below all others and leaves the rest. |
| `Merge.PopAndRefill` | scripts/live/run_live_stream_injector.py:371-376 | One pop and re-scan is one turn of the iterator merge: the same row leaves and the heap is again the heads of what is left. |
| `Merge.BoundedMerge` | scripts/live/run_live_stream_injector.py:353-376 | The re-scanning merge yields the same sequence as heapq.merge over open readers, for any files, sorted or not. |
| `MergeMeaning.MergeKeepsFileOrder` | scripts/live/run_live_stream_injector.py:353-356 | Picking one file out of the merged stream gives that file back in its own order, for any files. |
| `MergeMeaning.MergePermutes` | scripts/live/run_live_stream_injector.py:353-356 | The merged stream holds every row of every file as often as the files do. |
| `MergeMeaning.MergeAscending` | scripts/live/run_live_stream_injector.py:353-356 | Merging ascending streams gives an ascending stream. |
| `MergeMeaning.MergeIsTheSortedPermutation` | scripts/live/run_live_stream_injector.py:353-376 | For time-sorted files a sequence is the merged stream if and only if it is ascending in (ts, sequence, row number) and a permutation of all rows. |
| `MergeMeaning.StartPushDown` | scripts/live/run_live_stream_injector.py:172-177 | Giving start_ts to the readers equals filtering the merged stream afterwards, for any files, sorted or not. |
| `Injector.Run` | scripts/live/run_live_stream_injector.py:173-206 | The window loop emits the first max_events rows at or after the window start that precede the first row past the end or the duration, and sleeps the sum of the scaled gaps between consecutive emitted rows. |
| `Injector.EmissionByPosition` | scripts/live/run_live_stream_injector.py:173-206 | For any rows, sorted or not: emitted are, in order, the first max_events rows not older than the start (or than the first row, without one) that come before the first such row at or past the end or, with a duration, more than the duration after the start. |
| `Injector.EmissionInOrder` | scripts/live/run_live_stream_injector.py:173-206 | Over time-ordered rows the emission is the first max_events rows with start <= ts, ts < end when there is an end, and ts - start <= duration when there is a duration, the start being the first row without one. |
| `Injector.ReplayDelayScaled` | scripts/live/run_live_stream_injector.py:315-318 | The delay times the scale is the forward gap; a step back in time waits nothing. |
| `Injector.ReplayClockTelescopes` | scripts/live/run_live_stream_injector.py:184-187 | Over time-ordered rows the whole sleep, scaled back, is the time from the first to the last emitted row. |
| `Injector.PushDownEmission` | scripts/live/run_live_stream_injector.py:172-183 | Pushing start_ts into the readers never changes what a run emits, for any files. |
| `Injector.WindowsConcatenate` | scripts/live/run_live_stream_injector.py:176-179 | Replaying [a,b) and then [b,c) of a time-ordered stream is replaying [a,c): nothing lost, nothing repeated. |
| `Injector.ReplayEmitsWindow` | scripts/live/run_live_stream_injector.py:172-183 | For time-sorted files a replay of [lo,hi) emits the first max_events rows of that window of the sorted stream. |
| `Injector.RunIngestReplay` | scripts/stream/ingest_replay.py:175-202 | The variant that reads every row and includes the end timestamp emits what a run with the exclusive end one microsecond later emits. |
| `Injector.IngestInOrder` | scripts/stream/ingest_replay.py:175-202 | Over time-ordered rows the variant emits the first max_events rows from the start to the end, both included, within the duration. |
| `Selection.SelectRound` | scripts/live/run_live_stream_injector.py:273-279 | One pass over the meters takes the next file of each meter that has one, and stops at the limit. |
| `Selection.SelectMeterBalanced` | scripts/live/run_live_stream_injector.py:263-283 | The choice has min(max_files, files) distinct files, a prefix of every meter's list, covers min(max_files, meters) meters, and is max-min fair: a meter two files behind another has no more files. |
| `Supervisor.MidnightBoundsTheDay` | scripts/stream/live_source_supervisor.py:184-193 | From t on, the times before the next local midnight are exactly those of t's own local day. |
| `Supervisor.LocalDayIff` | scripts/stream/live_source_supervisor.py:184-186 | The local day of a time is the one whose 24 hours hold the shifted time. |
| `Supervisor.ChunkEndIff` | scripts/stream/live_source_supervisor.py:196-207 | From its start on, a chunk reaches exactly the times less than the chunk length away, before the target end and, with day caching, on the start's own local day. |
| `Supervisor.ChunkPostsIff` | scripts/stream/live_source_supervisor.py:73-106 | Over time-sorted files an undisturbed chunk from s posts the first max_events rows of the merged stream with s <= ts < s + chunk, ts < target_end and, with day caching, on s's own local day. |
| `Supervisor.ResumePointIff` | scripts/stream/live_source_supervisor.py:124-155 | The resume point is the target start when no post lies in the target window, and otherwise the greatest timestamp of those that do. |
| `Supervisor.LatestEventIsMaximum` | scripts/stream/live_source_supervisor.py:143-155 | The resume query returns the greatest committed timestamp inside the target window, and nothing exactly when there is none. |
| `RunQuery.QueryPattern` | scripts/stream/live_source_supervisor.py:148-152 | For a run id without % and backslash the pattern matches exactly the event ids that start with something that fits the run id, with _ for any character, followed by a colon. |
| `RunQuery.PercentIff` | scripts/stream/live_source_supervisor.py:148-152 | In any pattern % stands for any string. |
| `RunQuery.EscapedIff` | scripts/stream/live_source_supervisor.py:148-152 | Behind a backslash every character stands for itself. |
| `RunQuery.OwnRunOnlyIff` | scripts/stream/live_source_supervisor.py:143-155 | In every ledger of given runs the resume query sees only its own run if and only if no other run id collides with its own. |
| `RunQuery.PublisherRunCollides` | scripts/stream/backfill_source_publisher.py:96-97 | The publisher's run id for a day collides with the plain run id that it extends. |
| `RunQuery.UnderscoreCollides` | scripts/stream/live_source_supervisor.py:44 | A run id that differs from this one only in the place of an underscore collides with it. |
| `RunQuery.ForeignRowSkips` | scripts/stream/live_source_supervisor.py:124-132 | Once the query sees an eligible row of another run, the chunk posts none of the rows before it. |
| `Supervisor.NeverComplete` | scripts/stream/live_source_supervisor.py:79-81 | Whatever the ledger holds, the resume point lies in [target_start, target_end), so the test that would end the loop never succeeds. |
| `Supervisor.ChunkEndBounds` | scripts/stream/live_source_supervisor.py:196-207 | A chunk ends after it starts and not after the target end. |
| `Supervisor.LedgerSession.RunChunk` | scripts/stream/live_source_supervisor.py:73-106 | One turn over the archive, sorted files or not, merges, cuts and replays the chunk from the resume point and leaves in the ledger what it held plus the posts made before the crash, if there is one. |
| `Supervisor.LedgerSession.RunSupervisor` | scripts/stream/live_source_supervisor.py:69-121 | The loop, crashed anywhere any number of times, leaves the ledger of the specified run, for time-sorted files that of the run over the merged rows, and never returns "complete". |
| `Supervisor.FrontierResume` | scripts/stream/live_source_supervisor.py:124-132 | When the ledger holds the eligible rows up to some position, the resume point is the timestamp of the last of them. |
| `Supervisor.ChunkMovesFrontier` | scripts/stream/live_source_supervisor.py:82-106 | A chunk, cut anywhere or not, leaves a ledger without holes that reaches at least as far. |
| `Supervisor.LedgerIsGapFreePrefix` | scripts/stream/live_source_supervisor.py:69-132 | Over every run of chunks, event caps and crashes the committed rows are exactly the eligible rows up to one position of the sorted stream. |
| `Supervisor.ResumeSkipsNothing` | scripts/stream/live_source_supervisor.py:124-132 | In every run each eligible row stamped before the resume point is committed, and only eligible rows are. |
| `Supervisor.OnlyTheBoundaryRepeats` | scripts/stream/live_source_supervisor.py:130-132 | In every run the next chunk posts again only rows stamped exactly at the resume point. |
| `Progress.ChunkAdvancesIff` | scripts/stream/live_source_supervisor.py:73-106 | In every run a completed chunk advances the resume point if and only if an eligible row lies strictly between it and the chunk end and fewer than max_events rows share its timestamp. |
| `Progress.FlowSaturates` | scripts/stream/live_source_supervisor.py:72-121 | If every resume point passes, any run with as many completed chunks as eligible rows has committed them all, whatever crashes fall in between. |
| `Progress.EligibleCountIsSize` | scripts/stream/live_source_supervisor.py:72-121 | That bound is the number of rows in the target window. |
| `Progress.BlockedRowNeverCommitted` | scripts/stream/live_source_supervisor.py:72-121 | If one resume point does not pass, no run, however long, commits every eligible row. |
| `Progress.SaturatesIff` | scripts/stream/live_source_supervisor.py:72-121 | All sufficiently long runs commit everything if and only if at every resume point the rows of that timestamp fit under the cap and, when eligible rows follow, one of them is inside the chunk and the cap is not used up. |
| `Progress.ArchiveRunSaturatesIff` | scripts/stream/live_source_supervisor.py:72-121 | The same equivalence for an archive of time-sorted files. |
| `Progress.ShortGapsFlow` | scripts/stream/live_source_supervisor.py:196-207 | With day caching off, source gaps shorter than the chunk and timestamps shared by fewer than max_events rows make every resume point pass. |
| `Progress.DayCachingStopsAtFirstMidnight` | scripts/stream/live_source_supervisor.py:205-207 | With day caching on, no run ever commits a row stamped at or after the first local midnight past target_start. |
| `Progress.DayCachingNeverFinishes` | scripts/stream/live_source_supervisor.py:205-207 | With day caching on, a target window with an eligible row past the first local midnight is never finished by any run. |
| `DayCache.CacheParent.WriteLine` | scripts/stream/live_source_day_cache.py:77-91 | A line of the range goes to the end of its day's file, which is opened first and truncated if it may be; an existing file is left alone without overwrite. |
| `DayCache.CacheParent.SplitFile` | scripts/stream/live_source_day_cache.py:58-94 | After one source file, each cache file of its path in the day range holds that day's dated lines in order, up to the first line past the range, and every other file is untouched. |
| `DayCache.CacheParent.BuildDayCaches` | scripts/stream/live_source_day_cache.py:43-94 | After a build every cache file is what the per-file rule makes of it, file after file. |
| `DayCache.ExistingFileKept` | scripts/stream/live_source_day_cache.py:79-84 | A build without overwrite leaves every existing cache file as it is. |
| `DayCache.OutsideRangeKept` | scripts/stream/live_source_day_cache.py:66-76 | No build touches a day outside its range or a path that the archive does not have. |
| `CacheReplay.CopyIsReplayed` | scripts/stream/live_source_day_cache.py:66-91 | Every archive row of a window inside one local day is replayed from that day's cache as its copy. |
| `CacheReplay.CopiesAscending` | scripts/stream/live_source_day_cache.py:66-91 | Dropping files and renumbering lines keeps the relative order of the rows of a window. |
| `CacheReplay.LeftoverIsNoCopy` | scripts/stream/live_source_day_cache.py:79-84 | A reading of a file left over from an earlier build is replayed and is no archive row's copy. |
| `CacheReplay.CacheAgreesIff` | scripts/stream/live_source_supervisor.py:174-181 | For time-sorted files the window replayed from the day cache is the archive's window, copy for copy in the same order, if and only if no leftover file holds a reading of the window. |
| `CacheBuild.BreakLosesNothing` | scripts/stream/live_source_day_cache.py:73-76 | For a time-sorted file, stopping at the first line past the range loses no line of a day in range. |
| `CacheBuild.BuildGivesCacheRoot` | scripts/stream/live_source_day_cache.py:56-91 | After an overwriting build the directory of a day in range holds the day's lines of every archive file that has any, and apart from these only what it held before. |
| `CacheBuild.ChunkFromCacheIsChunkFromArchive` | scripts/stream/live_source_supervisor.py:174-207 | A supervisor chunk replayed from the cache of its start's local day posts the archive's rows of the chunk, in the archive's order and up to the event cap, under the line numbers of their copies. |
| `InterruptedBuild.SplitChunkIff` | scripts/stream/live_source_day_cache.py:56-94 | A chunk from the part of the archive that a build got through posts what the archive posts if and only if every row of the archive's chunk is in that part. |
| `InterruptedBuild.CachedChunkIff` | scripts/stream/live_source_supervisor.py:174-207 | Replayed from the directory of its day, wherever the build of that directory stopped, a chunk posts the archive's readings in the archive's order if and only if every row of the archive's chunk was split, when no leftover file has a reading in it. |
| `InterruptedBuild.ChosenRootPostsTheChunk` | scripts/stream/live_source_supervisor.py:174-181 | Whichever root is chosen, a chunk inside a window of which every reading was split and no leftover file holds any posts the same readings in the same order, up to line numbers. |
| `CachedRun.CachedSession.RunChunk` | scripts/stream/live_source_supervisor.py:73-106 | One turn posts, up to the crash if there is one, what a replay of the directory of the start's local day posts when day caching is on and that directory exists, and what a replay of the archive posts otherwise, rows with path and line number. |
| `CachedRun.RunUsesFirstDayOnly` | scripts/stream/live_source_supervisor.py:69-207 | A whole run, over any files and however it crashes, is the run over one root: the directory of the local day the target starts on when day caching is on and it exists, and the archive otherwise. |
| `CachedRun.ServedChunkPostsCopies` | scripts/stream/live_source_supervisor.py:174-181 | With the start's day served from its directory, the next chunk posts, event for event, the copies of the archive's rows of the chunk, under the line numbers of the copies. |
| `CachedRun.LeftoverIsPosted` | scripts/stream/live_source_supervisor.py:174-181 | A chunk from a directory that is not cut short posts each reading of a leftover file in the chunk, under its own path and line number, and no archive row has that copy. |
| `CachedRun.CachedSession.RunSupervisor` | scripts/stream/live_source_supervisor.py:69-121 | The loop with that choice, crashed anywhere any number of times, leaves the ledger of the specified cached run and never returns "complete". |
| `CachedRun.CachedRunIsArchiveRun` | scripts/stream/live_source_supervisor.py:69-121 | Over every run of chunks and crashes, choosing cache or archive for each chunk leaves, post for post and up to line numbers, the ledger of a run over the archive, if the directory of the first local day, where there is one, has every reading of the window split and no leftover one. |
| `CachedRun.CachedResumeSkipsNothing` | scripts/stream/live_source_supervisor.py:124-132 | In every such run each eligible archive row stamped before the resume point has its post in the ledger, and the ledger holds nothing else. |
| `CacheBuild.FreshDayHasNoLeftovers` | scripts/stream/live_source_day_cache.py:77-87 | A day that held nothing before the build has nothing left over. |
| `CacheBuild.StaleFileIsReplayed` | scripts/stream/live_source_day_cache.py:79-84 | A concrete rebuild with overwrite after which a file the archive no longer has is still replayed. |
| `CacheBuild.CachedIdsRestart` | scripts/live/run_live_stream_injector.py:472-479 | The first cached readings of one file on two days have the same source event id and different timestamps. |
| `CacheBuild.SharedEventIdIff` | scripts/live/run_live_stream_injector.py:472-479 | The copies of one file in two days' caches share a source event id if and only if some line number carries a reading in both, and copies that share one have different timestamps. |
| `Publisher.PublishRun.OnDelivery` | scripts/stream/backfill_source_publisher.py:120-125 | A callback takes the answered message, and no other, out of flight, and books it as acknowledged or as an error as the broker's answer says. |
| `Publisher.PublishRun.Produce` | scripts/stream/backfill_source_publisher.py:150-156 | Through any number of full-queue retries and polls, every emitted row is acknowledged, failed or in flight, and only one of these. |
| `Publisher.PublishRun.PublishRow` | scripts/stream/backfill_source_publisher.py:136-160 | An invalid row is counted and not emitted; a valid one is emitted and, at runtime, produced, keeping the balance. |
| `Publisher.PublishRun.Publish` | scripts/stream/backfill_source_publisher.py:133-165 | Emitted rows are the valid rows ahead of the end up to the cap; exit code 0 holds exactly without invalid rows, failed deliveries or messages in flight, and then every row ahead of the end, up to the cap, was valid and, at runtime, acknowledged as often as emitted. |
| `Publisher.PublishRun.PublishArchive` | scripts/stream/backfill_source_publisher.py:100-196 | Over time-sorted files, exit code 0 means the rows of [start, end) up to the cap were all valid and, at runtime, each acknowledged exactly once. |
| `Coverage.FloorIsLastBoundary` | scripts/ops/coverage_worker.py:125-134 | Flooring gives the last boundary of the resolution at or before the time, at all three resolutions. |
| `Coverage.BucketIff` | scripts/ops/coverage_worker.py:125-134 | A time is floored to the whole minute, quarter hour or hour that it falls in. |
| `Coverage.SourceCoverage.ScanFile` | scripts/ops/coverage_worker.py:192-212 | A file contributes its stamped lines of the window up to the first stamp that does not parse, which also makes it a bad file. |
| `Coverage.SourceCoverage.Scan` | scripts/ops/coverage_worker.py:187-213 | The scan holds the keys of all files as far as readable, with their minute, quarter-hour and hour buckets, and counts a file as bad or as read. |
| `Reconciliation.EventMinuteCounts` | scripts/ops/coverage_worker.py:58-62 | The counts are the numbers of distinct stamps per minute, meter and measurement. |
| `Reconciliation.FetchEventMinuteCounts` | scripts/ops/coverage_worker.py:274-293 | The chunk loop returns, per minute, the count of the last chunk that returned the minute, and raises exactly for a chunk length that is not positive. |
| `Reconciliation.FetchRollupKeys` | scripts/ops/coverage_worker.py:296-317 | Chunked reading of a rollup table returns exactly its keys in the window, whatever the chunk length. |
| `Reconciliation.ChunkedNeverExceeds` | scripts/ops/coverage_worker.py:274-293 | A chunked minute count never exceeds the count of one read of the window. |
| `Reconciliation.ChunkedExactIff` | scripts/ops/coverage_worker.py:263-293 | Chunked counts equal those of one read for every ledger if and only if the window starts on a whole minute or fits in one chunk. |
| `Reconciliation.EventMinuteIssues` | scripts/ops/coverage_worker.py:336-351 | Each under-counted minute is reported once with missing = expected - actual, and no other minute is. |
| `Reconciliation.RollupIssues` | scripts/ops/coverage_worker.py:352-366 | Each source bucket absent from the read keys is reported once, and no other bucket is. |
| `Reconciliation.BuildCoverageIssues` | scripts/ops/coverage_worker.py:320-367 | The issues are exactly the under-counted minutes and the missing keys of the three resolutions, without two issues for one coverage key. |
| `Reconciliation.Reconcile` | scripts/ops/coverage_worker.py:430-467 | A run reports exactly the issues against what it read, and raises exactly for an empty window or a chunk length that is not positive in a read it makes. |
| `Reconciliation.EveryGapIsReported` | scripts/ops/coverage_worker.py:320-367 | Whatever the alignment, a minute with fewer stamps in the ledger than in the source and a bucket absent from its table are reported. |
| `Reconciliation.NoFalseAlarmIff` | scripts/ops/coverage_worker.py:430-467 | No source and no live side that holds it ever gives an issue, if and only if neither comparison is skipped and the window starts on a whole hour. |
| `Reconciliation.CountsHideShiftedStamps` | scripts/ops/coverage_worker.py:336-338 | A concrete pair of sides without a common stamp that have equal minute counts. |
| `Reconciliation.MinuteReportedIff` | scripts/ops/coverage_worker.py:336-351 | A minute is reported if and only if fewer foreign stamps were read for it than source stamps were not read; a missing stamp stays hidden exactly behind as many foreign ones. |
| `Reconciliation.WholeMinutesRead` | scripts/ops/coverage_worker.py:263-293 | With a start on a whole minute or one chunk, the stamps read for a minute are all its ledger stamps of the window. |
| `Reconciliation.LiveIssueTable.InsertLiveIssues` | scripts/ops/coverage_worker.py:370-401 | One transaction inserts each issue unless its coverage key is in the table, or nothing at all when a statement or the commit fails; attempted = inserted + skipped, and the table grows by the inserted ones. |
| `Reconciliation.InsertCovers` | scripts/ops/coverage_worker.py:389-399 | After a write the table has the coverage keys it had and those of the issues, keeps its rows in place and gains no duplicate key. |
| `Reconciliation.InsertedRows` | scripts/ops/coverage_worker.py:389-399 | After a write come, behind the rows of before and in their order, exactly the issues that are the first of a coverage key the table did not have, each unchanged. |
| `Reconciliation.InsertAgainDoesNothing` | scripts/ops/coverage_worker.py:389-399 | Writing issues whose keys are in the table inserts nothing. |
| `GapLoader.InsertAllMeaning` | scripts/database/load_anomaly_warnings_gap_unique.py:128-142 | An insert adds the absent keys, each with a row of the payload, and changes no row that was there. |
| `GapLoader.WarningDatabase.InsertPayload` | scripts/database/load_anomaly_warnings_gap_unique.py:123-144 | One call is one transaction: in, refused, or in and reported as an error; an empty payload makes no call. |
| `GapLoader.WarningDatabase.InsertBatch` | scripts/database/load_anomaly_warnings_gap_unique.py:147-157 | For every failure pattern a return means the table is the old one with the whole batch inserted and the result is its length; a raise leaves a prefix of the batch inserted and follows four failed calls in a row; n >= 1 rows cost at most 7n-3 calls. |
| `GapRun.QueuedMeaning` | scripts/database/load_anomaly_warnings_gap_unique.py:231-243 | The queue has each generated key that was not known exactly once. |
| `GapRun.QueueByPosition` | scripts/database/load_anomaly_warnings_gap_unique.py:63-81 | The queue has, in reading order, exactly the rows with origin < cutoff and start <= target < cutoff whose key is neither known nor carried by an earlier such row. |
| `GapRun.FlattenInOrder` | scripts/database/load_anomaly_warnings_gap_unique.py:231-233 | The prediction files are read one after the other. |
| `GapRun.FlaggedCount` | scripts/database/load_anomaly_warnings_gap_unique.py:240-241 | The reported warnings are the number of queued rows that are flagged. |
| `GapRun.GapLoaderRun.Flush` | scripts/database/load_anomaly_warnings_gap_unique.py:245-249 | A flush inserts the pending batch after what was sent; if it raises, a prefix of the queue is in. |
| `GapRun.GapLoaderRun.ProcessRow` | scripts/database/load_anomaly_warnings_gap_unique.py:233-249 | A row is queued if it is generated for the window and its key is unseen, and a full batch is flushed. |
| `GapRun.GapLoaderRun.LoadGaps` | scripts/database/load_anomaly_warnings_gap_unique.py:218-258 | A finished run has inserted the whole queue, for any batch size, reports the expected, queued, attempted, warning, final and meter counts, and is a success if and only if no generated key was already in the table under a target outside the window; a raised run has inserted a prefix of the queue. |
| `GapRun.FinishedKeys` | scripts/database/load_anomaly_warnings_gap_unique.py:218-255 | A finished run's key set is the existing keys and the generated ones. |
| `GapRun.SuccessIff` | scripts/database/load_anomaly_warnings_gap_unique.py:175-176 | The final count equals the expected count if and only if no generated key was already in the table under a target outside the window. |
| `GapRun.StoredOutsideIsDegraded` | scripts/database/load_anomaly_warnings_gap_unique.py:175-176 | A run over one row whose key is stored under a target past the window is not a success, although the key is in. |
| `FeatureLoader.WindowKeepsGroup` | scripts/database/load_anomaly_features_split.py:61-65 | Any window around a timestamp selects all rows of a (timestamp, meter) group. |
| `FeatureLoader.UpsertsMeaning` | scripts/database/load_anomaly_features_split.py:41-111 | A window writes a row for exactly the keys in it with a P value and either a U1 value or both a qv and a Tdiff value; each of its values is the greatest non-null one of its own measurement in the group, or null when there is none, U1 decides the feature set, the sources are the group's rows, and the quality is good. |
| `FeatureLoader.UpsertsCount` | scripts/database/load_anomaly_features_split.py:110-111 | The rows returned are as many as the keys that are due. |
| `FeatureLoader.UpsertsSplit` | scripts/database/load_anomaly_features_split.py:41-117 | The upserts of two adjacent windows are, in content and in number, the upsert of the window they make up. |
| `FeatureLoader.FeatureDatabase.ExecuteWindow` | scripts/database/load_anomaly_features_split.py:129-135 | One call is one transaction of the grouped upsert: in, refused, or in and reported as an error; when it is in, every key that is due has the row that the reference rows of its group call for and every other key is as before. |
| `FeatureLoader.FeatureDatabase.InsertWindow` | scripts/database/load_anomaly_features_split.py:126-147 | Whatever calls fail, a return leaves the table as after one upsert of the whole window and returns that upsert's row count; a raise leaves the window upserted up to some cut and follows three failed calls in a row. The first commit of three returns; after that a window of at most an hour raises and a longer one takes one to three more calls an hour. |
| `FeatureLoader.FeatureDatabase.InsertByHour` | scripts/database/load_anomaly_features_split.py:139-146 | The hour pieces, after attempts on the whole that may have committed, add up to one upsert of the window. |
| `FeatureLoader.FeatureDatabase.LoadRange` | scripts/database/load_anomaly_features_split.py:151-159 | The day windows of a range add up to one upsert of the range and its row count, and so to the due rows of the reference table, with 1 to 75 calls a day; a raise leaves the range upserted up to some cut. |
| `ThresholdFile.CheckRow` | scripts/serving/anomaly_threshold_ops.py:331-357 | A row with a readable hour raises exactly when a cell that is read is missing from its line, and otherwise adds no error exactly when its pair is expected and new and its values are sound. |
| `ThresholdFile.RaisesAtFirstBadCell` | scripts/serving/anomaly_threshold_ops.py:326-361 | Of hour, p_lower, p_upper and n_samples in this order, checking a row raises exactly if the first that does not parse is absent. |
| `ThresholdFile.CheckRows` | scripts/serving/anomaly_threshold_ops.py:307-366 | The one pass raises exactly at a missing cell that is read, and otherwise finds no error if and only if the rows list every (meter, hour 0..23) exactly once with finite p_lower <= p_upper and integer sample counts. |
| `ThresholdFile.WellFormedIff` | scripts/serving/anomaly_threshold_ops.py:316-366 | A file has no error exactly if it has one row for every meter and each hour from 0 to 23, no others, with finite p_lower <= p_upper and whole sample counts. |
| `ThresholdFile.WellFormedSize` | scripts/serving/anomaly_threshold_ops.py:316-317 | A file without errors has 24 rows per meter. |
| `ThresholdFile.CountLargeChanges` | scripts/serving/anomaly_threshold_ops.py:368-390 | A change is counted exactly when some upper bound moved from a finite deployed one by more than the ratio relative to it, or to infinity. |
| `ThresholdFile.LargeChangeIff` | scripts/serving/anomaly_threshold_ops.py:370-390 | A row counts exactly if its upper bound is infinite or outside the band around the finite one of the last deployed row of its meter and hour, the hour in digits: the ratio wide on both sides where the deployed bound lies in [-1, 1], and the ratio times its size elsewhere. |
| `ThresholdFile.LargeChangeScales` | scripts/serving/anomaly_threshold_ops.py:384-387 | The change is relative: with a deployed bound of at least 1 in size, multiplying both bounds by a factor of at least 1 changes no answer. |
| `ThresholdFile.ValidateFile` | scripts/serving/anomaly_threshold_ops.py:300-409 | Validation raises exactly when a file is absent, has another header or is cut short before a cell that is read, or when the deployed one has another header or a line without an hour; it fails exactly the files that are not well-formed, and warns exactly on low samples or large changes. |
| `ThresholdFile.VerdictIff` | scripts/serving/anomaly_threshold_ops.py:393-394 | The verdict is fail exactly for a file that is not well-formed, and pass exactly for a well-formed one whose rows all have enough samples, are not flagged and stay inside the band around the deployed bound. |
| `ThresholdFile.CutLineRaises` | scripts/serving/anomaly_threshold_ops.py:325-329 | A last line cut off after its meter makes validation raise, however good the rest is. |
| `ThresholdOps.ThresholdFiles.BuildCandidate` | scripts/serving/anomaly_threshold_ops.py:184-294 | A build touches its own candidate directory only; once the old directory is removed its validation is gone however the build ends, and a removal that stops in between leaves some of the old files. |
| `ThresholdOps.ThresholdFiles.ValidateCandidate` | scripts/serving/anomaly_threshold_ops.py:412-424 | Validation stores a verdict about the current file and the scope asked for, raises and stores nothing, or leaves an unreadable validation when its write is cut off. |
| `ThresholdOps.ThresholdFiles.DeployCandidate` | scripts/serving/anomaly_threshold_ops.py:450-484 | A promotion on record has what was deployed in its own new archive and the candidate's file in place; without one the deployed file is as it was, unless the restoring copy after a failed replacement is cut off. |
| `ThresholdOps.ThresholdFiles.PromoteCandidate` | scripts/serving/anomaly_threshold_ops.py:427-484 | A promotion goes by the stored validation unless there is none or it revalidates, and refuses an unreadable, a failed and, without leave, a warned one. |
| `ThresholdOps.ThresholdFiles.RollBack` | scripts/serving/anomaly_threshold_ops.py:487-514 | A rollback copies the backup file over the deployed one if it validates for the scope asked for and changes nothing otherwise; a copy that is cut off leaves what it leaves. |
| `ThresholdOps.BuildIff` | scripts/serving/anomaly_threshold_ops.py:184-294 | A build succeeds exactly if the directory was free, or could be removed whole and by leave, and the file was written to its end. |
| `ThresholdOps.ValidationIff` | scripts/serving/anomaly_threshold_ops.py:412-424 | A validation succeeds exactly if both files can be read and the record is written to its end, and then records the verdict for the scope's meters against the deployed file. |
| `ThresholdOps.DecisionIff` | scripts/serving/anomaly_threshold_ops.py:434-444 | A promotion goes by the stored validation unless there is none or it is told to revalidate, and then by one of the candidate's file against the deployed one for the scope it is given. |
| `ThresholdOps.PromotionIff` | scripts/serving/anomaly_threshold_ops.py:427-484 | A promotion succeeds exactly if it is confirmed, its validation passed or only warned by leave, the archive is new and no file operation fails, and then the candidate's file is deployed. |
| `ThresholdOps.RollbackIff` | scripts/serving/anomaly_threshold_ops.py:487-504 | A rollback is accepted exactly if it is confirmed and the backup is readable and well-formed for the scope's meters, warned or not. |
| `ThresholdOps.EverySequenceIsSafe` | scripts/serving/anomaly_threshold_ops.py:184-514 | After every sequence of operations, cut off anywhere: a stored validation says what its checks say of its content against what was deployed at the time, and is about the candidate's file when there is one; every promotion's archive holds what it replaced and is its own. |
| `ThresholdOps.DeployedSoundIff` | scripts/serving/anomaly_threshold_ops.py:450-504 | After every sequence of operations, cut off anywhere, the deployed file is the initial one or passes for some scope, if and only if every copy over it that was cut off and left a bad file was followed by a good one. |
| `ThresholdOps.CutOffRollbackSpoils` | scripts/serving/anomaly_threshold_ops.py:503-504 | A concrete rollback that is cut off and leaves a deployed file that neither passes nor is the initial one. |
| `ThresholdOps.OrphanedIff` | scripts/serving/anomaly_threshold_ops.py:190-192 | After every sequence of operations, cut off anywhere, a stored validation describes a file that is gone if and only if a build stopped between the two while removing them and no later build got past that validation. |
| `ThresholdOps.StoppedRemovalOrphans` | scripts/serving/anomaly_threshold_ops.py:190-192 | A concrete build, validation and interrupted rebuild that leave such a validation. |
| `ThresholdOps.RollbackRestores` | scripts/serving/anomaly_threshold_ops.py:487-504 | After every sequence of operations, rolling back to the archive of the k-th promotion is accepted if and only if something was deployed before it that is well-formed for the scope asked for, and then restores exactly that unless its copy is cut off. |
| `ThresholdOps.RollbackUndoesPromotion` | scripts/serving/anomaly_threshold_ops.py:450-504 | A rollback to the archive of a promotion just made brings back the file deployed before it. |
| `ThresholdOps.StoredScopeDecides` | scripts/serving/anomaly_threshold_ops.py:434-444 | With a stored validation and no revalidation the scope given to a promotion has no effect. |
| `ThresholdOps.GivenScopeHonouredIff` | scripts/serving/anomaly_threshold_ops.py:434-448 | What a promotion deploys passes for the scope it was given if and only if it validated the file itself or the stored validation was for the same meters. |
| `ThresholdOps.PromotedOutsideGivenScope` | scripts/serving/anomaly_threshold_ops.py:434-448 | A file that lists the training meters but not all meters, once validated for the training scope, is deployed by a promotion that asks for all meters. |
| `ThresholdOps.UnwarnedPromotionIff` | scripts/serving/anomaly_threshold_ops.py:434-448 | What a promotion without --allow-warn deploys has no large change against what it replaces if and only if validating it again at that point would pass; it has none when its validation was made against what it replaces. |
| `ThresholdOps.DeployedUntouched` | scripts/serving/anomaly_threshold_ops.py:412-504 | Commands that put no whole file in place and cut no copy off leave what is deployed. |
| `ThresholdOps.StalePassPromotes` | scripts/serving/anomaly_threshold_ops.py:434-448 | A stored pass promotes its file without leave whatever has been deployed since. |
| `ThresholdOps.SecondPromotionIsUnwarned` | scripts/serving/anomaly_threshold_ops.py:434-448 | Of two candidates validated while nothing was deployed, the second replaces the first without leave, however large the change. |
| `PmaxScheduler.BuildCoverage` | scripts/serving/operational_scheduler.py:704-706 | The coverage dictionary holds exactly the meter and measurement pairs read for each window. |
| `PmaxScheduler.Candidates` | scripts/serving/operational_scheduler.py:708-719 | The candidates are the bases after the complete windows and after the windows in which some meter is complete. |
| `PmaxScheduler.AnyMeterCompleteIff` | scripts/serving/operational_scheduler.py:715-719 | A window is partly complete exactly if some meter has P, U1 and PF in it. |
| `PmaxScheduler.SelectPmaxBase` | scripts/serving/operational_scheduler.py:634-740 | The two scans return nothing but the newest window + 15 min, and return it if and only if some meter has all three measurements in all 288 windows and the base has no evidence. |
| `PmaxScheduler.HistoryIff` | scripts/serving/operational_scheduler.py:721-736 | A meter has the history of a base exactly if every quarter hour of the three days before the base has its P, U1 and PF. |
| `PmaxScheduler.BaseOfPass` | scripts/serving/operational_scheduler.py:650-655 | The base of a pass is the reference end or the quarter hour after the newest live window, whichever is later, and the query reads the windows of the three days before it. |
| `ModelServing.WriteBatch` | src/cms/data/model_serving_sink.py:153-174 | The tables are written one transaction after the other, empty ones skipped, until one is not answered with a commit. |
| `ModelServing.EvidenceIff` | src/cms/data/model_serving_sink.py:112-174 | Evidence is written last: the run's own row, with four predictions a feature vector, is in exactly if the run writes, no other table that it has rows for fails and the evidence itself is not refused. |
| `ModelServing.SuccessIff` | scripts/serving/model_serving.py:159-411 | A run reports success exactly if no gate stops it, it lives to report, and, told to write, it may and every table it has rows for is committed. |
| `ModelServing.RunModelServing` | scripts/serving/model_serving.py:159-411 | A run that writes and makes P-Max predictions succeeds only with counting evidence for its base. |
| `ModelServing.SuccessLeavesEvidence` | scripts/serving/model_serving.py:363-411 | Such a run also touches the evidence of no other base and takes none away, wherever it stops. |
| `ModelServing.SuccessMeansEvidenceIff` | scripts/serving/model_serving.py:381 | Success means evidence, for whatever a run meets, if and only if it is told to write and not to skip P-Max. |
| `ModelServing.EvidenceWithoutSuccess` | scripts/serving/model_serving.py:375-411 | A run that dies after its last write leaves evidence for a base that its caller does not learn of. |
| `PmaxScheduler.ServedBasesIncrease` | scripts/serving/operational_scheduler.py:496-537 | Over all passes of the P-Max and anomaly lanes, whatever their runs meet, no base is served twice, and while the newest window does not recede the served bases strictly increase. |
| `PmaxScheduler.ServedIff` | scripts/serving/operational_scheduler.py:496-537 | Over all passes a base is served exactly if some P-Max pass has it as its newest base with a history and, at that time, no evidence, and its run succeeds. |
| `PmaxScheduler.PassesInOrder` | scripts/serving/operational_scheduler.py:178-241 | The passes take effect one after the other. |
| `PmaxScheduler.EvidenceIsNeverServed` | scripts/serving/operational_scheduler.py:759-774 | A base that has evidence, from a run that died unreported for example, is never served. |
| `PmaxScheduler.PartialNewestWindowBlocks` | scripts/serving/operational_scheduler.py:721-740 | A newest window in which no meter is complete blocks serving, however complete the earlier windows are. |
| `PmaxScheduler.RunPmaxServing` | scripts/serving/operational_scheduler.py:496-547 | A pass runs the selected base and counts it as served if the run succeeds, or leaves everything as it was when none is selected. |
| `PmaxScheduler.PmaxRunServes` | scripts/serving/operational_scheduler.py:496-547 | A pass over a base with a history and without evidence, whose run goes well, serves the base and leaves its evidence row. |
| `PmaxScheduler.AnomalyRunLeavesRow` | scripts/serving/operational_scheduler.py:550-589 | An anomaly run that goes well leaves an evidence row without predictions, which changes nothing for the P-Max lane. |
| `PmaxScheduler.SchedulerLoop` | scripts/serving/operational_scheduler.py:178-241 | Alone, the scheduler exits after one pass with 0, 2 or 3; looping, with 3 after the first pass that ends max_failures failed passes in a row, which for a limit of zero or less is the first pass, failed or not. |
| `GapCount.CountGaps` | scripts/live/run_live_qa_latency_smoke.py:660-669 | The count is the sum of the rounded jumps over the sorted stamps, never negative; an interval of zero raises exactly when two stamps differ. |
| `GapCount.RoundIsNearest` | scripts/live/run_live_qa_latency_smoke.py:668 | The rounded quotient is the nearest whole number of intervals and, half-way, the even one. |
| `GapCount.PairGap` | scripts/live/run_live_qa_latency_smoke.py:665-668 | Two stamps more than an interval apart count the rounded number of intervals between them less one, and two that are not count nothing. |
| `GapCount.GapsAddUp` | scripts/live/run_live_qa_latency_smoke.py:665-668 | Cutting sorted stamps at any one of them, which ends one part and starts the other, splits the sum. |
| `GapCount.SortedPermutation` | scripts/live/run_live_qa_latency_smoke.py:661 | The stamps are taken in sorted order, each as often as it arrived. |
| `GapCount.GapsOnGrid` | scripts/live/run_live_qa_latency_smoke.py:660-669 | For stamps on a grid, in any order and repetition, the count is the number of grid points from the first to the last stamp minus the number of distinct stamps. |
| `GapCount.DroppedPointsReported` | scripts/live/run_live_qa_latency_smoke.py:660-669 | Dropping k interior points from a full grid reports exactly k. |
| `GapCount.NegativeIntervalCountsNothing` | scripts/live/run_live_qa_latency_smoke.py:664-669 | Against a negative interval no gap is ever counted. |

## Left out

- Supervisor.LedgerIsGapFreePrefix: is about time-ordered rows, because resuming from a maximum timestamp promises nothing for others; every accepted post is taken to be committed in order, so rejected posts, consumer reordering and other rows that the query sees (`RunQuery`) are not part of it.
- Supervisor.LedgerSession.RunSupervisor: the endless loop is cut after a given list of chunks, each with the place where it crashes, if it does; the proofs hold for every list. Resuming without the database, dry runs, file-order merging and the first-files choice are not modelled.
- CachedRun.CachedRunIsArchiveRun: compares posts without their line numbers and takes every accepted post to be committed; the deduplication by source event id, under which the repeated ids of cached copies matter, is done by `cms.data`, which is not part of this model.
- RunQuery.OwnRunOnlyIff: takes event ids as any strings, and leaves out run ids with % or backslash and rows posted without a run id.
- InterruptedBuild.CachedChunkIff: is about a build stopped by an exception, which closes its files; a killed one leaves a truncated gzip file, on which reading raises.
- CacheBuild.BuildGivesCacheRoot: builds with overwrite only; without it an existing file stays as it is (`DayCache.ExistingFileKept`).
- DayCache.CacheParent.BuildDayCaches: leaves out the row and file counters and the files under a backup directory, which discovery excludes from both roots by their path.
- Merge.BoundedMerge: heapq.merge over open readers is the function `Merge.Interleave`; the choice between the two merges by the open-file limit is left out because they yield the same rows.
- Injector.Run: payload building, accepted and error counters and the fixed-rate clock are left out.
- Selection.SelectMeterBalanced: takes the sorted list of meters as given.
- Reconciliation.BuildCoverageIssues: the order of the issues (sorted by key) is not modelled, and the coverage key is the tuple that the hash is taken of.
- GapLoader.WarningDatabase.InsertBatch: the columns other than key, target and flag are left out, and so are the pauses between attempts.
- GapRun.GapLoaderRun.LoadGaps: assumes no other writer; the counts per file and the wording of the run log are left out.
- FeatureLoader.UpsertsSplit: leaves out created_at and the hour and weekday features, which depend on the key alone; source_refs is a multiset, without its order and the columns that only say where a row came from.
- ThresholdFile.CountLargeChanges: bounds are real numbers, so floating-point rounding is left out; a deployed hour counts when it is a non-negative integer, and digits that are not decimal are not modelled.
- ThresholdOps.EverySequenceIsSafe: the content that a build computes in SQL, timestamps, the choice of the latest candidate by modification time, the hidden staging file and the JSON files other than the validation are left out; a promotion is on record once the deployed file is replaced, and a rollback from the directory of the deployed file itself is not modelled.
- PmaxScheduler.SelectPmaxBase: takes the ranked query's rows as given; the canonical and feature lanes of the scheduler are left out, and so is the anomaly lane but for its runs' evidence.
- ModelServing.RunModelServing: takes the numbers of features and anomaly rows as given, and packet ids as the pair that the hash is taken of; no other program writes counting evidence under the run ids of the anomaly lane.
- GapCount.GapsOnGrid: the most common interval, the percentile and the duplicate count are left out, as they are settled by reading one expression.
- gzip, CSV and datetime parsing, path globbing, hashing, HTTP, Kafka and PostgreSQL clients, argument parsing and environment gates: lines, timestamps and replies are parameters.
