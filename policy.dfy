/** Maintenance-policy bookkeeping on the job table: deleting the policies of a
    hypertable, the row-only delete callback used on the per-chunk statistics, and
    counting jobs by type. */
module BgwPolicy {
  import opened Base
  import opened CatalogModel

  /** What a scan callback tells the scanner to do next. */
  datatype ScanTupleResult = ScanContinue | ScanDone

  /** The row-only delete callback: deletes the chunk-stat row the scan is on and
      asks for the next row. It deletes nothing else, in particular no job row. */
  method DeleteRowOnlyTupleFound(cat: Catalog, i: nat) returns (r: ScanTupleResult)
    requires i < |cat.tables.chunkStats|
    modifies cat
    ensures cat.tables == old(cat.tables).(chunkStats := old(cat.tables.chunkStats[..i] + cat.tables.chunkStats[i + 1..]))
    ensures r == ScanContinue
  {
    cat.tables := cat.tables.(chunkStats := cat.tables.chunkStats[..i] + cat.tables.chunkStats[i + 1..]);
    r := ScanContinue;
  }

  /** A scan of the chunk-stat table over the rows of one job, with the row-only
      delete callback; because the callback always continues, every row of the job
      is deleted and every other row stays, in order. */
  method ChunkStatsDeleteRowOnlyByJobId(cat: Catalog, jobId: int)
    modifies cat
    ensures cat.tables == old(cat.tables).(chunkStats := Filter(old(cat.tables.chunkStats), StatOfJobOtherThan(jobId)))
  {
    ghost var t0 := cat.tables;
    var rows := cat.tables.chunkStats;   // the scan sees the table as of its start
    var keep := StatOfJobOtherThan(jobId);
    var i := 0;   // the scan's position in the current table
    for k := 0 to |rows|   // k: rows of the original table visited so far
      invariant i == |Filter(rows[..k], keep)|
      invariant cat.tables == t0.(chunkStats := Filter(rows[..k], keep) + rows[k..])
    {
      ScanPosition(rows, k, keep, cat.tables.chunkStats, i);
      ghost var before, i0 := cat.tables.chunkStats, i;
      if cat.tables.chunkStats[i].jobId == jobId {
        // the callback always answers ScanContinue, so the scan visits every row
        var next := DeleteRowOnlyTupleFound(cat, i);
      } else {
        i := i + 1;
      }
      ScanDeleteStep(rows, k, keep, before, i0, cat.tables.chunkStats, i);
    }
    assert rows[..|rows|] == rows;
  }

  /** Deletes a job by id with its job-stat row and, through the row-only scan, its
      per-chunk statistics. */
  method DeleteJobById(cat: Catalog, jobId: int)
    modifies cat
    ensures cat.tables == DeleteJob(old(cat.tables), jobId)
  {
    ChunkStatsDeleteRowOnlyByJobId(cat, jobId);
    cat.tables := cat.tables.(stats := cat.tables.stats - {jobId});
    cat.tables := cat.tables.(jobs := Filter(cat.tables.jobs, JobIdOtherThan(jobId)));
  }

  /** The ids of the jobs attached to a hypertable, in catalog order. */
  function JobIdsOnHypertable(jobs: seq<Job>, htid: int): (ids: seq<int>)
    ensures forall id :: id in ids <==> exists j :: j in jobs && j.hypertableId == htid && j.id == id
  {
    if |jobs| == 0 then []
    else
      var init := JobIdsOnHypertable(jobs[..|jobs| - 1], htid);
      var last := jobs[|jobs| - 1];
      assert jobs == jobs[..|jobs| - 1] + [last];
      if last.hypertableId == htid then init + [last.id] else init
  }

  /** Deleting the jobs with the given ids, one after the other. */
  function DeleteJobs(t: Tables, ids: seq<int>): (r: Tables)
    ensures forall j :: j in r.jobs <==> j in t.jobs && j.id !in ids
    ensures r.stats == t.stats - (set id | id in ids)
    ensures forall s :: s in r.chunkStats <==> s in t.chunkStats && s.jobId !in ids
    ensures r == t.(jobs := r.jobs, stats := r.stats, chunkStats := r.chunkStats)
  {
    if |ids| == 0 then t
    else DeleteJob(DeleteJobs(t, ids[..|ids| - 1]), ids[|ids| - 1])
  }

  /** Deletes every job attached to the hypertable. */
  method DeleteByHypertableId(cat: Catalog, htid: int)
    modifies cat
    ensures cat.tables == DeleteJobs(old(cat.tables), JobIdsOnHypertable(old(cat.tables.jobs), htid))
  {
    ghost var t0 := cat.tables;
    var ids := JobIdsOnHypertable(cat.tables.jobs, htid);
    for i := 0 to |ids|
      invariant cat.tables == DeleteJobs(t0, ids[..i])
    {
      assert ids[..i + 1][..i] == ids[..i];
      DeleteJobById(cat, ids[i]);
    }
    assert ids[..|ids|] == ids;
  }

  /** Deleting a hypertable's policies removes exactly the jobs attached to it, with
      their job-stat rows and per-chunk statistics, and leaves every other job. */
  lemma DeleteByHypertableIdExact(t: Tables, htid: int)
    requires UniqueJobIds(t.jobs)
    ensures var r := DeleteJobs(t, JobIdsOnHypertable(t.jobs, htid));
            && (forall j :: j in r.jobs <==> j in t.jobs && j.hypertableId != htid)
            && (forall j :: j in t.jobs && j.hypertableId == htid ==>
                  j.id !in r.stats && forall s :: s in r.chunkStats ==> s.jobId != j.id)
  {
    var ids := JobIdsOnHypertable(t.jobs, htid);
    forall j | j in t.jobs && j.hypertableId != htid
      ensures j.id !in ids
    {
    }
  }

  /** The job types the counters of `BgwJobTypeCount` distinguish. */
  datatype JobKind =
    | CaggRefreshPolicy | CompressionPolicy | ReorderPolicy | RetentionPolicy
    | TelemetryPolicy | UserDefinedAction

  /** The counter a job increments, if any: a job outside the internal schema is a
      user-defined action; an internal job counts for the policy its procedure name
      names, and for nothing when the name is none of them. */
  function Classify(j: Job): Option<JobKind>
  {
    if j.procSchema == INTERNAL_SCHEMA_NAME then
      if j.procName == "policy_refresh_continuous_aggregate" then Some(CaggRefreshPolicy)
      else if j.procName == "policy_compression" then Some(CompressionPolicy)
      else if j.procName == "policy_reorder" then Some(ReorderPolicy)
      else if j.procName == "policy_retention" then Some(RetentionPolicy)
      else if j.procName == "policy_telemetry" then Some(TelemetryPolicy)
      else None
    else Some(UserDefinedAction)
  }

  function OfKind(k: JobKind): Job -> bool
  {
    (j: Job) => Classify(j) == Some(k)
  }

  function IsCounted(): Job -> bool
  {
    (j: Job) => Classify(j).Some?
  }

  /** The counters record (32-bit counters; a catalog never holds 2^31 jobs). */
  datatype BgwJobTypeCount = BgwJobTypeCount(
    policyCagg: int,
    policyCompression: int,
    policyReorder: int,
    policyRetention: int,
    policyTelemetry: int,
    userDefinedAction: int)

  function Total(c: BgwJobTypeCount): int
  {
    c.policyCagg + c.policyCompression + c.policyReorder + c.policyRetention
      + c.policyTelemetry + c.userDefinedAction
  }

  /** Counts the jobs of the job table by type; all counters start at zero. */
  method JobTypeCounts(jobs: seq<Job>) returns (counts: BgwJobTypeCount)
    ensures counts.policyCagg == Count(jobs, OfKind(CaggRefreshPolicy))
    ensures counts.policyCompression == Count(jobs, OfKind(CompressionPolicy))
    ensures counts.policyReorder == Count(jobs, OfKind(ReorderPolicy))
    ensures counts.policyRetention == Count(jobs, OfKind(RetentionPolicy))
    ensures counts.policyTelemetry == Count(jobs, OfKind(TelemetryPolicy))
    ensures counts.userDefinedAction == Count(jobs, OfKind(UserDefinedAction))
  {
    counts := BgwJobTypeCount(0, 0, 0, 0, 0, 0);
    for i := 0 to |jobs|
      invariant counts.policyCagg == Count(jobs[..i], OfKind(CaggRefreshPolicy))
      invariant counts.policyCompression == Count(jobs[..i], OfKind(CompressionPolicy))
      invariant counts.policyReorder == Count(jobs[..i], OfKind(ReorderPolicy))
      invariant counts.policyRetention == Count(jobs[..i], OfKind(RetentionPolicy))
      invariant counts.policyTelemetry == Count(jobs[..i], OfKind(TelemetryPolicy))
      invariant counts.userDefinedAction == Count(jobs[..i], OfKind(UserDefinedAction))
    {
      CountSnoc(jobs, i, OfKind(CaggRefreshPolicy));
      CountSnoc(jobs, i, OfKind(CompressionPolicy));
      CountSnoc(jobs, i, OfKind(ReorderPolicy));
      CountSnoc(jobs, i, OfKind(RetentionPolicy));
      CountSnoc(jobs, i, OfKind(TelemetryPolicy));
      CountSnoc(jobs, i, OfKind(UserDefinedAction));
      var job := jobs[i];
      if job.procSchema == INTERNAL_SCHEMA_NAME {
        if job.procName == "policy_refresh_continuous_aggregate" {
          counts := counts.(policyCagg := counts.policyCagg + 1);
        } else if job.procName == "policy_compression" {
          counts := counts.(policyCompression := counts.policyCompression + 1);
        } else if job.procName == "policy_reorder" {
          counts := counts.(policyReorder := counts.policyReorder + 1);
        } else if job.procName == "policy_retention" {
          counts := counts.(policyRetention := counts.policyRetention + 1);
        } else if job.procName == "policy_telemetry" {
          counts := counts.(policyTelemetry := counts.policyTelemetry + 1);
        }
      } else {
        counts := counts.(userDefinedAction := counts.userDefinedAction + 1);
      }
    }
    assert jobs[..|jobs|] == jobs;
  }

  /** Each job falls under at most one counter: the six counts add up to the number
      of jobs counted at all, which is at most the number of jobs. */
  lemma {:induction false} CountsAddUp(jobs: seq<Job>)
    ensures Count(jobs, OfKind(CaggRefreshPolicy)) + Count(jobs, OfKind(CompressionPolicy))
            + Count(jobs, OfKind(ReorderPolicy)) + Count(jobs, OfKind(RetentionPolicy))
            + Count(jobs, OfKind(TelemetryPolicy)) + Count(jobs, OfKind(UserDefinedAction))
            == Count(jobs, IsCounted())
    ensures Count(jobs, IsCounted()) <= |jobs|
  {
    if |jobs| > 0 {
      CountsAddUp(jobs[..|jobs| - 1]);
      OneCounterPerJob(jobs[|jobs| - 1]);
    }
  }

  /** A job increments one counter when it is counted at all, and none otherwise. */
  lemma OneCounterPerJob(j: Job)
    ensures (if OfKind(CaggRefreshPolicy)(j) then 1 else 0) + (if OfKind(CompressionPolicy)(j) then 1 else 0)
            + (if OfKind(ReorderPolicy)(j) then 1 else 0) + (if OfKind(RetentionPolicy)(j) then 1 else 0)
            + (if OfKind(TelemetryPolicy)(j) then 1 else 0) + (if OfKind(UserDefinedAction)(j) then 1 else 0)
            == (if IsCounted()(j) then 1 else 0)
  {
  }

  /** Every job outside the internal schema is counted as a user-defined action, so
      that counter is the number of such jobs. */
  lemma {:induction false} UserDefinedActionsCounted(jobs: seq<Job>)
    ensures Count(jobs, OfKind(UserDefinedAction))
            == Count(jobs, (j: Job) => j.procSchema != INTERNAL_SCHEMA_NAME)
  {
    if |jobs| > 0 {
      UserDefinedActionsCounted(jobs[..|jobs| - 1]);
    }
  }

  /** An internal job is counted by the counter its procedure name selects, and by
      none when the name is not one of the five policy names. */
  lemma ClassifyInternal(j: Job)
    requires j.procSchema == INTERNAL_SCHEMA_NAME
    ensures Classify(j) == None <==>
            j.procName !in ["policy_refresh_continuous_aggregate", "policy_compression",
                            "policy_reorder", "policy_retention", "policy_telemetry"]
    ensures j.procName == "policy_refresh_continuous_aggregate" ==> Classify(j) == Some(CaggRefreshPolicy)
    ensures j.procName == "policy_compression" ==> Classify(j) == Some(CompressionPolicy)
    ensures j.procName == "policy_reorder" ==> Classify(j) == Some(ReorderPolicy)
    ensures j.procName == "policy_retention" ==> Classify(j) == Some(RetentionPolicy)
    ensures j.procName == "policy_telemetry" ==> Classify(j) == Some(TelemetryPolicy)
  {
  }
}
