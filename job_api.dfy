/** The SQL-callable job API: add_job, delete_job, run_job and alter_job, with the
    configuration check they apply to the built-in policies' documents and the
    scan that writes alter_job's changes into the job table. */
module JobApi {
  import opened Base
  import opened CatalogModel
  import opened TimeUtils
  import opened BgwPolicy
  import opened PolicyJob
  import opened JobExecution

  /** A custom job runs without a time limit... */
  const DEFAULT_MAX_RUNTIME: int := 0
  /** ...is retried without end... */
  const DEFAULT_MAX_RETRIES: int := -1
  /** ...and waits five minutes between retries. */
  const DEFAULT_RETRY_PERIOD: int := 5 * USECS_PER_MINUTE

  const CUSTOM_APPLICATION_NAME: string := "User-Defined Action"
  const CUSTOM_JOB_TYPE: string := "custom"

  /** The calling role as the API sees it: its name, the procedures it may EXECUTE
      (by OID), the roles whose privileges it has, and whether it may own a
      background worker. */
  datatype Caller = Caller(user: string, executable: set<int>, privilegesOf: set<string>, canOwnWorker: bool)

  /** The catalog integrity the configuration validators rely on: well-formed
      hypertables, and continuous aggregates whose chain ends (`CaggChainWellFormed`). */
  ghost predicate ConfigCheckable(t: Tables)
  {
    HypertablesWellFormed(t.hypertables) && CaggChainWellFormed(t.caggs, t.hypertables)
  }

  /** The procedures of the built-in policies, in the internal schema. */
  const POLICY_PROC_NAMES: set<string> :=
    {"policy_retention", "policy_reorder", "policy_compression", "policy_refresh_continuous_aggregate"}

  function OutcomeOf<T>(r: Result<T>): (o: Outcome)
    ensures o.Fail? <==> r.Err?
    ensures o.Fail? ==> o.error == r.error
  {
    if r.Err? then Fail(r.error) else Pass
  }

  /** A configuration given to one of the built-in policy procedures must pass that
      policy's validation; a configuration for any other procedure is not checked. */
  function JobConfigCheck(t: Tables, env: Env, procSchema: string, procName: string, config: JobConfig): (r: Outcome)
    requires ConfigCheckable(t)
    ensures r.Fail? ==> procSchema == INTERNAL_SCHEMA_NAME && procName in POLICY_PROC_NAMES
  {
    if procSchema != INTERNAL_SCHEMA_NAME then Pass
    else if procName == "policy_retention" then OutcomeOf(RetentionReadAndValidate(t, config, env))
    else if procName == "policy_reorder" then OutcomeOf(ReorderReadAndValidate(t, config))
    else if procName == "policy_compression" then OutcomeOf(CompressionReadAndValidate(t, config))
    else if procName == "policy_refresh_continuous_aggregate" then OutcomeOf(RefreshReadAndValidate(t, config, env))
    else Pass
  }

  /** Each built-in policy procedure accepts exactly the configurations its
      validator accepts. */
  lemma JobConfigCheckPolicies(t: Tables, env: Env, config: JobConfig)
    requires ConfigCheckable(t)
    ensures JobConfigCheck(t, env, INTERNAL_SCHEMA_NAME, "policy_retention", config).Pass?
            <==> RetentionReadAndValidate(t, config, env).Ok?
    ensures JobConfigCheck(t, env, INTERNAL_SCHEMA_NAME, "policy_reorder", config).Pass?
            <==> ReorderReadAndValidate(t, config).Ok?
    ensures JobConfigCheck(t, env, INTERNAL_SCHEMA_NAME, "policy_compression", config).Pass?
            <==> CompressionReadAndValidate(t, config).Ok?
    ensures JobConfigCheck(t, env, INTERNAL_SCHEMA_NAME, "policy_refresh_continuous_aggregate", config).Pass?
            <==> RefreshReadAndValidate(t, config, env).Ok?
    ensures config.CustomConfig? ==>
              forall name :: name in POLICY_PROC_NAMES ==>
                JobConfigCheck(t, env, INTERNAL_SCHEMA_NAME, name, config) == Fail(InvalidParameter)
  {
  }

  // ----------------------------------------------------------------------------
  // add_job

  function ProcOidIs(oid: int): Proc -> bool
  {
    (p: Proc) => p.oid == oid
  }

  /** The row add_job inserts for a procedure. */
  function NewJob(id: int, scheduleInterval: int, p: Proc, owner: string, scheduled: Option<bool>,
                  config: Option<JobConfig>): Job
  {
    Job(id, CUSTOM_APPLICATION_NAME, CUSTOM_JOB_TYPE, scheduleInterval, DEFAULT_MAX_RUNTIME,
        DEFAULT_MAX_RETRIES, DEFAULT_RETRY_PERIOD, p.schema, p.name, owner,
        if scheduled.Some? then scheduled.value else true, 0, config)
  }

  /** The id of the added job and the tables after add_job. */
  datatype Added = Added(jobId: int, tables: Tables)

  /** add_job: every argument check in the order the code makes them, then the
      insert and the optional initial start. */
  function JobAddSpec(t: Tables, caller: Caller, env: Env, readOnly: bool, proc: Option<int>,
                      scheduleInterval: Option<int>, config: Option<JobConfig>, initialStart: Option<int>,
                      scheduled: Option<bool>): Result<Added>
    requires ConfigCheckable(t)
  {
    if readOnly then Err(ReadOnlyTransaction)
    else if proc.None? then Err(InvalidParameter)
    else if scheduleInterval.None? then Err(InvalidParameter)
    else
      match LastMatch(t.procs, ProcOidIs(proc.value))
      case None => Err(UndefinedObject)
      case Some(p) =>
        if proc.value !in caller.executable then Err(InsufficientPrivilege)
        else if !caller.canOwnWorker then Err(InsufficientPrivilege)
        else
          var check := if config.Some? then JobConfigCheck(t, env, p.schema, p.name, config.value) else Pass;
          if check.Fail? then Err(check.error)
          else if initialStart.Some? && NextStartRefused(initialStart.value) then Err(InternalError)
          else
            var job := NewJob(t.nextJobId, scheduleInterval.value, p, caller.user, scheduled, config);
            var t1 := t.(jobs := t.jobs + [job], nextJobId := t.nextJobId + 1);
            Ok(Added(job.id, if initialStart.Some? then t1.(stats := UpsertNextStart(t1.stats, job.id, initialStart.value)) else t1))
  }

  /** Adds a job. */
  method JobAdd(cat: Catalog, caller: Caller, env: Env, readOnly: bool, proc: Option<int>,
                scheduleInterval: Option<int>, config: Option<JobConfig>, initialStart: Option<int>,
                scheduled: Option<bool>) returns (res: Result<int>)
    requires ConfigCheckable(cat.tables)
    modifies cat
    ensures var s := JobAddSpec(old(cat.tables), caller, env, readOnly, proc, scheduleInterval, config, initialStart, scheduled);
            && (s.Err? ==> res == Err(s.error) && cat.tables == old(cat.tables))
            && (s.Ok? ==> res == Ok(s.value.jobId) && cat.tables == s.value.tables)
  {
    var before := cat.tables;
    if readOnly {
      return Err(ReadOnlyTransaction);
    }
    if proc.None? {
      return Err(InvalidParameter);
    }
    if scheduleInterval.None? {
      return Err(InvalidParameter);
    }
    var p := LastMatch(cat.tables.procs, ProcOidIs(proc.value));
    if p.None? {
      return Err(UndefinedObject);
    }
    if proc.value !in caller.executable {
      return Err(InsufficientPrivilege);
    }
    if !caller.canOwnWorker {
      return Err(InsufficientPrivilege);
    }
    if config.Some? {
      var check := JobConfigCheck(cat.tables, env, p.value.schema, p.value.name, config.value);
      if check.Fail? {
        return Err(check.error);
      }
    }
    var jobId := cat.tables.nextJobId;
    var job := NewJob(jobId, scheduleInterval.value, p.value, caller.user, scheduled, config);
    cat.tables := cat.tables.(jobs := cat.tables.jobs + [job], nextJobId := jobId + 1);
    if initialStart.Some? {
      var upsert := cat.UpsertJobNextStart(jobId, initialStart.value);
      if upsert.Fail? {
        // the error aborts the transaction, and the insert with it
        cat.tables := before;
        return Err(upsert.error);
      }
    }
    res := Ok(jobId);
  }

  /** add_job refuses, in this order: a read-only transaction, a null procedure, a
      null schedule interval, an unknown procedure, a procedure the caller may not
      execute, a caller that may not own a worker, a configuration the policy
      rejects, and an initial start of -infinity. */
  lemma JobAddErrors(t: Tables, caller: Caller, env: Env, readOnly: bool, proc: Option<int>,
                     scheduleInterval: Option<int>, config: Option<JobConfig>, initialStart: Option<int>,
                     scheduled: Option<bool>)
    requires ConfigCheckable(t)
    ensures var r := JobAddSpec(t, caller, env, readOnly, proc, scheduleInterval, config, initialStart, scheduled);
            && (readOnly ==> r == Err(ReadOnlyTransaction))
            && (!readOnly && (proc.None? || scheduleInterval.None?) ==> r == Err(InvalidParameter))
            && (!readOnly && proc.Some? && scheduleInterval.Some? ==>
                  && ((forall q :: q in t.procs ==> q.oid != proc.value) ==> r == Err(UndefinedObject))
                  && (((exists q :: q in t.procs && q.oid == proc.value) &&
                       (proc.value !in caller.executable || !caller.canOwnWorker)) ==> r == Err(InsufficientPrivilege))
                  && (LastMatch(t.procs, ProcOidIs(proc.value)).Some? && proc.value in caller.executable
                      && caller.canOwnWorker ==>
                        var p := LastMatch(t.procs, ProcOidIs(proc.value)).value;
                        var check := if config.Some? then JobConfigCheck(t, env, p.schema, p.name, config.value) else Pass;
                        && (check.Fail? ==> r == Err(check.error))
                        && (check.Pass? && initialStart.Some? && NextStartRefused(initialStart.value) ==>
                              r == Err(InternalError))
                        && (check.Pass? && !(initialStart.Some? && NextStartRefused(initialStart.value)) ==> r.Ok?)))
            && (r.Ok? ==> && !readOnly && proc.Some? && scheduleInterval.Some? && proc.value in caller.executable
                          && caller.canOwnWorker && (initialStart.Some? ==> !NextStartRefused(initialStart.value)))
            && (r.Ok? && config.Some? ==>
                  var p := LastMatch(t.procs, ProcOidIs(proc.value)).value;
                  JobConfigCheck(t, env, p.schema, p.name, config.value).Pass?)
  {
    if !readOnly && proc.Some? && scheduleInterval.Some? {
      var m := LastMatch(t.procs, ProcOidIs(proc.value));
      if exists q :: q in t.procs && q.oid == proc.value {
        var q :| q in t.procs && q.oid == proc.value;
        assert ProcOidIs(proc.value)(q);
      }
    }
  }

  /** A job added by add_job is a custom job with the default limits, owned by the
      caller, scheduled unless asked otherwise, whose id is the next free one; an
      initial start seeds its next start; nothing else changes. */
  lemma JobAddInserts(t: Tables, caller: Caller, env: Env, readOnly: bool, proc: Option<int>,
                      scheduleInterval: Option<int>, config: Option<JobConfig>, initialStart: Option<int>,
                      scheduled: Option<bool>)
    requires ConfigCheckable(t)
    ensures var r := JobAddSpec(t, caller, env, readOnly, proc, scheduleInterval, config, initialStart, scheduled);
            r.Ok? ==>
              var a := r.value;
              var p := LastMatch(t.procs, ProcOidIs(proc.value)).value;
              && a.jobId == t.nextJobId && a.tables.nextJobId == t.nextJobId + 1
              && |a.tables.jobs| == |t.jobs| + 1 && a.tables.jobs[..|t.jobs|] == t.jobs
              && var j := a.tables.jobs[|t.jobs|];
              && j.id == a.jobId && j.applicationName == "User-Defined Action" && j.jobType == "custom"
              && j.scheduleInterval == scheduleInterval.value && j.maxRuntime == 0 && j.maxRetries == -1
              && j.retryPeriod == 5 * USECS_PER_MINUTE && j.procSchema == p.schema && j.procName == p.name
              && p.oid == proc.value && j.owner == caller.user && j.hypertableId == 0 && j.config == config
              && (j.scheduled <==> scheduled.None? || scheduled.value)
              && (initialStart.None? ==> a.tables.stats == t.stats)
              && (initialStart.Some? ==> a.tables.stats == UpsertNextStart(t.stats, a.jobId, initialStart.value))
              && a.tables == t.(jobs := a.tables.jobs, nextJobId := a.tables.nextJobId, stats := a.tables.stats)
  {
  }

  /** Every job id is below the next id to allocate. */
  ghost predicate JobIdsBelowNext(t: Tables)
  {
    forall j :: j in t.jobs ==> j.id < t.nextJobId
  }

  /** add_job keeps job ids unique and below the next id. */
  lemma JobAddKeepsIdsUnique(t: Tables, caller: Caller, env: Env, readOnly: bool, proc: Option<int>,
                             scheduleInterval: Option<int>, config: Option<JobConfig>, initialStart: Option<int>,
                             scheduled: Option<bool>)
    requires ConfigCheckable(t) && UniqueJobIds(t.jobs) && JobIdsBelowNext(t)
    ensures var r := JobAddSpec(t, caller, env, readOnly, proc, scheduleInterval, config, initialStart, scheduled);
            r.Ok? ==> UniqueJobIds(r.value.tables.jobs) && JobIdsBelowNext(r.value.tables)
  {
    var r := JobAddSpec(t, caller, env, readOnly, proc, scheduleInterval, config, initialStart, scheduled);
    if r.Ok? {
      var jobs := r.value.tables.jobs;
      assert jobs[..|t.jobs|] == t.jobs;
      forall i, k | 0 <= i < k < |jobs| ensures jobs[i].id != jobs[k].id {
        if k == |t.jobs| {
          assert jobs[i] in t.jobs;
        } else {
          assert jobs[i] == t.jobs[i] && jobs[k] == t.jobs[k];
        }
      }
    }
  }

  // ----------------------------------------------------------------------------
  // Lookup, delete_job and run_job

  /** find_job: a null id is refused unless missing jobs are allowed; a missing job is
      an error unless it is allowed, and then the answer is "no job". */
  function FindJob(jobs: seq<Job>, jobId: int, nullJobId: bool, missingOk: bool): (r: Result<Option<Job>>)
    ensures nullJobId && !missingOk ==> r == Err(InvalidParameter)
    ensures !nullJobId || missingOk ==>
              && (r.Err? <==> !missingOk && forall j :: j in jobs ==> j.id != jobId)
              && (r.Err? ==> r.error == UndefinedObject)
              && (r == Ok(None) <==> missingOk && forall j :: j in jobs ==> j.id != jobId)
    ensures r.Ok? && r.value.Some? ==> r.value.value in jobs && r.value.value.id == jobId
  {
    if nullJobId && !missingOk then Err(InvalidParameter)
    else
      match LastMatch(jobs, JobIdIs(jobId))
      case None => if missingOk then Ok(None) else Err(UndefinedObject)
      case Some(j) => Ok(Some(j))
  }

  function JobIdIs(jobId: int): Job -> bool
  {
    (j: Job) => j.id == jobId
  }

  /** With unique ids, the job found is the one row with that id. */
  lemma FindJobUnique(jobs: seq<Job>, jobId: int, nullJobId: bool, missingOk: bool, i: nat)
    requires UniqueJobIds(jobs) && i < |jobs| && jobs[i].id == jobId
    requires !nullJobId || missingOk
    ensures FindJob(jobs, jobId, nullJobId, missingOk) == Ok(Some(jobs[i]))
  {
    var m := LastMatch(jobs, JobIdIs(jobId));
    assert JobIdIs(jobId)(jobs[i]);
    assert m.Some? && m.value.id == jobId;
    var k :| 0 <= k < |jobs| && jobs[k] == m.value;
  }

  /** With unique ids, the scan's first row with the id is the one row with it. */
  lemma FirstJobIndexUnique(jobs: seq<Job>, jobId: int, i: nat)
    requires UniqueJobIds(jobs) && i < |jobs| && jobs[i].id == jobId
    ensures FirstJobIndex(jobs, jobId) == Some(i)
  {
    var f := FirstJobIndex(jobs, jobId);
    assert jobs[i] in jobs;
  }

  /** A job add_job has just added is found under the id it returned. */
  lemma AddThenFind(t: Tables, caller: Caller, env: Env, proc: Option<int>, scheduleInterval: Option<int>,
                    config: Option<JobConfig>, initialStart: Option<int>, scheduled: Option<bool>)
    requires ConfigCheckable(t) && UniqueJobIds(t.jobs) && JobIdsBelowNext(t)
    ensures var r := JobAddSpec(t, caller, env, false, proc, scheduleInterval, config, initialStart, scheduled);
            r.Ok? ==>
              var f := FindJob(r.value.tables.jobs, r.value.jobId, false, false);
              && f.Ok? && f.value.Some? && f.value.value == r.value.tables.jobs[|t.jobs|]
              && f.value.value.scheduleInterval == scheduleInterval.value && f.value.value.config == config
  {
    var r := JobAddSpec(t, caller, env, false, proc, scheduleInterval, config, initialStart, scheduled);
    if r.Ok? {
      JobAddKeepsIdsUnique(t, caller, env, false, proc, scheduleInterval, config, initialStart, scheduled);
      FindJobUnique(r.value.tables.jobs, r.value.jobId, false, false, |t.jobs|);
    }
  }

  /** Deleting the job add_job has just added leaves the job table as it was. */
  lemma AddThenDelete(t: Tables, caller: Caller, env: Env, proc: Option<int>, scheduleInterval: Option<int>,
                      config: Option<JobConfig>, initialStart: Option<int>, scheduled: Option<bool>)
    requires ConfigCheckable(t) && JobIdsBelowNext(t)
    ensures var r := JobAddSpec(t, caller, env, false, proc, scheduleInterval, config, initialStart, scheduled);
            r.Ok? ==> DeleteJob(r.value.tables, r.value.jobId).jobs == t.jobs
  {
    var r := JobAddSpec(t, caller, env, false, proc, scheduleInterval, config, initialStart, scheduled);
    if r.Ok? {
      var jobs := r.value.tables.jobs;
      var keep := JobIdOtherThan(r.value.jobId);
      assert jobs == t.jobs + [jobs[|t.jobs|]];
      assert jobs[..|jobs| - 1] == t.jobs;
      FilterAll(t.jobs, keep);
    }
  }

  /** delete_job's checks: a read-only transaction, the lookup, and the caller's
      privileges over the job's owner. */
  function JobDeleteCheck(jobs: seq<Job>, caller: Caller, readOnly: bool, jobId: int, nullJobId: bool): (r: Outcome)
    ensures readOnly ==> r == Fail(ReadOnlyTransaction)
    ensures !readOnly && nullJobId ==> r == Fail(InvalidParameter)
    ensures !readOnly && !nullJobId ==>
              (r.Pass? <==> exists j :: j in jobs && j.id == jobId && j.owner in caller.privilegesOf
                                        && FindJob(jobs, jobId, false, false) == Ok(Some(j)))
    ensures !readOnly && !nullJobId && (forall j :: j in jobs ==> j.id != jobId) ==> r == Fail(UndefinedObject)
  {
    if readOnly then Fail(ReadOnlyTransaction)
    else
      match FindJob(jobs, jobId, nullJobId, false)
      case Err(e) => Fail(e)
      case Ok(j) =>
        if j.None? then Fail(InternalError)  // a lookup that may not miss never answers "no job"
        else if j.value.owner !in caller.privilegesOf then Fail(InsufficientPrivilege)
        else Pass
  }

  /** delete_job: the checks, then the delete with its cascade. */
  method JobDelete(cat: Catalog, caller: Caller, readOnly: bool, jobId: int, nullJobId: bool) returns (res: Outcome)
    modifies cat
    ensures res == JobDeleteCheck(old(cat.tables.jobs), caller, readOnly, jobId, nullJobId)
    ensures res.Fail? ==> cat.tables == old(cat.tables)
    ensures res.Pass? ==> cat.tables == DeleteJob(old(cat.tables), jobId)
  {
    res := JobDeleteCheck(cat.tables.jobs, caller, readOnly, jobId, nullJobId);
    if res.Pass? {
      DeleteJobById(cat, jobId);
    }
  }

  /** A delete_job that succeeds removes the job, its statistics and nothing of any
      other job. */
  lemma JobDeleteEffect(t: Tables, caller: Caller, jobId: int)
    requires JobDeleteCheck(t.jobs, caller, false, jobId, false).Pass?
    ensures exists j :: j in t.jobs && j.id == jobId
    ensures forall j :: j in DeleteJob(t, jobId).jobs <==> j in t.jobs && j.id != jobId
    ensures jobId !in DeleteJob(t, jobId).stats
    ensures forall k :: k in t.stats && k != jobId ==> k in DeleteJob(t, jobId).stats
  {
  }

  /** run_job: the lookup, then job_execute on the job found. */
  method JobRun(be: Backend, t: Tables, jobId: int, nullJobId: bool, callee: Callee) returns (res: Outcome)
    requires be.inTxn || !be.snapshotActive
    modifies be
    ensures var f := FindJob(t.jobs, jobId, nullJobId, false);
            && (f.Err? ==> && res == Fail(f.error) && be.trace == old(be.trace)
                           && be.inTxn == old(be.inTxn) && be.snapshotActive == old(be.snapshotActive))
            && (f.Ok? ==>
                  var x := JobExecuteSpec(t.procs, f.value.value, old(be.inTxn), old(be.snapshotActive), callee);
                  && res == x.outcome && be.trace == old(be.trace) + x.events
                  && be.inTxn == x.inTxn && be.snapshotActive == x.snapshotActive)
  {
    var job := FindJob(t.jobs, jobId, nullJobId, false);
    if job.Err? {
      return Fail(job.error);
    }
    res := JobExecute(be, t.procs, job.value.value, callee);
  }

  // ----------------------------------------------------------------------------
  // The job-table update behind alter_job

  /** The first row with the id: where an index scan with a limit of one stops. */
  function FirstJobIndex(jobs: seq<Job>, jobId: int): (r: Option<nat>)
    ensures r.Some? ==> r.value < |jobs| && jobs[r.value].id == jobId
                        && forall k :: 0 <= k < r.value ==> jobs[k].id != jobId
    ensures r.None? <==> forall j :: j in jobs ==> j.id != jobId
  {
    if |jobs| == 0 then None
    else if jobs[0].id == jobId then Some(0)
    else
      match FirstJobIndex(jobs[1..], jobId)
      case None => assert jobs == [jobs[0]] + jobs[1..]; None
      case Some(k) => Some(k + 1)
  }

  /** The row after the update: the alterable columns come from `updated`. */
  function TupleUpdate(row: Job, updated: Job): Job
  {
    row.(scheduleInterval := updated.scheduleInterval, maxRuntime := updated.maxRuntime,
         maxRetries := updated.maxRetries, retryPeriod := updated.retryPeriod,
         scheduled := updated.scheduled, config := updated.config)
  }

  /** A new schedule interval moves the job's next start to its last finish plus the
      new interval, when the job has statistics; the same interval changes nothing. */
  function RecomputedStats(stats: map<int, JobStat>, row: Job, updated: Job): (r: map<int, JobStat>)
    ensures r.Keys == stats.Keys
    ensures forall k :: k in stats && k != updated.id ==> r[k] == stats[k]
    ensures row.scheduleInterval == updated.scheduleInterval ==> r == stats
    ensures row.scheduleInterval != updated.scheduleInterval && updated.id in stats ==>
              r[updated.id] == stats[updated.id].(nextStart := TimestampPlusInterval(stats[updated.id].lastFinish,
                                                                                    updated.scheduleInterval))
  {
    if row.scheduleInterval != updated.scheduleInterval && updated.id in stats then
      var s := stats[updated.id];
      stats[updated.id := s.(nextStart := TimestampPlusInterval(s.lastFinish, updated.scheduleInterval))]
    else stats
  }

  /** The scan callback on row `i`: recompute the next start, check a non-null
      configuration, and write the alterable columns. */
  function TupleUpdateSpec(t: Tables, env: Env, i: nat, updated: Job): Result<Tables>
    requires ConfigCheckable(t) && i < |t.jobs|
  {
    var stats := RecomputedStats(t.stats, t.jobs[i], updated);
    var check := if updated.config.Some?
                 then JobConfigCheck(t, env, updated.procSchema, updated.procName, updated.config.value)
                 else Pass;
    if check.Fail? then Err(check.error)
    else Ok(t.(stats := stats, jobs := t.jobs[i := TupleUpdate(t.jobs[i], updated)]))
  }

  /** The update: the callback on the first row with the id, if there is one. */
  function UpdateByIdSpec(t: Tables, env: Env, jobId: int, updated: Job): Result<Tables>
    requires ConfigCheckable(t)
  {
    match FirstJobIndex(t.jobs, jobId)
    case None => Ok(t)
    case Some(i) => TupleUpdateSpec(t, env, i, updated)
  }

  /** The scan callback; an error in the configuration check rolls its change back. */
  method BgwJobTupleUpdateById(cat: Catalog, env: Env, i: nat, updated: Job) returns (res: Result<ScanTupleResult>)
    requires ConfigCheckable(cat.tables) && i < |cat.tables.jobs|
    modifies cat
    ensures var s := TupleUpdateSpec(old(cat.tables), env, i, updated);
            && (s.Err? ==> res == Err(s.error) && cat.tables == old(cat.tables))
            && (s.Ok? ==> res == Ok(ScanDone) && cat.tables == s.value)
  {
    var saved := cat.tables;
    var row := cat.tables.jobs[i];
    cat.tables := cat.tables.(stats := RecomputedStats(cat.tables.stats, row, updated));
    if updated.config.Some? {
      var check := JobConfigCheck(saved, env, updated.procSchema, updated.procName, updated.config.value);
      if check.Fail? {
        cat.tables := saved;
        return Err(check.error);
      }
    }
    cat.tables := cat.tables.(jobs := cat.tables.jobs[i := TupleUpdate(row, updated)]);
    res := Ok(ScanDone);
  }

  /** The index scan on the job id with a limit of one. */
  method BgwJobUpdateById(cat: Catalog, env: Env, jobId: int, updated: Job) returns (res: Outcome)
    requires ConfigCheckable(cat.tables)
    modifies cat
    ensures var s := UpdateByIdSpec(old(cat.tables), env, jobId, updated);
            && (s.Err? ==> res == Fail(s.error) && cat.tables == old(cat.tables))
            && (s.Ok? ==> res == Pass && cat.tables == s.value)
  {
    var jobs := cat.tables.jobs;
    for i := 0 to |jobs|
      invariant forall k :: 0 <= k < i ==> jobs[k].id != jobId
      invariant cat.tables == old(cat.tables)
    {
      if jobs[i].id == jobId {
        var r := BgwJobTupleUpdateById(cat, env, i, updated);
        // the callback answers ScanDone, and the limit is one row anyway
        return if r.Err? then Fail(r.error) else Pass;
      }
    }
    res := Pass;
  }

  // ----------------------------------------------------------------------------
  // alter_job

  /** alter_job's optional arguments; a null argument leaves its column alone. */
  datatype AlterArgs = AlterArgs(
    scheduleInterval: Option<int>,
    maxRuntime: Option<int>,
    maxRetries: Option<int>,
    retryPeriod: Option<int>,
    scheduled: Option<bool>,
    config: Option<JobConfig>,
    nextStart: Option<int>)

  /** The row alter_job returns. */
  datatype AlterRow = AlterRow(
    jobId: int,
    scheduleInterval: int,
    maxRuntime: int,
    maxRetries: int,
    retryPeriod: int,
    scheduled: bool,
    config: Option<JobConfig>,
    nextStart: int)

  /** The tables after alter_job and the row it returns (none when a missing job is
      skipped). */
  datatype Altered = Altered(tables: Tables, row: Option<AlterRow>)

  function Or<T>(arg: Option<T>, current: T): T
  {
    if arg.Some? then arg.value else current
  }

  /** The job with the non-null arguments applied. */
  function Merge(job: Job, args: AlterArgs): Job
  {
    job.(scheduleInterval := Or(args.scheduleInterval, job.scheduleInterval),
         maxRuntime := Or(args.maxRuntime, job.maxRuntime),
         maxRetries := Or(args.maxRetries, job.maxRetries),
         retryPeriod := Or(args.retryPeriod, job.retryPeriod),
         scheduled := Or(args.scheduled, job.scheduled),
         config := if args.config.Some? then args.config else job.config)
  }

  /** The returned row: the merged job's columns and the job's next start, or
      -infinity when it has no statistics. */
  function AlterRowOf(job: Job, stats: map<int, JobStat>): AlterRow
  {
    AlterRow(job.id, job.scheduleInterval, job.maxRuntime, job.maxRetries, job.retryPeriod, job.scheduled,
             job.config, if job.id in stats then stats[job.id].nextStart else DT_NOBEGIN)
  }

  /** alter_job. */
  function JobAlterSpec(t: Tables, caller: Caller, env: Env, readOnly: bool, acceptsRecord: bool, jobId: int,
                        nullJobId: bool, args: AlterArgs, ifExists: bool): Result<Altered>
    requires ConfigCheckable(t)
  {
    if readOnly then Err(ReadOnlyTransaction)
    else if !acceptsRecord then Err(FeatureNotSupported)
    else
      match FindJob(t.jobs, jobId, nullJobId, ifExists)
      case Err(e) => Err(e)
      case Ok(None) => Ok(Altered(t, None))
      case Ok(Some(job)) =>
        if job.owner !in caller.privilegesOf then Err(InsufficientPrivilege)
        else
          var updated := Merge(job, args);
          match UpdateByIdSpec(t, env, jobId, updated)
          case Err(e) => Err(e)
          case Ok(t1) =>
            if args.nextStart.Some? && NextStartRefused(args.nextStart.value) then Err(InternalError)
            else
              var t2 := if args.nextStart.Some? then t1.(stats := UpsertNextStart(t1.stats, jobId, args.nextStart.value)) else t1;
              Ok(Altered(t2, Some(AlterRowOf(updated, t2.stats))))
  }

  /** Alters a job. */
  method JobAlter(cat: Catalog, caller: Caller, env: Env, readOnly: bool, acceptsRecord: bool, jobId: int,
                  nullJobId: bool, args: AlterArgs, ifExists: bool) returns (res: Result<Option<AlterRow>>)
    requires ConfigCheckable(cat.tables)
    modifies cat
    ensures var s := JobAlterSpec(old(cat.tables), caller, env, readOnly, acceptsRecord, jobId, nullJobId, args, ifExists);
            && (s.Err? ==> res == Err(s.error) && cat.tables == old(cat.tables))
            && (s.Ok? ==> res == Ok(s.value.row) && cat.tables == s.value.tables)
  {
    var before := cat.tables;
    if readOnly {
      return Err(ReadOnlyTransaction);
    }
    if !acceptsRecord {
      return Err(FeatureNotSupported);
    }
    var found := FindJob(cat.tables.jobs, jobId, nullJobId, ifExists);
    if found.Err? {
      return Err(found.error);
    }
    if found.value.None? {
      return Ok(None);
    }
    var job := found.value.value;
    if job.owner !in caller.privilegesOf {
      return Err(InsufficientPrivilege);
    }
    var updated := Merge(job, args);
    var update := BgwJobUpdateById(cat, env, jobId, updated);
    if update.Fail? {
      return Err(update.error);
    }
    if args.nextStart.Some? {
      var upsert := cat.UpsertJobNextStart(jobId, args.nextStart.value);
      if upsert.Fail? {
        // the error aborts the transaction, and the update with it
        cat.tables := before;
        return Err(upsert.error);
      }
    }
    res := Ok(Some(AlterRowOf(updated, cat.tables.stats)));
  }

  /** alter_job refuses a read-only transaction, then a caller that cannot accept a
      row, then what the lookup refuses, then a caller without the owner's
      privileges; a missing job with `if_exists` changes nothing and returns no row. */
  lemma JobAlterErrors(t: Tables, caller: Caller, env: Env, readOnly: bool, acceptsRecord: bool, jobId: int,
                       nullJobId: bool, args: AlterArgs, ifExists: bool)
    requires ConfigCheckable(t)
    ensures var r := JobAlterSpec(t, caller, env, readOnly, acceptsRecord, jobId, nullJobId, args, ifExists);
            && (readOnly ==> r == Err(ReadOnlyTransaction))
            && (!readOnly && !acceptsRecord ==> r == Err(FeatureNotSupported))
            && (!readOnly && acceptsRecord && nullJobId && !ifExists ==> r == Err(InvalidParameter))
            && (!readOnly && acceptsRecord && (!nullJobId || ifExists) && (forall j :: j in t.jobs ==> j.id != jobId)
                ==> r == if ifExists then Ok(Altered(t, None)) else Err(UndefinedObject))
            && (!readOnly && acceptsRecord &&
                (forall j :: j in t.jobs && j.id == jobId ==> j.owner !in caller.privilegesOf) ==>
                  r.Err? || r == Ok(Altered(t, None)))
  {
  }

  /** The merged job takes each non-null argument and keeps every other column; a
      null configuration argument keeps the current configuration. */
  lemma MergeColumns(job: Job, args: AlterArgs)
    ensures var m := Merge(job, args);
            && (args.scheduleInterval.Some? ==> m.scheduleInterval == args.scheduleInterval.value)
            && (args.scheduleInterval.None? ==> m.scheduleInterval == job.scheduleInterval)
            && (args.maxRuntime.Some? ==> m.maxRuntime == args.maxRuntime.value)
            && (args.maxRuntime.None? ==> m.maxRuntime == job.maxRuntime)
            && (args.maxRetries.Some? ==> m.maxRetries == args.maxRetries.value)
            && (args.maxRetries.None? ==> m.maxRetries == job.maxRetries)
            && (args.retryPeriod.Some? ==> m.retryPeriod == args.retryPeriod.value)
            && (args.retryPeriod.None? ==> m.retryPeriod == job.retryPeriod)
            && (args.scheduled.Some? ==> m.scheduled == args.scheduled.value)
            && (args.scheduled.None? ==> m.scheduled == job.scheduled)
            && (args.config.Some? ==> m.config == args.config)
            && (args.config.None? ==> m.config == job.config)
            && m == job.(scheduleInterval := m.scheduleInterval, maxRuntime := m.maxRuntime,
                         maxRetries := m.maxRetries, retryPeriod := m.retryPeriod,
                         scheduled := m.scheduled, config := m.config)
  {
  }

  /** The tables a successful alter_job of the one job with the id leaves: the merged
      row written at its position, the interval's next start recomputed, then the
      explicit next start upserted. */
  lemma JobAlterOkShape(t: Tables, caller: Caller, env: Env, jobId: int, nullJobId: bool, args: AlterArgs,
                        ifExists: bool, i: nat)
    requires ConfigCheckable(t) && UniqueJobIds(t.jobs) && i < |t.jobs| && t.jobs[i].id == jobId
    requires !nullJobId || ifExists
    ensures var r := JobAlterSpec(t, caller, env, false, true, jobId, nullJobId, args, ifExists);
            var m := Merge(t.jobs[i], args);
            var t1 := t.(stats := RecomputedStats(t.stats, t.jobs[i], m), jobs := t.jobs[i := m]);
            var t2 := if args.nextStart.Some? then t1.(stats := UpsertNextStart(t1.stats, jobId, args.nextStart.value)) else t1;
            r.Ok? ==> r.value == Altered(t2, Some(AlterRowOf(m, t2.stats)))
  {
    FindJobUnique(t.jobs, jobId, nullJobId, ifExists, i);
    FirstJobIndexUnique(t.jobs, jobId, i);
    var m := Merge(t.jobs[i], args);
    assert TupleUpdate(t.jobs[i], m) == m;
  }

  /** A successful alter_job of an existing job writes exactly the merged columns into
      that job's row, keeps every other column and every other row, and recomputes or
      sets the next start as asked. */
  lemma JobAlterEffect(t: Tables, caller: Caller, env: Env, jobId: int, nullJobId: bool, args: AlterArgs,
                       ifExists: bool, i: nat)
    requires ConfigCheckable(t) && UniqueJobIds(t.jobs) && i < |t.jobs| && t.jobs[i].id == jobId
    requires !nullJobId || ifExists
    ensures var r := JobAlterSpec(t, caller, env, false, true, jobId, nullJobId, args, ifExists);
            var old_ := t.jobs[i];
            r.Ok? ==>
              && r.value.row.Some?
              && |r.value.tables.jobs| == |t.jobs|
              && (forall k :: 0 <= k < |t.jobs| && k != i ==> r.value.tables.jobs[k] == t.jobs[k])
              && var new_ := r.value.tables.jobs[i];
              && new_ == Merge(old_, args)
              && r.value.row == Some(AlterRowOf(new_, r.value.tables.stats))
              && r.value.tables == t.(jobs := r.value.tables.jobs, stats := r.value.tables.stats)
  {
    JobAlterOkShape(t, caller, env, jobId, nullJobId, args, ifExists, i);
  }

  /** The next start after alter_job: an explicit one wins; otherwise a changed
      interval moves it to the last finish plus the new interval; otherwise it is kept.
      The row returned reports it (-infinity without statistics). */
  lemma JobAlterNextStart(t: Tables, caller: Caller, env: Env, jobId: int, nullJobId: bool, args: AlterArgs,
                          ifExists: bool, i: nat)
    requires ConfigCheckable(t) && UniqueJobIds(t.jobs) && i < |t.jobs| && t.jobs[i].id == jobId
    requires !nullJobId || ifExists
    ensures var r := JobAlterSpec(t, caller, env, false, true, jobId, nullJobId, args, ifExists);
            var old_ := t.jobs[i];
            var newIv := Or(args.scheduleInterval, old_.scheduleInterval);
            r.Ok? ==>
              && r.value.tables.stats.Keys == t.stats.Keys + (if args.nextStart.Some? then {jobId} else {})
              && (forall k :: k in t.stats && k != jobId ==> r.value.tables.stats[k] == t.stats[k])
              && (args.nextStart.Some? ==> r.value.tables.stats[jobId].nextStart == args.nextStart.value)
              && (args.nextStart.None? && jobId in t.stats && newIv != old_.scheduleInterval ==>
                    r.value.tables.stats[jobId].nextStart == TimestampPlusInterval(t.stats[jobId].lastFinish, newIv))
              && (args.nextStart.None? && newIv == old_.scheduleInterval ==> r.value.tables.stats == t.stats)
              && r.value.row.value.nextStart ==
                   (if jobId in r.value.tables.stats then r.value.tables.stats[jobId].nextStart else DT_NOBEGIN)
              && (args.nextStart.None? && jobId !in t.stats ==> r.value.row.value.nextStart == DT_NOBEGIN)
  {
    JobAlterOkShape(t, caller, env, jobId, nullJobId, args, ifExists, i);
  }

  /** alter_job with no arguments leaves the catalog as it is and reports the job. */
  lemma JobAlterNoArgs(t: Tables, caller: Caller, env: Env, jobId: int, i: nat)
    requires ConfigCheckable(t) && UniqueJobIds(t.jobs) && i < |t.jobs| && t.jobs[i].id == jobId
    ensures var none := AlterArgs(None, None, None, None, None, None, None);
            var r := JobAlterSpec(t, caller, env, false, true, jobId, false, none, false);
            r.Ok? ==> r.value.tables == t && r.value.row == Some(AlterRowOf(t.jobs[i], t.stats))
  {
    FindJobUnique(t.jobs, jobId, false, false, i);
    FirstJobIndexUnique(t.jobs, jobId, i);
    assert t.jobs[i := t.jobs[i]] == t.jobs;
  }

  /** The configuration alter_job leaves on the job is validated again: a successful
      call leaves only a configuration the job's procedure accepts, and one it
      rejects fails the call with the validator's error. A configuration that passes
      leaves only an explicit next start of -infinity to refuse. */
  lemma JobAlterRevalidates(t: Tables, caller: Caller, env: Env, jobId: int, args: AlterArgs, i: nat)
    requires ConfigCheckable(t) && UniqueJobIds(t.jobs) && i < |t.jobs| && t.jobs[i].id == jobId
    requires t.jobs[i].owner in caller.privilegesOf
    ensures var r := JobAlterSpec(t, caller, env, false, true, jobId, false, args, false);
            var m := Merge(t.jobs[i], args);
            var check := if m.config.Some? then JobConfigCheck(t, env, m.procSchema, m.procName, m.config.value) else Pass;
            var refused := args.nextStart.Some? && NextStartRefused(args.nextStart.value);
            && (check.Fail? ==> r == Err(check.error))
            && (check.Pass? && refused ==> r == Err(InternalError))
            && (check.Pass? && !refused ==> r.Ok?)
  {
    FindJobUnique(t.jobs, jobId, false, false, i);
    FirstJobIndexUnique(t.jobs, jobId, i);
  }

  /** alter_job cannot clear a configuration: a null argument keeps the current one. */
  lemma JobAlterKeepsConfig(t: Tables, caller: Caller, env: Env, jobId: int, args: AlterArgs, i: nat)
    requires ConfigCheckable(t) && UniqueJobIds(t.jobs) && i < |t.jobs| && t.jobs[i].id == jobId
    requires t.jobs[i].config.Some?
    ensures var r := JobAlterSpec(t, caller, env, false, true, jobId, false, args, false);
            r.Ok? ==> r.value.tables.jobs[i].config.Some? && r.value.row.value.config.Some?
  {
    JobAlterEffect(t, caller, env, jobId, false, args, false, i);
    MergeColumns(t.jobs[i], args);
  }
}
