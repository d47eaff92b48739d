/** The catalog tables the background-job core reads and writes, as plain rows.

    `Tables` is a value snapshot of every table; the class `Catalog` holds the
    current tables, which the imperative operations update in place. Rows of PostgreSQL's own
    catalogs that the core consults (procedures, indexes, views) are kept here too,
    reduced to the columns the core looks at. */
module CatalogModel {
  import opened Base

  /** A schema-qualified relation name. */
  datatype QualName = QualName(schema: string, name: string)

  /** A policy's lag: an integer offset for integer-partitioned tables, or an
      interval (in microseconds) for time-partitioned ones. */
  datatype Lag = IntegerLag(amount: int) | IntervalLag(usecs: int)

  /** A job's configuration document, already parsed into the closed set of shapes
      the built-in policies read; any other document is `CustomConfig`. */
  datatype JobConfig =
    | RetentionConfig(hypertableId: int, dropAfter: Lag)
    | ReorderConfig(hypertableId: int, indexName: string)
    | CompressionConfig(hypertableId: int, compressAfter: Lag)
    | RefreshConfig(matHypertableId: int, startOffset: Lag, endOffset: Lag)
    | CustomConfig(document: string)

  /** A row of the job table. Intervals are microseconds. */
  datatype Job = Job(
    id: int,
    applicationName: string,
    jobType: string,
    scheduleInterval: int,
    maxRuntime: int,
    maxRetries: int,
    retryPeriod: int,
    procSchema: string,
    procName: string,
    owner: string,
    scheduled: bool,
    hypertableId: int,
    config: Option<JobConfig>)

  /** A row of the job-stat table (only the scheduling columns the core touches). */
  datatype JobStat = JobStat(lastStart: int, lastFinish: int, nextStart: int)

  datatype ProcKind = FunctionKind | ProcedureKind | AggregateKind | WindowKind

  /** A row of pg_proc: its OID, schema, name and kind, and whether it takes the
      (integer, jsonb) arguments a job's procedure is called with. */
  datatype Proc = Proc(oid: int, schema: string, name: string, kind: ProcKind, takesJobArguments: bool)

  datatype IntWidth = Int16 | Int32 | Int64

  /** The type a dimension is partitioned on. Integer types carry their width; the
      range of a temporal type is carried with it. */
  datatype PartitionType =
    | IntegerType(width: IntWidth)
    | TemporalType(typeName: string, min: int, max: int)

  datatype Dimension = Dimension(
    id: int,
    hypertableId: int,
    partitionType: PartitionType,
    integerNowFuncSchema: string,
    integerNowFunc: string)

  /** A hypertable with its first open ("time") dimension. */
  datatype Hypertable = Hypertable(
    id: int,
    schemaName: string,
    tableName: string,
    mainTableRelid: int,
    openDim: Dimension)

  datatype DimensionSlice = DimensionSlice(id: int, dimensionId: int, rangeStart: int, rangeEnd: int)

  /** A chunk with the slice it occupies on its hypertable's open dimension. */
  datatype Chunk = Chunk(
    id: int,
    hypertableId: int,
    tableId: int,
    timeSlice: DimensionSlice,
    compressed: bool,
    dropped: bool)

  /** A row of the per-chunk policy statistics table. */
  datatype ChunkStat = ChunkStat(jobId: int, chunkId: int, numTimesJobRun: int, lastTimeJobRun: int)

  /** An index relation of pg_class/pg_index: its OID, name and the table it indexes. */
  datatype IndexRel = IndexRel(oid: int, schema: string, name: string, indrelid: int)

  /** A row of the continuous-aggregate table. */
  datatype CaggRow = CaggRow(
    matHypertableId: int,
    rawHypertableId: int,
    userView: QualName,
    partialView: QualName,
    directView: QualName,
    bucketWidth: int)

  datatype InvalidationLogRow = InvalidationLogRow(hypertableId: int, lowestModified: int, greatestModified: int)
  datatype InvalidationThresholdRow = InvalidationThresholdRow(hypertableId: int, watermark: int)

  /** The object drop_chunks is invoked on. */
  datatype DropTarget = HypertableTarget(relid: int) | ViewTarget(view: QualName)

  datatype RefreshWindow = RefreshWindow(windowType: PartitionType, start: int, end: int)

  /** Storage-layer actions the core invokes, recorded in call order. */
  datatype StorageAction =
    | ReorderChunk(chunkTableId: int, indexRelid: int)
    | CompressChunk(chunkId: int)
    | DropChunks(target: DropTarget, boundary: int, boundaryType: PartitionType)
    | RefreshCagg(matHypertableId: int, window: RefreshWindow)
    | DropView(view: QualName)
    | DropInvalidationTrigger(rawHypertableId: int)
    | DropHypertable(hypertableId: int)

  /** A snapshot of every table the core reads or writes. */
  datatype Tables = Tables(
    jobs: seq<Job>,
    stats: map<int, JobStat>,
    nextJobId: int,
    procs: seq<Proc>,
    hypertables: map<int, Hypertable>,
    chunks: seq<Chunk>,
    slices: seq<DimensionSlice>,
    chunkStats: seq<ChunkStat>,
    indexes: seq<IndexRel>,
    caggs: seq<CaggRow>,
    hypertableInvalidationLog: seq<InvalidationLogRow>,
    invalidationThreshold: seq<InvalidationThresholdRow>,
    materializationInvalidationLog: seq<InvalidationLogRow>,
    views: set<QualName>,
    invalidationTriggers: set<int>,
    actions: seq<StorageAction>)

  /** The job-stat row created when only a next start is seeded: nothing has run yet. */
  function SeededStat(nextStart: int): JobStat
  {
    JobStat(DT_NOBEGIN, DT_NOBEGIN, nextStart)
  }

  /** -infinity marks an unset next start; the job-stat table refuses it as a next
      start from every writer except the interval recompute of alter_job. */
  predicate NextStartRefused(nextStart: int)
  {
    nextStart == DT_NOBEGIN
  }

  /** Upsert of a job's next start: overwrite it in an existing row, or seed a row. */
  function UpsertNextStart(stats: map<int, JobStat>, jobId: int, nextStart: int): (r: map<int, JobStat>)
    ensures r.Keys == stats.Keys + {jobId}
    ensures r[jobId].nextStart == nextStart
    ensures jobId in stats ==> r[jobId] == stats[jobId].(nextStart := nextStart)
    ensures forall k :: k in stats && k != jobId ==> r[k] == stats[k]
  {
    if jobId in stats then stats[jobId := stats[jobId].(nextStart := nextStart)]
    else stats[jobId := SeededStat(nextStart)]
  }

  /** Keeps the job rows whose id is not `jobId`. */
  function JobIdOtherThan(jobId: int): Job -> bool
  {
    (j: Job) => j.id != jobId
  }

  /** Keeps the chunk-stat rows that do not belong to job `jobId`. */
  function StatOfJobOtherThan(jobId: int): ChunkStat -> bool
  {
    (s: ChunkStat) => s.jobId != jobId
  }

  /** Deleting a job (by id) removes its row and, through the catalog's cascading
      foreign keys, its job-stat row and its per-chunk statistics. */
  function DeleteJob(t: Tables, jobId: int): (r: Tables)
    ensures forall j :: j in r.jobs <==> j in t.jobs && j.id != jobId
    ensures r.stats == t.stats - {jobId}
    ensures forall s :: s in r.chunkStats <==> s in t.chunkStats && s.jobId != jobId
    ensures r == t.(jobs := r.jobs, stats := r.stats, chunkStats := r.chunkStats)
  {
    t.(jobs := Filter(t.jobs, JobIdOtherThan(jobId)),
       stats := t.stats - {jobId},
       chunkStats := Filter(t.chunkStats, StatOfJobOtherThan(jobId)))
  }

  /** The relation OID of a hypertable's main table, or InvalidOid for an unknown id. */
  function HypertableRelid(hypertables: map<int, Hypertable>, id: int): int
  {
    if id in hypertables then hypertables[id].mainTableRelid else INVALID_OID
  }

  /** Job ids are the job table's primary key. */
  ghost predicate UniqueJobIds(jobs: seq<Job>)
  {
    forall i, j :: 0 <= i < j < |jobs| ==> jobs[i].id != jobs[j].id
  }

  /** The materialization hypertable id is the continuous-aggregate table's primary key. */
  ghost predicate UniqueMatIds(caggs: seq<CaggRow>)
  {
    forall i, j :: 0 <= i < j < |caggs| ==> caggs[i].matHypertableId != caggs[j].matHypertableId
  }

  /** Both hypertable ids of every continuous aggregate are hypertables (foreign
      keys), and ids are positive. A raw hypertable's id is also smaller than its
      materialization's. No key enforces that: it holds because hypertable ids come
      from a sequence and a materialization hypertable is created after the
      hypertable it aggregates. It makes the raw/materialization chain acyclic. */
  ghost predicate CaggChainWellFormed(caggs: seq<CaggRow>, hypertables: map<int, Hypertable>)
  {
    forall r :: r in caggs ==>
      && r.rawHypertableId in hypertables
      && r.matHypertableId in hypertables
      && 0 < r.rawHypertableId < r.matHypertableId
  }

  /** Hypertable ids are positive, and each hypertable is stored under its own id
      with its open dimension pointing back to it. */
  ghost predicate HypertablesWellFormed(hypertables: map<int, Hypertable>)
  {
    forall id :: id in hypertables ==>
      id > 0 && hypertables[id].id == id && hypertables[id].openDim.hypertableId == id
  }

  /** The catalog's integrity: what its keys and foreign keys guarantee, and the id
      order of `CaggChainWellFormed` that hypertable creation gives. */
  ghost predicate CatalogWellFormed(t: Tables)
  {
    && UniqueJobIds(t.jobs)
    && UniqueMatIds(t.caggs)
    && HypertablesWellFormed(t.hypertables)
    && CaggChainWellFormed(t.caggs, t.hypertables)
  }

  /** The catalog, as the mutable state the operations change in place. Every
      operation replaces the tables it changes and states its effect as a function
      of the tables before the call. */
  class Catalog {
    var tables: Tables

    constructor (t: Tables)
      ensures tables == t
    {
      tables := t;
    }

    /** Upserts a job's next start, as UpsertNextStart describes; -infinity is an
        error that leaves the table alone. */
    method UpsertJobNextStart(jobId: int, nextStart: int) returns (res: Outcome)
      modifies this
      ensures NextStartRefused(nextStart) ==> res == Fail(InternalError) && tables == old(tables)
      ensures !NextStartRefused(nextStart) ==>
                res == Pass && tables == old(tables).(stats := UpsertNextStart(old(tables).stats, jobId, nextStart))
    {
      if NextStartRefused(nextStart) {
        return Fail(InternalError);
      }
      tables := tables.(stats := UpsertNextStart(tables.stats, jobId, nextStart));
      res := Pass;
    }
  }
}
