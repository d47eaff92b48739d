/** The built-in maintenance policies (retention, reorder, compression and
    continuous-aggregate refresh): how each reads and validates its configuration,
    how it selects its work, what it does to the catalog, the fast-restart signal
    that makes the scheduler run a job again at once, and the transaction framing
    with which a job's procedure is called. */
module PolicyJob {
  import opened Base
  import opened CatalogModel
  import opened TimeUtils
  import opened ContinuousAgg

  /** The number of newest dimension slices whose chunks the reorder policy leaves alone. */
  const REORDER_SKIP_RECENT_DIM_SLICES_N: nat := 3

  /** The ambient values a policy reads: the start time of the current transaction
      (what now() returns), the job timer's current time, and the value the
      integer-now function of an integer-partitioned hypertable returns. */
  datatype Env = Env(txnStart: int, timerNow: int, integerNow: int)

  // ----------------------------------------------------------------------------
  // Fast restart

  /** The job-stat table after a fast-restart request: an existing row's next start
      becomes its last start, so the scheduler sees the job as due again; without a
      row, one is seeded whose next start is `now`. */
  function FastRestartStats(stats: map<int, JobStat>, jobId: int, now: int): (r: map<int, JobStat>)
    ensures r.Keys == stats.Keys + {jobId}
    ensures r[jobId].nextStart == if jobId in stats then stats[jobId].lastStart else now
    ensures jobId in stats ==> r[jobId].lastStart == stats[jobId].lastStart
                               && r[jobId].lastFinish == stats[jobId].lastFinish
    ensures jobId !in stats ==> r[jobId].lastStart == DT_NOBEGIN && r[jobId].lastFinish == DT_NOBEGIN
    ensures forall k :: k in stats && k != jobId ==> r[k] == stats[k]
  {
    if jobId in stats then stats[jobId := stats[jobId].(nextStart := stats[jobId].lastStart)]
    else UpsertNextStart(stats, jobId, now)
  }

  /** The next start a fast restart would write is -infinity, which the job-stat
      table refuses. */
  predicate FastRestartRefused(stats: map<int, JobStat>, jobId: int, now: int)
  {
    NextStartRefused(if jobId in stats then stats[jobId].lastStart else now)
  }

  /** A row seeded by an initial start has no last start, so until the job has run a
      fast restart of it is refused. */
  lemma SeededRowRefusesFastRestart(stats: map<int, JobStat>, jobId: int, nextStart: int, now: int)
    requires jobId !in stats
    ensures FastRestartRefused(UpsertNextStart(stats, jobId, nextStart), jobId, now)
  {
  }

  /** Asks the scheduler to run the job again immediately; the refused -infinity is an
      error that leaves the catalog alone. */
  method EnableFastRestart(cat: Catalog, jobId: int, env: Env) returns (res: Outcome)
    modifies cat
    ensures FastRestartRefused(old(cat.tables.stats), jobId, env.txnStart) ==>
              res == Fail(InternalError) && cat.tables == old(cat.tables)
    ensures !FastRestartRefused(old(cat.tables.stats), jobId, env.txnStart) ==>
              && res == Pass
              && cat.tables == old(cat.tables).(stats := FastRestartStats(old(cat.tables.stats), jobId, env.txnStart))
  {
    if jobId in cat.tables.stats {
      var stat := cat.tables.stats[jobId];
      if NextStartRefused(stat.lastStart) {
        return Fail(InternalError);
      }
      cat.tables := cat.tables.(stats := cat.tables.stats[jobId := stat.(nextStart := stat.lastStart)]);
      res := Pass;
    } else {
      res := cat.UpsertJobNextStart(jobId, env.txnStart);
    }
  }

  // ----------------------------------------------------------------------------
  // Dimension-slice and chunk queries of the storage layer

  function SliceOfDim(dimId: int): DimensionSlice -> bool
  {
    (s: DimensionSlice) => s.dimensionId == dimId
  }

  /** The range starts of a dimension's slices, in catalog order. */
  function SliceStarts(slices: seq<DimensionSlice>, dimId: int): (starts: seq<int>)
    ensures |starts| == Count(slices, SliceOfDim(dimId))
    ensures forall v :: v in starts <==> exists s :: s in slices && s.dimensionId == dimId && s.rangeStart == v
  {
    if |slices| == 0 then []
    else
      var init := SliceStarts(slices[..|slices| - 1], dimId);
      var last := slices[|slices| - 1];
      assert slices == slices[..|slices| - 1] + [last];
      if last.dimensionId == dimId then init + [last.rangeStart] else init
  }

  /** How many of the starts are at or after `v`. */
  function CountAtLeast(starts: seq<int>, v: int): (n: nat)
    ensures n <= |starts|
  {
    if |starts| == 0 then 0
    else CountAtLeast(starts[..|starts| - 1], v) + (if starts[|starts| - 1] >= v then 1 else 0)
  }

  /** The latest of the candidate starts that at least `n` of `starts` reach. */
  function LatestReachedBy(cands: seq<int>, starts: seq<int>, n: nat): (r: Option<int>)
    ensures r.Some? ==> r.value in cands && CountAtLeast(starts, r.value) >= n
    ensures r.Some? ==> forall c :: c in cands && CountAtLeast(starts, c) >= n ==> c <= r.value
    ensures r.None? <==> forall c :: c in cands ==> CountAtLeast(starts, c) < n
  {
    if |cands| == 0 then None
    else
      var init := LatestReachedBy(cands[..|cands| - 1], starts, n);
      var c := cands[|cands| - 1];
      assert cands == cands[..|cands| - 1] + [c];
      if CountAtLeast(starts, c) >= n && (init.None? || init.value < c) then Some(c) else init
  }

  /** The range start of the n-th latest slice of a dimension: in the slices ordered
      from the latest start down, the start of the n-th one, which is the latest
      start that at least n slices reach. */
  function NthLatestSliceStart(slices: seq<DimensionSlice>, dimId: int, n: nat): Option<int>
  {
    var starts := SliceStarts(slices, dimId);
    LatestReachedBy(starts, starts, n)
  }

  /** Every start reaches the earliest start. */
  lemma {:induction false} CountAtLeastEarliest(starts: seq<int>, m: int)
    requires forall v :: v in starts ==> m <= v
    ensures CountAtLeast(starts, m) == |starts|
  {
    if |starts| > 0 {
      var init := starts[..|starts| - 1];
      assert starts == init + [starts[|starts| - 1]];
      assert forall v :: v in init ==> v in starts;
      assert starts[|starts| - 1] in starts;
      CountAtLeastEarliest(init, m);
    }
  }

  /** A non-empty sequence has an earliest element. */
  lemma {:induction false} EarliestStart(starts: seq<int>) returns (m: int)
    requires |starts| > 0
    ensures m in starts && forall v :: v in starts ==> m <= v
  {
    var last := starts[|starts| - 1];
    assert starts == starts[..|starts| - 1] + [last];
    if |starts| == 1 {
      m := last;
    } else {
      var m0 := EarliestStart(starts[..|starts| - 1]);
      m := if last < m0 then last else m0;
    }
  }

  /** The n-th latest slice exists exactly when the dimension has at least n slices;
      no later start is reached by n slices. */
  lemma NthLatestSliceExists(slices: seq<DimensionSlice>, dimId: int, n: nat)
    requires n >= 1
    ensures var r := NthLatestSliceStart(slices, dimId, n);
            && (r.Some? <==> Count(slices, SliceOfDim(dimId)) >= n)
            && (r.Some? ==> forall v :: v in SliceStarts(slices, dimId) && v > r.value ==>
                              CountAtLeast(SliceStarts(slices, dimId), v) < n)
  {
    var starts := SliceStarts(slices, dimId);
    if |starts| >= n {
      var m := EarliestStart(starts);
      CountAtLeastEarliest(starts, m);
    }
  }

  /** The chunk with the earliest range start among those `p` accepts (the first in
      catalog order on a tie): what an ascending scan of the slices returns. */
  function OldestChunk(cs: seq<Chunk>, p: Chunk -> bool): (r: Option<Chunk>)
    ensures r.Some? ==> r.value in cs && p(r.value)
    ensures r.Some? ==> forall c :: c in cs && p(c) ==> r.value.timeSlice.rangeStart <= c.timeSlice.rangeStart
    ensures r.None? <==> forall c :: c in cs ==> !p(c)
  {
    if |cs| == 0 then None
    else
      var init := OldestChunk(cs[..|cs| - 1], p);
      var c := cs[|cs| - 1];
      assert cs == cs[..|cs| - 1] + [c];
      if p(c) && (init.None? || c.timeSlice.rangeStart < init.value.timeSlice.rangeStart) then Some(c)
      else init
  }

  /** The job has reordered the chunk before: its per-chunk statistics have a row. */
  predicate ReorderedBefore(chunkStats: seq<ChunkStat>, jobId: int, chunkId: int)
  {
    exists s :: s in chunkStats && s.jobId == jobId && s.chunkId == chunkId
  }

  /** A chunk the reorder policy may pick: on the dimension, starting no later than
      the n-th latest slice, neither compressed nor dropped, and never reordered by
      this job. */
  function ReorderCandidate(chunkStats: seq<ChunkStat>, jobId: int, dimId: int, nthStart: int): Chunk -> bool
  {
    (c: Chunk) =>
      && c.timeSlice.dimensionId == dimId && c.timeSlice.rangeStart <= nthStart
      && !c.compressed && !c.dropped && !ReorderedBefore(chunkStats, jobId, c.id)
  }

  /** The chunk the reorder policy picks on a hypertable, if any. */
  function ReorderChoice(t: Tables, jobId: int, ht: Hypertable): Option<Chunk>
  {
    match NthLatestSliceStart(t.slices, ht.openDim.id, REORDER_SKIP_RECENT_DIM_SLICES_N)
    case None => None
    case Some(nth) => OldestChunk(t.chunks, ReorderCandidate(t.chunkStats, jobId, ht.openDim.id, nth))
  }

  /** The chunk id the reorder policy works on next, or -1 for none. */
  function ChunkIdToReorder(t: Tables, jobId: int, ht: Hypertable): int
  {
    match ReorderChoice(t, jobId, ht)
    case None => -1
    case Some(c) => c.id
  }

  /** The reorder policy picks nothing when the time dimension has fewer than three
      slices; otherwise it picks the oldest chunk that is neither compressed, dropped
      nor reordered before, whose slice starts no later than the third latest one. */
  lemma ReorderChoiceRule(t: Tables, jobId: int, ht: Hypertable)
    ensures var nth := NthLatestSliceStart(t.slices, ht.openDim.id, REORDER_SKIP_RECENT_DIM_SLICES_N);
            var r := ReorderChoice(t, jobId, ht);
            && (Count(t.slices, SliceOfDim(ht.openDim.id)) < REORDER_SKIP_RECENT_DIM_SLICES_N ==> r.None?)
            && (r.Some? ==> && nth.Some? && r.value in t.chunks
                            && r.value.timeSlice.dimensionId == ht.openDim.id
                            && r.value.timeSlice.rangeStart <= nth.value
                            && !r.value.compressed && !r.value.dropped
                            && !ReorderedBefore(t.chunkStats, jobId, r.value.id)
                            && forall c :: c in t.chunks && ReorderCandidate(t.chunkStats, jobId, ht.openDim.id, nth.value)(c)
                                           ==> r.value.timeSlice.rangeStart <= c.timeSlice.rangeStart)
            && (nth.Some? && r.None? ==>
                  forall c :: c in t.chunks ==> !ReorderCandidate(t.chunkStats, jobId, ht.openDim.id, nth.value)(c))
  {
    NthLatestSliceExists(t.slices, ht.openDim.id, REORDER_SKIP_RECENT_DIM_SLICES_N);
  }

  /** A chunk the compression policy may pick: on the dimension, its range ending
      strictly before the boundary, and neither compressed nor dropped. */
  function CompressCandidate(dimId: int, boundary: int): Chunk -> bool
  {
    (c: Chunk) => c.timeSlice.dimensionId == dimId && c.timeSlice.rangeEnd < boundary && !c.compressed && !c.dropped
  }

  /** `now - lag` in the dimension's partitioning type: the integer-now function's
      value minus an integer lag for an integer type (whose integer-now function must
      be set), the transaction start minus an interval for a temporal type. A lag of
      the other kind is a configuration error. */
  function WindowBoundary(dim: Dimension, lag: Lag, env: Env): (r: Result<int>)
    ensures r.Ok? && dim.partitionType.IntegerType? ==> lag.IntegerLag? && r.value == env.integerNow - lag.amount
    ensures r.Ok? && dim.partitionType.TemporalType? ==> lag.IntervalLag? && r.value == env.txnStart - lag.usecs
    ensures dim.partitionType.TemporalType? && lag.IntervalLag? ==> r.Ok?
    ensures dim.partitionType.IntegerType? && lag.IntegerLag? ==> (r.Ok? <==> HasIntegerNow(dim))
  {
    match dim.partitionType
    case IntegerType(_) =>
      if !lag.IntegerLag? then Err(InvalidParameter)
      else if !HasIntegerNow(dim) then Err(InternalError)
      else Ok(env.integerNow - lag.amount)
    case TemporalType(_, _, _) =>
      if !lag.IntervalLag? then Err(InvalidParameter)
      else Ok(env.txnStart - lag.usecs)
  }

  /** The chunk the compression policy picks, if any, once the boundary is known. */
  function CompressChoice(t: Tables, dim: Dimension, lag: Lag, env: Env): Result<Option<Chunk>>
  {
    match WindowBoundary(dim, lag, env)
    case Err(e) => Err(e)
    case Ok(boundary) => Ok(OldestChunk(t.chunks, CompressCandidate(dim.id, boundary)))
  }

  /** The compression policy picks a chunk of the dimension whose range ends strictly
      before `now - lag` and that is neither compressed nor dropped, and it picks one
      whenever such a chunk exists. */
  lemma CompressChoiceRule(t: Tables, dim: Dimension, lag: Lag, env: Env)
    ensures var r := CompressChoice(t, dim, lag, env);
            var b := WindowBoundary(dim, lag, env);
            && (r.Err? <==> b.Err?)
            && (r.Ok? && r.value.Some? ==>
                  && r.value.value in t.chunks && r.value.value.timeSlice.dimensionId == dim.id
                  && r.value.value.timeSlice.rangeEnd < b.value
                  && !r.value.value.compressed && !r.value.value.dropped)
            && (r.Ok? && r.value.None? ==>
                  forall c :: c in t.chunks && c.timeSlice.dimensionId == dim.id && !c.compressed && !c.dropped
                              ==> c.timeSlice.rangeEnd >= b.value)
  {
  }

  /** The chunk id the compression policy works on next, or the invalid chunk id. */
  function ChunkToCompress(t: Tables, dim: Dimension, lag: Lag, env: Env): Result<int>
  {
    match CompressChoice(t, dim, lag, env)
    case Err(e) => Err(e)
    case Ok(None) => Ok(INVALID_CHUNK_ID)
    case Ok(Some(c)) => Ok(c.id)
  }

  // ----------------------------------------------------------------------------
  // Configuration validators

  function IndexNamed(schema: string, name: string): IndexRel -> bool
  {
    (i: IndexRel) => i.schema == schema && i.name == name
  }

  /** Relation names are unique within a schema. */
  ghost predicate UniqueRelNames(indexes: seq<IndexRel>)
  {
    forall i, j :: 0 <= i < j < |indexes| ==> !(indexes[i].schema == indexes[j].schema && indexes[i].name == indexes[j].name)
  }

  /** The reorder index must exist in the hypertable's schema and be an index on the
      hypertable's main table. */
  function CheckValidIndex(indexes: seq<IndexRel>, ht: Hypertable, indexName: string): (r: Result<IndexRel>)
    ensures r.Ok? ==> && r.value in indexes && r.value.schema == ht.schemaName && r.value.name == indexName
                      && r.value.indrelid == ht.mainTableRelid
    ensures r.Err? ==> r.error == InvalidParameter
  {
    match LastMatch(indexes, IndexNamed(ht.schemaName, indexName))
    case None => Err(InvalidParameter)
    case Some(idx) => if idx.indrelid != ht.mainTableRelid then Err(InvalidParameter) else Ok(idx)
  }

  /** With unique relation names, the index check passes exactly when the named
      index exists and is on the hypertable's main table. */
  lemma CheckValidIndexIff(indexes: seq<IndexRel>, ht: Hypertable, indexName: string)
    requires UniqueRelNames(indexes)
    ensures CheckValidIndex(indexes, ht, indexName).Ok? <==>
            exists idx :: idx in indexes && idx.schema == ht.schemaName && idx.name == indexName
                          && idx.indrelid == ht.mainTableRelid
  {
    var m := LastMatch(indexes, IndexNamed(ht.schemaName, indexName));
    if m.Some? {
      forall idx | idx in indexes && idx.schema == ht.schemaName && idx.name == indexName
        ensures idx == m.value
      {
        var i :| 0 <= i < |indexes| && indexes[i] == idx;
        var j :| 0 <= j < |indexes| && indexes[j] == m.value;
        assert !(i < j) && !(j < i);
      }
    }
  }

  /** A validated reorder configuration: the hypertable and the OID of its index. */
  datatype ReorderPolicy = ReorderPolicy(hypertable: Hypertable, indexRelid: int)

  /** The reorder configuration must name a hypertable that exists and a valid index on it. */
  function ReorderReadAndValidate(t: Tables, config: JobConfig): (r: Result<ReorderPolicy>)
    ensures r.Ok? ==> && config.ReorderConfig? && config.hypertableId in t.hypertables
                      && r.value.hypertable == t.hypertables[config.hypertableId]
    ensures r.Err? ==> r.error == InvalidParameter
  {
    match config
    case ReorderConfig(htid, indexName) =>
      if htid !in t.hypertables then Err(InvalidParameter)
      else
        (match CheckValidIndex(t.indexes, t.hypertables[htid], indexName)
         case Err(e) => Err(e)
         case Ok(idx) => Ok(ReorderPolicy(t.hypertables[htid], idx.oid)))
    case _ => Err(InvalidParameter)
  }

  /** A reorder configuration is refused when its hypertable is missing, when the
      hypertable's schema has no index of the configured name, or when that index is
      on another table; otherwise the policy carries the hypertable and the index. */
  lemma ReorderValidateRule(t: Tables, htid: int, indexName: string)
    ensures var r := ReorderReadAndValidate(t, ReorderConfig(htid, indexName));
            && (htid !in t.hypertables ==> r == Err(InvalidParameter))
            && (htid in t.hypertables ==>
                  var ht := t.hypertables[htid];
                  && ((forall i :: i in t.indexes ==> !(i.schema == ht.schemaName && i.name == indexName))
                      ==> r == Err(InvalidParameter))
                  && (r.Ok? <==> exists i :: i in t.indexes && i.schema == ht.schemaName && i.name == indexName
                                            && i.indrelid == ht.mainTableRelid
                                            && r == Ok(ReorderPolicy(ht, i.oid))))
  {
    if htid in t.hypertables {
      var ht := t.hypertables[htid];
      var p := IndexNamed(ht.schemaName, indexName);
      var m := LastMatch(t.indexes, p);
      if m.Some? && m.value.indrelid == ht.mainTableRelid {
        assert m.value in t.indexes && m.value.schema == ht.schemaName && m.value.name == indexName;
      }
    }
  }

  /** The open dimension a policy computes its boundary on: the hypertable's own for
      a temporal type; for an integer type, the first dimension on the chain from the
      hypertable through the hypertables it aggregates that has an integer-now
      function, which must exist. */
  function OpenDimensionFor(t: Tables, ht: Hypertable): (r: Result<Dimension>)
    requires HypertablesWellFormed(t.hypertables) && CaggChainWellFormed(t.caggs, t.hypertables)
    requires ht.id in t.hypertables
    ensures ht.openDim.partitionType.TemporalType? ==> r == Ok(ht.openDim)
    ensures ht.openDim.partitionType.IntegerType? ==>
              (r.Err? <==> IntegerNowOnChain(t.hypertables, t.caggs, ht.id).None?)
    ensures r.Err? ==> r.error == InternalError
  {
    if ht.openDim.partitionType.IntegerType? then
      match IntegerNowOnChain(t.hypertables, t.caggs, ht.id)
      case None => Err(InternalError)
      case Some(dim) => Ok(dim)
    else Ok(ht.openDim)
  }

  /** A validated retention configuration: what to drop chunks on, and before which
      boundary of which type. */
  datatype RetentionPolicy = RetentionPolicy(target: DropTarget, boundary: int, boundaryType: PartitionType)

  /** The retention configuration: the hypertable must exist, its boundary dimension
      must be found, and the drop is redirected to the continuous aggregate's user
      view when the hypertable materializes one. */
  function RetentionReadAndValidate(t: Tables, config: JobConfig, env: Env): Result<RetentionPolicy>
    requires HypertablesWellFormed(t.hypertables) && CaggChainWellFormed(t.caggs, t.hypertables)
  {
    match config
    case RetentionConfig(htid, dropAfter) =>
      if htid !in t.hypertables then Err(HypertableNotFound)
      else
        var ht := t.hypertables[htid];
        (match OpenDimensionFor(t, ht)
         case Err(e) => Err(e)
         case Ok(dim) =>
           (match WindowBoundary(dim, dropAfter, env)
            case Err(e) => Err(e)
            case Ok(boundary) =>
              var target := match LastMatch(t.caggs, MatIdIs(ht.id))
                            case Some(cagg) => ViewTarget(cagg.userView)
                            case None => HypertableTarget(ht.mainTableRelid);
              Ok(RetentionPolicy(target, boundary, dim.partitionType))))
    case _ => Err(InvalidParameter)
  }

  /** Retention drops chunks of the continuous aggregate's user view when the
      hypertable is a materialization hypertable, and of the hypertable itself
      otherwise; an integer-partitioned hypertable with no integer-now function on
      its chain is an error. */
  lemma RetentionTarget(t: Tables, htid: int, dropAfter: Lag, env: Env)
    requires HypertablesWellFormed(t.hypertables) && CaggChainWellFormed(t.caggs, t.hypertables)
    requires UniqueMatIds(t.caggs)
    ensures var r := RetentionReadAndValidate(t, RetentionConfig(htid, dropAfter), env);
            && (htid !in t.hypertables ==> r == Err(HypertableNotFound))
            && ((htid in t.hypertables && t.hypertables[htid].openDim.partitionType.IntegerType?
                 && IntegerNowOnChain(t.hypertables, t.caggs, htid).None?) ==> r == Err(InternalError))
            && (r.Ok? ==> forall c :: c in t.caggs && c.matHypertableId == htid ==> r.value.target == ViewTarget(c.userView))
            && (r.Ok? && (forall c :: c in t.caggs ==> c.matHypertableId != htid) ==>
                  r.value.target == HypertableTarget(t.hypertables[htid].mainTableRelid))
  {
    if htid in t.hypertables {
      FindByMatHypertableIdUnique(t.caggs, htid);
    }
  }

  /** A validated refresh configuration: the window to refresh and the continuous
      aggregate materialized in the hypertable, if any. */
  datatype RefreshPolicy = RefreshPolicy(window: RefreshWindow, cagg: Option<CaggRow>)

  /** The refresh configuration: the materialization hypertable must exist, and the
      window computed from the two offsets must start before it ends. */
  function RefreshReadAndValidate(t: Tables, config: JobConfig, env: Env): (r: Result<RefreshPolicy>)
    requires HypertablesWellFormed(t.hypertables) && CaggChainWellFormed(t.caggs, t.hypertables)
    ensures r.Ok? ==> r.value.window.start < r.value.window.end
  {
    match config
    case RefreshConfig(matId, startOffset, endOffset) =>
      if matId !in t.hypertables then Err(InvalidParameter)
      else RefreshWindowFor(t, matId, startOffset, endOffset, env)
    case _ => Err(InvalidParameter)
  }

  /** The refresh validation once the materialization hypertable is known to exist. */
  function RefreshWindowFor(t: Tables, matId: int, startOffset: Lag, endOffset: Lag, env: Env): (r: Result<RefreshPolicy>)
    requires HypertablesWellFormed(t.hypertables) && CaggChainWellFormed(t.caggs, t.hypertables)
    requires matId in t.hypertables
    ensures r.Ok? ==> r.value.window.start < r.value.window.end
  {
    match OpenDimensionFor(t, t.hypertables[matId])
    case Err(e) => Err(e)
    case Ok(dim) =>
      match (WindowBoundary(dim, startOffset, env), WindowBoundary(dim, endOffset, env))
      case (Err(e), _) => Err(e)
      case (_, Err(e)) => Err(e)
      case (Ok(start), Ok(end)) =>
        if start >= end then Err(InvalidParameter)
        else Ok(RefreshPolicy(RefreshWindow(dim.partitionType, start, end), LastMatch(t.caggs, MatIdIs(matId))))
  }

  /** The refresh validation as the C code has it: it looks the materialization
      hypertable up and uses the result without checking it, so a configuration that
      names no hypertable dereferences NULL. */
  function RefreshReadAndValidateAsWritten(t: Tables, config: JobConfig, env: Env): Result<RefreshPolicy>
    requires HypertablesWellFormed(t.hypertables) && CaggChainWellFormed(t.caggs, t.hypertables)
  {
    match config
    case RefreshConfig(matId, startOffset, endOffset) =>
      if matId !in t.hypertables then Err(NullDereference)
      else RefreshWindowFor(t, matId, startOffset, endOffset, env)
    case _ => Err(InvalidParameter)
  }

  /** A refresh configuration naming a missing hypertable: the code as written
      dereferences null, the corrected validator refuses it as an invalid parameter
      (as the reorder validator does), and both agree on every other input. */
  lemma RefreshMissingHypertable(t: Tables, config: JobConfig, env: Env)
    requires HypertablesWellFormed(t.hypertables) && CaggChainWellFormed(t.caggs, t.hypertables)
    ensures config.RefreshConfig? && config.matHypertableId !in t.hypertables ==>
              && RefreshReadAndValidateAsWritten(t, config, env) == Err(NullDereference)
              && RefreshReadAndValidate(t, config, env) == Err(InvalidParameter)
    ensures !(config.RefreshConfig? && config.matHypertableId !in t.hypertables) ==>
              RefreshReadAndValidateAsWritten(t, config, env) == RefreshReadAndValidate(t, config, env)
  {
  }

  /** A concrete input for the finding: an empty catalog and a refresh policy on
      hypertable 7. */
  lemma RefreshMissingHypertableExample(t: Tables, env: Env)
    requires t.hypertables == map[] && t.caggs == []
    ensures RefreshReadAndValidateAsWritten(t, RefreshConfig(7, IntervalLag(0), IntervalLag(0)), env).Err?
    ensures RefreshReadAndValidateAsWritten(t, RefreshConfig(7, IntervalLag(0), IntervalLag(0)), env).error
            == NullDereference
  {
  }

  /** The refresh window is refused exactly when its start is not before its end;
      otherwise it is stored as (type, start, end). */
  lemma RefreshWindowRule(t: Tables, matId: int, startOffset: Lag, endOffset: Lag, env: Env)
    requires HypertablesWellFormed(t.hypertables) && CaggChainWellFormed(t.caggs, t.hypertables)
    requires matId in t.hypertables
    ensures var d := OpenDimensionFor(t, t.hypertables[matId]);
            var r := RefreshWindowFor(t, matId, startOffset, endOffset, env);
            d.Ok? ==>
              var s, e := WindowBoundary(d.value, startOffset, env), WindowBoundary(d.value, endOffset, env);
              s.Ok? && e.Ok? ==>
                && (r.Err? <==> s.value >= e.value)
                && (r.Err? ==> r.error == InvalidParameter)
                && (r.Ok? ==> r.value.window == RefreshWindow(d.value.partitionType, s.value, e.value))
  {
  }

  /** The compression configuration only has to name an existing hypertable. */
  function CompressionReadAndValidate(t: Tables, config: JobConfig): (r: Result<Hypertable>)
    ensures r.Ok? ==> config.CompressionConfig? && config.hypertableId in t.hypertables
                      && r.value == t.hypertables[config.hypertableId]
    ensures config.CompressionConfig? && config.hypertableId !in t.hypertables ==> r == Err(HypertableNotFound)
  {
    match config
    case CompressionConfig(htid, _) => if htid in t.hypertables then Ok(t.hypertables[htid]) else Err(HypertableNotFound)
    case _ => Err(InvalidParameter)
  }

  // ----------------------------------------------------------------------------
  // Executors

  /** One more run of a job on a chunk in the per-chunk statistics: an existing row
      counts it and records the time, otherwise a row is added with a count of one. */
  function RecordJobRun(stats: seq<ChunkStat>, jobId: int, chunkId: int, now: int): (r: seq<ChunkStat>)
    ensures ReorderedBefore(r, jobId, chunkId)
    ensures forall s :: s in stats && !(s.jobId == jobId && s.chunkId == chunkId) ==> s in r
    ensures forall s :: s in r && !(s.jobId == jobId && s.chunkId == chunkId) ==> s in stats
  {
    if ReorderedBefore(stats, jobId, chunkId) then CountRun(stats, jobId, chunkId, now)
    else stats + [ChunkStat(jobId, chunkId, 1, now)]
  }

  /** Counts a run in every row of the job and chunk. */
  function CountRun(stats: seq<ChunkStat>, jobId: int, chunkId: int, now: int): (r: seq<ChunkStat>)
    ensures |r| == |stats|
    ensures forall i :: 0 <= i < |stats| ==>
              r[i] == if stats[i].jobId == jobId && stats[i].chunkId == chunkId
                      then stats[i].(numTimesJobRun := stats[i].numTimesJobRun + 1, lastTimeJobRun := now)
                      else stats[i]
  {
    if |stats| == 0 then []
    else
      var s := stats[0];
      [if s.jobId == jobId && s.chunkId == chunkId then s.(numTimesJobRun := s.numTimesJobRun + 1, lastTimeJobRun := now)
       else s] + CountRun(stats[1..], jobId, chunkId, now)
  }

  /** The reorder policy's effect: nothing when no chunk is eligible; otherwise the
      chosen chunk is reordered with the configured index, the run is recorded, and
      a fast restart is requested when another chunk is still eligible. */
  function ReorderExecuteSpec(t: Tables, env: Env, jobId: int, config: JobConfig): Result<Tables>
  {
    match ReorderReadAndValidate(t, config)
    case Err(e) => Err(e)
    case Ok(policy) =>
      match ReorderChoice(t, jobId, policy.hypertable)
      case None => Ok(t)
      case Some(c) =>
        var t1 := t.(actions := t.actions + [ReorderChunk(c.tableId, policy.indexRelid)],
                     chunkStats := RecordJobRun(t.chunkStats, jobId, c.id, env.timerNow));
        if ReorderChoice(t1, jobId, policy.hypertable).None? then Ok(t1)
        else if FastRestartRefused(t1.stats, jobId, env.txnStart) then Err(InternalError)
        else Ok(t1.(stats := FastRestartStats(t1.stats, jobId, env.txnStart)))
  }

  /** Runs the reorder policy. */
  method PolicyReorderExecute(cat: Catalog, env: Env, jobId: int, config: JobConfig) returns (res: Result<bool>)
    modifies cat
    ensures var s := ReorderExecuteSpec(old(cat.tables), env, jobId, config);
            && (s.Err? ==> res == Err(s.error) && cat.tables == old(cat.tables))
            && (s.Ok? ==> res == Ok(true) && cat.tables == s.value)
  {
    var before := cat.tables;
    var policy := ReorderReadAndValidate(cat.tables, config);
    if policy.Err? {
      return Err(policy.error);
    }
    var ht := policy.value.hypertable;
    var chunk := ReorderChoice(cat.tables, jobId, ht);
    if chunk.None? {
      // no chunks need reordering: a notice, and success
      return Ok(true);
    }
    var c := chunk.value;
    cat.tables := cat.tables.(actions := cat.tables.actions + [ReorderChunk(c.tableId, policy.value.indexRelid)]);
    cat.tables := cat.tables.(chunkStats := RecordJobRun(cat.tables.chunkStats, jobId, c.id, env.timerNow));
    if ReorderChoice(cat.tables, jobId, ht).Some? {
      var restart := EnableFastRestart(cat, jobId, env);
      if restart.Fail? {
        // the error aborts the transaction, and the reorder with it
        cat.tables := before;
        return Err(restart.error);
      }
    }
    res := Ok(true);
  }

  /** A reorder run with no eligible chunk changes nothing; otherwise it appends
      exactly one reorder action, for the chosen chunk, which is then no longer
      eligible, and requests a fast restart exactly when another chunk is. A fast
      restart the job-stat table refuses fails the run. */
  lemma ReorderExecuteEffect(t: Tables, env: Env, jobId: int, config: JobConfig)
    ensures var s := ReorderExecuteSpec(t, env, jobId, config);
            var v := ReorderReadAndValidate(t, config);
            && (v.Err? ==> s == Err(v.error))
            && (v.Ok? && ReorderChoice(t, jobId, v.value.hypertable).None? ==> s == Ok(t))
            && (v.Ok? && ReorderChoice(t, jobId, v.value.hypertable).Some? ==>
                  var c := ReorderChoice(t, jobId, v.value.hypertable).value;
                  var t1 := t.(actions := t.actions + [ReorderChunk(c.tableId, v.value.indexRelid)],
                               chunkStats := RecordJobRun(t.chunkStats, jobId, c.id, env.timerNow));
                  var next := ReorderChoice(t1, jobId, v.value.hypertable);
                  var refused := next.Some? && FastRestartRefused(t.stats, jobId, env.txnStart);
                  && (refused ==> s == Err(InternalError))
                  && (!refused ==>
                        && s.Ok?
                        && s.value.actions == t.actions + [ReorderChunk(c.tableId, v.value.indexRelid)]
                        && ReorderedBefore(s.value.chunkStats, jobId, c.id)
                        && s.value.chunks == t.chunks
                        && ReorderChoice(s.value, jobId, v.value.hypertable) == next
                        && (next.Some? ==> s.value.stats == FastRestartStats(t.stats, jobId, env.txnStart))
                        && (next.None? ==> s.value.stats == t.stats)))
  {
    var v := ReorderReadAndValidate(t, config);
    if v.Ok? && ReorderChoice(t, jobId, v.value.hypertable).Some? {
      var c := ReorderChoice(t, jobId, v.value.hypertable).value;
      var t1 := t.(actions := t.actions + [ReorderChunk(c.tableId, v.value.indexRelid)],
                   chunkStats := RecordJobRun(t.chunkStats, jobId, c.id, env.timerNow));
      var s := ReorderExecuteSpec(t, env, jobId, config);
      assert s == Ok(t1) || s == Err(InternalError) || s == Ok(t1.(stats := FastRestartStats(t1.stats, jobId, env.txnStart)));
      if s.Ok? {
        assert ReorderChoice(s.value, jobId, v.value.hypertable) == ReorderChoice(t1, jobId, v.value.hypertable);
      }
    }
  }

  /** After a reorder run, the chunk just reordered is not picked again. */
  lemma ReorderProgress(t: Tables, env: Env, jobId: int, config: JobConfig)
    ensures var s := ReorderExecuteSpec(t, env, jobId, config);
            var v := ReorderReadAndValidate(t, config);
            v.Ok? && ReorderChoice(t, jobId, v.value.hypertable).Some? && s.Ok? ==>
              var c := ReorderChoice(t, jobId, v.value.hypertable).value;
              var next := ReorderChoice(s.value, jobId, v.value.hypertable);
              next.Some? ==> next.value.id != c.id
  {
  }

  /** Marks the chunk compressed (the storage layer's compression). */
  function MarkCompressed(chunks: seq<Chunk>, chunkId: int): (r: seq<Chunk>)
    ensures |r| == |chunks|
    ensures forall i :: 0 <= i < |chunks| ==>
              r[i] == if chunks[i].id == chunkId then chunks[i].(compressed := true) else chunks[i]
  {
    if |chunks| == 0 then []
    else
      [if chunks[0].id == chunkId then chunks[0].(compressed := true) else chunks[0]]
      + MarkCompressed(chunks[1..], chunkId)
  }

  /** The compression policy's effect: the chosen chunk, if any, is compressed; a fast
      restart is requested when a chunk is still eligible afterwards. */
  function CompressionExecuteSpec(t: Tables, env: Env, jobId: int, config: JobConfig): Result<Tables>
  {
    match CompressionReadAndValidate(t, config)
    case Err(e) => Err(e)
    case Ok(ht) =>
      match CompressChoice(t, ht.openDim, config.compressAfter, env)
      case Err(e) => Err(e)
      case Ok(choice) =>
        var t1 := match choice
                  case None => t
                  case Some(c) => t.(chunks := MarkCompressed(t.chunks, c.id),
                                     actions := t.actions + [CompressChunk(c.id)]);
        match CompressChoice(t1, ht.openDim, config.compressAfter, env)
        case Ok(Some(_)) =>
          if FastRestartRefused(t1.stats, jobId, env.txnStart) then Err(InternalError)
          else Ok(t1.(stats := FastRestartStats(t1.stats, jobId, env.txnStart)))
        case _ => Ok(t1)
  }

  /** Runs the compression policy. */
  method PolicyCompressionExecute(cat: Catalog, env: Env, jobId: int, config: JobConfig) returns (res: Result<bool>)
    modifies cat
    ensures var s := CompressionExecuteSpec(old(cat.tables), env, jobId, config);
            && (s.Err? ==> res == Err(s.error) && cat.tables == old(cat.tables))
            && (s.Ok? ==> res == Ok(true) && cat.tables == s.value)
  {
    var before := cat.tables;
    var ht := CompressionReadAndValidate(cat.tables, config);
    if ht.Err? {
      return Err(ht.error);
    }
    var dim := ht.value.openDim;
    var chunk := CompressChoice(cat.tables, dim, config.compressAfter, env);
    if chunk.Err? {
      return Err(chunk.error);
    }
    // no chunk: a notice, and the run goes on
    if chunk.value.Some? {
      var id := chunk.value.value.id;
      cat.tables := cat.tables.(chunks := MarkCompressed(cat.tables.chunks, id),
                                actions := cat.tables.actions + [CompressChunk(id)]);
    }
    var next := CompressChoice(cat.tables, dim, config.compressAfter, env);
    if next.Ok? && next.value.Some? {
      var restart := EnableFastRestart(cat, jobId, env);
      if restart.Fail? {
        // the error aborts the transaction, and the compression with it
        cat.tables := before;
        return Err(restart.error);
      }
    }
    res := Ok(true);
  }

  /** A compression run compresses at most one chunk, one whose range ends before the
      boundary, and requests a fast restart exactly when an eligible chunk remains. A
      fast restart the job-stat table refuses fails the run. */
  lemma CompressionExecuteEffect(t: Tables, env: Env, jobId: int, config: JobConfig)
    ensures var s := CompressionExecuteSpec(t, env, jobId, config);
            var v := CompressionReadAndValidate(t, config);
            && (v.Err? ==> s == Err(v.error))
            && (v.Ok? ==>
              var ch := CompressChoice(t, v.value.openDim, config.compressAfter, env);
              && (ch.Err? ==> s == Err(ch.error))
              && (ch.Ok? && ch.value.None? ==> s == Ok(t))
              && (ch.Ok? && ch.value.Some? ==>
                    var c := ch.value.value;
                    var t1 := t.(chunks := MarkCompressed(t.chunks, c.id), actions := t.actions + [CompressChunk(c.id)]);
                    var next := CompressChoice(t1, v.value.openDim, config.compressAfter, env);
                    var restart := next.Ok? && next.value.Some?;
                    && (restart && FastRestartRefused(t.stats, jobId, env.txnStart) ==> s == Err(InternalError))
                    && (!(restart && FastRestartRefused(t.stats, jobId, env.txnStart)) ==>
                          && s.Ok?
                          && s.value.actions == t.actions + [CompressChunk(c.id)]
                          && s.value.chunks == MarkCompressed(t.chunks, c.id)
                          && (restart ==> s.value.stats == FastRestartStats(t.stats, jobId, env.txnStart))
                          && (!restart ==> s.value.stats == t.stats))))
  {
    var v := CompressionReadAndValidate(t, config);
    if v.Ok? {
      var ch := CompressChoice(t, v.value.openDim, config.compressAfter, env);
      if ch.Ok? && ch.value.Some? {
        var c := ch.value.value;
        var t1 := t.(chunks := MarkCompressed(t.chunks, c.id), actions := t.actions + [CompressChunk(c.id)]);
        var s := CompressionExecuteSpec(t, env, jobId, config);
        assert s == Ok(t1) || s == Err(InternalError) || s == Ok(t1.(stats := FastRestartStats(t1.stats, jobId, env.txnStart)));
      }
    }
  }

  /** The retention policy's effect: chunks before the boundary are dropped from the
      target. */
  function RetentionExecuteSpec(t: Tables, env: Env, config: JobConfig): Result<Tables>
    requires HypertablesWellFormed(t.hypertables) && CaggChainWellFormed(t.caggs, t.hypertables)
  {
    match RetentionReadAndValidate(t, config, env)
    case Err(e) => Err(e)
    case Ok(p) => Ok(t.(actions := t.actions + [DropChunks(p.target, p.boundary, p.boundaryType)]))
  }

  /** Runs the retention policy. */
  method PolicyRetentionExecute(cat: Catalog, env: Env, config: JobConfig) returns (res: Result<bool>)
    requires HypertablesWellFormed(cat.tables.hypertables) && CaggChainWellFormed(cat.tables.caggs, cat.tables.hypertables)
    modifies cat
    ensures var s := RetentionExecuteSpec(old(cat.tables), env, config);
            && (s.Err? ==> res == Err(s.error) && cat.tables == old(cat.tables))
            && (s.Ok? ==> res == Ok(true) && cat.tables == s.value)
  {
    var policy := RetentionReadAndValidate(cat.tables, config, env);
    if policy.Err? {
      return Err(policy.error);
    }
    var p := policy.value;
    cat.tables := cat.tables.(actions := cat.tables.actions + [DropChunks(p.target, p.boundary, p.boundaryType)]);
    res := Ok(true);
  }

  /** The refresh policy's effect: the continuous aggregate is refreshed over the window. */
  function RefreshExecuteSpec(t: Tables, env: Env, config: JobConfig): Result<Tables>
    requires HypertablesWellFormed(t.hypertables) && CaggChainWellFormed(t.caggs, t.hypertables)
  {
    match RefreshReadAndValidate(t, config, env)
    case Err(e) => Err(e)
    case Ok(p) => Ok(t.(actions := t.actions + [RefreshCagg(config.matHypertableId, p.window)]))
  }

  /** Runs the continuous-aggregate refresh policy. */
  method PolicyRefreshCaggExecute(cat: Catalog, env: Env, config: JobConfig) returns (res: Result<bool>)
    requires HypertablesWellFormed(cat.tables.hypertables) && CaggChainWellFormed(cat.tables.caggs, cat.tables.hypertables)
    modifies cat
    ensures var s := RefreshExecuteSpec(old(cat.tables), env, config);
            && (s.Err? ==> res == Err(s.error) && cat.tables == old(cat.tables))
            && (s.Ok? ==> res == Ok(true) && cat.tables == s.value)
  {
    var policy := RefreshReadAndValidate(cat.tables, config, env);
    if policy.Err? {
      return Err(policy.error);
    }
    cat.tables := cat.tables.(actions := cat.tables.actions + [RefreshCagg(config.matHypertableId, policy.value.window)]);
    res := Ok(true);
  }

  /** Retention and refresh record exactly one storage action and change nothing else. */
  lemma SinglePassPolicies(t: Tables, env: Env, config: JobConfig)
    requires HypertablesWellFormed(t.hypertables) && CaggChainWellFormed(t.caggs, t.hypertables)
    ensures var r := RetentionExecuteSpec(t, env, config);
            r.Ok? ==> var p := RetentionReadAndValidate(t, config, env).value;
                      r.value == t.(actions := t.actions + [DropChunks(p.target, p.boundary, p.boundaryType)])
                      && r.value.stats == t.stats
    ensures var r := RefreshExecuteSpec(t, env, config);
            r.Ok? ==> && |r.value.actions| == |t.actions| + 1 && r.value.actions[|t.actions|].RefreshCagg?
                      && r.value.actions[|t.actions|].window.start < r.value.actions[|t.actions|].window.end
                      && r.value.stats == t.stats
  {
  }
}

module JobExecution {
  import opened Base
  import opened CatalogModel

  /** What the backend does, in order, while a job runs. */
  datatype TxnEvent =
    | StartTransaction
    | PushSnapshot
    | Invoke(kind: ProcKind, jobId: int, config: Option<JobConfig>)
    | CalleeCommit
    | PopSnapshot
    | CommitTransaction

  /** The job's procedure as seen from job_execute: whether it commits its
      transaction (which a procedure may do, leaving a new transaction with no active
      snapshot), and whether it returns or raises an error. */
  datatype Callee = Callee(commits: bool, outcome: Outcome)

  /** The events a job run produces, its outcome, and the backend state at its end
      (at the point of the error, for a failed run). */
  datatype Framing = Framing(events: seq<TxnEvent>, outcome: Outcome, inTxn: bool, snapshotActive: bool)

  /** A procedure of the given name that takes the (integer, jsonb) job arguments. */
  function ProcNamed(schema: string, name: string): Proc -> bool
  {
    (p: Proc) => p.schema == schema && p.name == name && p.takesJobArguments
  }

  /** The procedure a job's (schema, name) resolves to. */
  function JobProc(procs: seq<Proc>, job: Job): Option<Proc>
  {
    LastMatch(procs, ProcNamed(job.procSchema, job.procName))
  }

  /** The procedure commits: only a procedure can, and only if it chooses to. */
  function Commits(kind: ProcKind, callee: Callee): bool
  {
    callee.commits && kind == ProcedureKind
  }

  /** What job_execute sets up before resolving the procedure. */
  function SetupEvents(inTxn0: bool, snap0: bool): seq<TxnEvent>
  {
    (if inTxn0 then [] else [StartTransaction]) + (if snap0 then [] else [PushSnapshot])
  }

  /** The call itself, with the procedure's own commit. */
  function CallEvents(kind: ProcKind, job: Job, callee: Callee): seq<TxnEvent>
  {
    [Invoke(kind, job.id, job.config)] + (if Commits(kind, callee) then [CalleeCommit] else [])
  }

  /** What job_execute undoes after a successful call. */
  function TeardownEvents(inTxn0: bool, snap0: bool, commits: bool): seq<TxnEvent>
  {
    (if !snap0 && !commits then [PopSnapshot] else []) + (if !inTxn0 then [CommitTransaction] else [])
  }

  /** The effect of running a job from a backend that is (or is not) in a transaction
      and has (or has not) an active snapshot. */
  function JobExecuteSpec(procs: seq<Proc>, job: Job, inTxn0: bool, snap0: bool, callee: Callee): Framing
  {
    var pre := SetupEvents(inTxn0, snap0);
    match JobProc(procs, job)
    case None => Framing(pre, Fail(UndefinedFunction), true, true)
    case Some(p) =>
      if p.kind != FunctionKind && p.kind != ProcedureKind then Framing(pre, Fail(FeatureNotSupported), true, true)
      else
        var commits := Commits(p.kind, callee);
        var called := pre + CallEvents(p.kind, job, callee);
        if callee.outcome.Fail? then Framing(called, callee.outcome, true, !commits)
        else Framing(called + TeardownEvents(inTxn0, snap0, commits), Pass, inTxn0, snap0 && !commits)
  }

  /** The backend's transaction and snapshot state, with the log of what was done
      to it. Each primitive demands the state PostgreSQL demands of its caller. */
  class Backend {
    var inTxn: bool
    var snapshotActive: bool
    var trace: seq<TxnEvent>

    constructor (inTxn0: bool, snap0: bool)
      requires inTxn0 || !snap0
      ensures inTxn == inTxn0 && snapshotActive == snap0 && trace == []
    {
      inTxn, snapshotActive, trace := inTxn0, snap0, [];
    }

    method StartTransactionCommand()
      requires !inTxn
      modifies this
      ensures inTxn && snapshotActive == old(snapshotActive) && trace == old(trace) + [StartTransaction]
    {
      inTxn := true;
      trace := trace + [StartTransaction];
    }

    method PushActiveSnapshot()
      requires inTxn
      modifies this
      ensures inTxn == old(inTxn) && snapshotActive && trace == old(trace) + [PushSnapshot]
    {
      snapshotActive := true;
      trace := trace + [PushSnapshot];
    }

    /** Calls the job's procedure, which needs a transaction and an active snapshot. */
    method Call(kind: ProcKind, jobId: int, config: Option<JobConfig>, callee: Callee) returns (res: Outcome)
      requires inTxn && snapshotActive
      modifies this
      ensures var commits := callee.commits && kind == ProcedureKind;
              && res == callee.outcome && inTxn && snapshotActive == !commits
              && trace == old(trace) + [Invoke(kind, jobId, config)] + (if commits then [CalleeCommit] else [])
    {
      trace := trace + [Invoke(kind, jobId, config)];
      if callee.commits && kind == ProcedureKind {
        snapshotActive := false;
        trace := trace + [CalleeCommit];
      }
      res := callee.outcome;
    }

    method PopActiveSnapshot()
      requires snapshotActive
      modifies this
      ensures inTxn == old(inTxn) && !snapshotActive && trace == old(trace) + [PopSnapshot]
    {
      snapshotActive := false;
      trace := trace + [PopSnapshot];
    }

    /** Commits the transaction; a snapshot still active here would be leaked. */
    method CommitTransactionCommand()
      requires inTxn && !snapshotActive
      modifies this
      ensures !inTxn && !snapshotActive && trace == old(trace) + [CommitTransaction]
    {
      inTxn := false;
      trace := trace + [CommitTransaction];
    }
  }

  /** Runs a job's procedure: starts a transaction and pushes a snapshot when there is
      none, resolves the procedure, calls it as a function or a procedure, and undoes
      only what it set up itself and the callee has not already undone. */
  method JobExecute(be: Backend, procs: seq<Proc>, job: Job, callee: Callee) returns (res: Outcome)
    requires be.inTxn || !be.snapshotActive
    modifies be
    ensures var f := JobExecuteSpec(procs, job, old(be.inTxn), old(be.snapshotActive), callee);
            && res == f.outcome && be.trace == old(be.trace) + f.events
            && be.inTxn == f.inTxn && be.snapshotActive == f.snapshotActive
  {
    var transactionStarted := false;
    var pushedSnapshot := false;
    ghost var inTxn0, snap0 := be.inTxn, be.snapshotActive;
    if !be.inTxn {
      transactionStarted := true;
      be.StartTransactionCommand();
    }
    if !be.snapshotActive {
      pushedSnapshot := true;
      be.PushActiveSnapshot();
    }
    ghost var pre := SetupEvents(inTxn0, snap0);
    assert be.trace == old(be.trace) + pre;
    assert transactionStarted == !inTxn0 && pushedSnapshot == !snap0 && be.inTxn && be.snapshotActive;
    var proc := JobProc(procs, job);
    if proc.None? {
      return Fail(UndefinedFunction);
    }
    var kind := proc.value.kind;
    if kind != FunctionKind && kind != ProcedureKind {
      return Fail(FeatureNotSupported);
    }
    res := be.Call(kind, job.id, job.config, callee);
    ghost var called := pre + CallEvents(kind, job, callee);
    assert be.trace == old(be.trace) + called;
    assert be.snapshotActive == !Commits(kind, callee);
    if res.Fail? {
      return;
    }
    Teardown(be, transactionStarted, pushedSnapshot);
    assert be.trace == old(be.trace) + called + TeardownEvents(inTxn0, snap0, Commits(kind, callee));
  }

  /** Pops the snapshot job_execute pushed if the procedure has not already removed it,
      then commits the transaction job_execute started. */
  method Teardown(be: Backend, transactionStarted: bool, pushedSnapshot: bool)
    requires be.inTxn && (transactionStarted ==> pushedSnapshot)
    modifies be
    ensures be.trace == old(be.trace) + TeardownEvents(!transactionStarted, !pushedSnapshot, !old(be.snapshotActive))
    ensures be.inTxn == !transactionStarted && be.snapshotActive == (old(be.snapshotActive) && !pushedSnapshot)
  {
    if pushedSnapshot && be.snapshotActive {
      be.PopActiveSnapshot();
    }
    if transactionStarted {
      be.CommitTransactionCommand();
    }
  }

  /** The events of a run: the setup, then the call unless the procedure does not
      resolve to a function or procedure, then the teardown after a successful call. */
  lemma JobExecuteEvents(procs: seq<Proc>, job: Job, inTxn0: bool, snap0: bool, callee: Callee)
    ensures var f := JobExecuteSpec(procs, job, inTxn0, snap0, callee);
            var p := JobProc(procs, job);
            var pre := SetupEvents(inTxn0, snap0);
            if p.None? || p.value.kind !in {FunctionKind, ProcedureKind} then f.events == pre
            else if callee.outcome.Fail? then f.events == pre + CallEvents(p.value.kind, job, callee)
            else f.events == pre + CallEvents(p.value.kind, job, callee)
                             + TeardownEvents(inTxn0, snap0, Commits(p.value.kind, callee))
  {
  }

  /** job_execute starts a transaction only when there is none and pushes a snapshot
      only when none is active. */
  lemma JobExecuteSetsUp(procs: seq<Proc>, job: Job, inTxn0: bool, snap0: bool, callee: Callee)
    ensures var f := JobExecuteSpec(procs, job, inTxn0, snap0, callee);
            && (StartTransaction in f.events <==> !inTxn0)
            && (PushSnapshot in f.events <==> !snap0)
  {
    JobExecuteEvents(procs, job, inTxn0, snap0, callee);
  }

  /** A successful run leaves the backend's transaction state as it found it, and its
      snapshot state too unless the procedure committed; job_execute pops only a
      snapshot it pushed and the procedure left, and commits, as its last step, only
      a transaction it started. */
  lemma JobExecuteRestoresState(procs: seq<Proc>, job: Job, inTxn0: bool, snap0: bool, callee: Callee)
    ensures var f := JobExecuteSpec(procs, job, inTxn0, snap0, callee);
            && (f.outcome == Pass ==> f.inTxn == inTxn0 && f.snapshotActive == (snap0 && CalleeCommit !in f.events))
            && (PopSnapshot in f.events ==> !snap0 && CalleeCommit !in f.events)
            && (CommitTransaction in f.events <==> !inTxn0 && f.outcome == Pass)
            && (CommitTransaction in f.events ==> f.events[|f.events| - 1] == CommitTransaction)
  {
    JobExecuteEvents(procs, job, inTxn0, snap0, callee);
  }

  /** When the procedure commits, the snapshot job_execute pushed is gone with the
      old transaction, so it is not popped; and the run commits at most once itself. */
  lemma JobExecuteCalleeCommits(procs: seq<Proc>, job: Job, inTxn0: bool, snap0: bool, callee: Callee)
    ensures var f := JobExecuteSpec(procs, job, inTxn0, snap0, callee);
            && (CalleeCommit in f.events ==> PopSnapshot !in f.events)
            && (CalleeCommit !in f.events && f.outcome == Pass && !snap0 ==> PopSnapshot in f.events)
            && (CalleeCommit in f.events ==> JobProc(procs, job).value.kind == ProcedureKind && callee.commits)
  {
    JobExecuteEvents(procs, job, inTxn0, snap0, callee);
  }

  /** The procedure receives the job's id and its configuration, which is null exactly
      when the job has none; only functions and procedures are called, and a name that
      does not resolve is an error. */
  lemma JobExecuteCall(procs: seq<Proc>, job: Job, inTxn0: bool, snap0: bool, callee: Callee)
    ensures var f := JobExecuteSpec(procs, job, inTxn0, snap0, callee);
            var p := JobProc(procs, job);
            && ((p.None? || p.value.kind in {AggregateKind, WindowKind}) ==>
                  && f.outcome == Fail(if p.None? then UndefinedFunction else FeatureNotSupported)
                  && forall e :: e in f.events ==> !e.Invoke?)
            && (p.Some? && p.value.kind in {FunctionKind, ProcedureKind} ==>
                  forall e :: e in f.events && e.Invoke? ==> e == Invoke(p.value.kind, job.id, job.config))
            && ((forall q :: q in procs ==> !ProcNamed(job.procSchema, job.procName)(q)) ==> p.None?)
  {
    var f := JobExecuteSpec(procs, job, inTxn0, snap0, callee);
    var pre := (if inTxn0 then [] else [StartTransaction]) + (if snap0 then [] else [PushSnapshot]);
    assert forall e :: e in pre ==> !e.Invoke?;
    var p := JobProc(procs, job);
    if p.Some? && p.value.kind in {FunctionKind, ProcedureKind} {
      var commits := callee.commits && p.value.kind == ProcedureKind;
      var called := pre + [Invoke(p.value.kind, job.id, job.config)] + (if commits then [CalleeCommit] else []);
      var tail := (if !snap0 && !commits then [PopSnapshot] else []) + (if !inTxn0 then [CommitTransaction] else []);
      assert f.events == called || f.events == called + tail;
      assert forall e :: e in tail ==> !e.Invoke?;
    }
  }
}
