/** The continuous-aggregate catalog: classifying a relation name as one of a
    continuous aggregate's three views, the lookups by hypertable id and by view
    name, renames, the walk to the inherited integer-now function, the watermark
    that real-time aggregation reads, and the drop cascades. */
module ContinuousAgg {
  import opened Base
  import opened CatalogModel
  import opened TimeUtils
  import opened BgwPolicy

  // ----------------------------------------------------------------------------
  // View classification

  /** The role a relation plays for a continuous aggregate; `AnyView` means the
      name is none of its views. */
  datatype ViewType = UserView | PartialView | DirectView | AnyView

  /** The name a continuous aggregate stores for one of its views. */
  function ViewName(row: CaggRow, vt: ViewType): QualName
    requires vt != AnyView
  {
    match vt
    case UserView => row.userView
    case PartialView => row.partialView
    case DirectView => row.directView
  }

  /** Classifies a schema-qualified name against a continuous aggregate's views;
      the user view is tried first, then the partial, then the direct view. */
  function ViewTypeOf(row: CaggRow, schema: string, name: string): (vt: ViewType)
    ensures vt != AnyView ==> ViewName(row, vt) == QualName(schema, name)
    ensures vt == AnyView <==>
              row.userView != QualName(schema, name) && row.partialView != QualName(schema, name)
              && row.directView != QualName(schema, name)
    ensures vt == UserView <==> row.userView == QualName(schema, name)
    ensures vt == PartialView ==> row.userView != QualName(schema, name)
    ensures vt == DirectView ==>
              row.userView != QualName(schema, name) && row.partialView != QualName(schema, name)
  {
    if row.userView == QualName(schema, name) then UserView
    else if row.partialView == QualName(schema, name) then PartialView
    else if row.directView == QualName(schema, name) then DirectView
    else AnyView
  }

  // ----------------------------------------------------------------------------
  // Lookups

  /** Whether a hypertable is the raw table and/or the materialization of some
      continuous aggregate. */
  datatype HypertableStatus = HypertableStatus(isRawTable: bool, isMaterialization: bool)

  /** Scans the continuous aggregates, setting a flag for each role the hypertable
      plays, and stops as soon as both are set. */
  method HypertableStatusOf(caggs: seq<CaggRow>, htid: int) returns (status: HypertableStatus)
    ensures status.isRawTable <==> exists r :: r in caggs && r.rawHypertableId == htid
    ensures status.isMaterialization <==> exists r :: r in caggs && r.matHypertableId == htid
  {
    status := HypertableStatus(false, false);
    for i := 0 to |caggs|
      invariant status.isRawTable <==> exists k :: 0 <= k < i && caggs[k].rawHypertableId == htid
      invariant status.isMaterialization <==> exists k :: 0 <= k < i && caggs[k].matHypertableId == htid
    {
      if caggs[i].rawHypertableId == htid {
        status := status.(isRawTable := true);
      }
      if caggs[i].matHypertableId == htid {
        status := status.(isMaterialization := true);
      }
      if status.isRawTable && status.isMaterialization {
        return;
      }
    }
  }

  function MatIdIs(matId: int): CaggRow -> bool
  {
    (r: CaggRow) => r.matHypertableId == matId
  }

  function MatIdOtherThan(matId: int): CaggRow -> bool
  {
    (r: CaggRow) => r.matHypertableId != matId
  }

  function RawIdIs(rawId: int): CaggRow -> bool
  {
    (r: CaggRow) => r.rawHypertableId == rawId
  }

  /** The number of continuous aggregates defined on a raw hypertable. */
  method NumberOfContinuousAggsAttached(caggs: seq<CaggRow>, rawId: int) returns (count: int)
    ensures count == Count(caggs, RawIdIs(rawId))
  {
    count := 0;
    for i := 0 to |caggs|
      invariant count == Count(caggs[..i], RawIdIs(rawId))
    {
      CountSnoc(caggs, i, RawIdIs(rawId));
      if caggs[i].rawHypertableId == rawId {
        count := count + 1;
      }
    }
    assert caggs[..|caggs|] == caggs;
  }

  /** The continuous aggregates on a raw hypertable, in catalog order. */
  method FindByRawTableId(caggs: seq<CaggRow>, rawId: int) returns (found: seq<CaggRow>)
    ensures found == Filter(caggs, RawIdIs(rawId))
  {
    found := [];
    for i := 0 to |caggs|
      invariant found == Filter(caggs[..i], RawIdIs(rawId))
    {
      FilterSnoc(caggs, i, RawIdIs(rawId));
      if caggs[i].rawHypertableId == rawId {
        found := found + [caggs[i]];
      }
    }
    assert caggs[..|caggs|] == caggs;
  }

  /** The continuous aggregate materialized in a hypertable (the scan keeps the last
      row it matches; the primary key allows at most one). */
  method FindByMatHypertableId(caggs: seq<CaggRow>, matId: int) returns (cagg: Option<CaggRow>)
    ensures cagg == LastMatch(caggs, MatIdIs(matId))
  {
    cagg := None;
    for i := 0 to |caggs|
      invariant cagg == LastMatch(caggs[..i], MatIdIs(matId))
    {
      LastMatchSnoc(caggs, i, MatIdIs(matId));
      if caggs[i].matHypertableId == matId {
        cagg := Some(caggs[i]);
      }
    }
    assert caggs[..|caggs|] == caggs;
  }

  /** With materialization ids unique, the lookup by materialization id finds the
      one continuous aggregate with that id, and finds nothing exactly when there
      is none. */
  lemma FindByMatHypertableIdUnique(caggs: seq<CaggRow>, matId: int)
    requires UniqueMatIds(caggs)
    ensures var r := LastMatch(caggs, MatIdIs(matId));
            && (r.None? <==> forall x :: x in caggs ==> x.matHypertableId != matId)
            && (r.Some? ==> r.value.matHypertableId == matId
                            && forall x :: x in caggs && x.matHypertableId == matId ==> x == r.value)
  {
    var r := LastMatch(caggs, MatIdIs(matId));
    if r.Some? {
      forall x | x in caggs && x.matHypertableId == matId
        ensures x == r.value
      {
        var i :| 0 <= i < |caggs| && caggs[i] == x;
        var j :| 0 <= j < |caggs| && caggs[j] == r.value;
        assert !(i < j) && !(j < i);
      }
    }
  }

  /** A row matches a lookup by view name: for a given view type, when that view's
      name is the one looked up; for `AnyView`, when any of its views has it. */
  function ViewMatches(q: QualName, vt: ViewType): CaggRow -> bool
  {
    (r: CaggRow) =>
      if vt == AnyView then ViewTypeOf(r, q.schema, q.name) != AnyView else ViewName(r, vt) == q
  }

  /** Looks a continuous aggregate up by the name of one of its views. For a given
      view type the scan keys select that view's name; for `AnyView` every row is
      visited and classified. The last match is returned. */
  method FindByViewName(caggs: seq<CaggRow>, schema: string, name: string, vt: ViewType)
    returns (cagg: Option<CaggRow>)
    ensures cagg == LastMatch(caggs, ViewMatches(QualName(schema, name), vt))
  {
    cagg := None;
    for i := 0 to |caggs|
      invariant cagg == LastMatch(caggs[..i], ViewMatches(QualName(schema, name), vt))
    {
      LastMatchSnoc(caggs, i, ViewMatches(QualName(schema, name), vt));
      var row := caggs[i];
      if vt == AnyView || ViewName(row, vt) == QualName(schema, name) {
        var vtype := vt;
        if vtype == AnyView {
          vtype := ViewTypeOf(row, schema, name);
        }
        if vtype != AnyView {
          cagg := Some(row);
        }
      }
    }
    assert caggs[..|caggs|] == caggs;
  }

  /** A lookup for any view type finds a continuous aggregate exactly when one of
      them has a view of that name, and the one it finds has such a view; a typed
      lookup finds one whose view of that type has the name. */
  lemma FindByViewNameFinds(caggs: seq<CaggRow>, q: QualName, vt: ViewType)
    ensures var r := LastMatch(caggs, ViewMatches(q, AnyView));
            && (r.Some? <==> exists x :: x in caggs && q in [x.userView, x.partialView, x.directView])
            && (r.Some? ==> q in [r.value.userView, r.value.partialView, r.value.directView])
    ensures vt != AnyView && LastMatch(caggs, ViewMatches(q, vt)).Some? ==>
              ViewName(LastMatch(caggs, ViewMatches(q, vt)).value, vt) == q
  {
    var r := LastMatch(caggs, ViewMatches(q, AnyView));
    if r.None? {
      forall x | x in caggs
        ensures q !in [x.userView, x.partialView, x.directView]
      {
        assert !ViewMatches(q, AnyView)(x);
      }
    } else {
      assert ViewMatches(q, AnyView)(r.value);
    }
  }

  /** Looks a continuous aggregate up by the name of its user view. */
  method FindUserViewName(caggs: seq<CaggRow>, schema: string, name: string)
    returns (cagg: Option<CaggRow>)
    ensures cagg == LastMatch(caggs, ViewMatches(QualName(schema, name), UserView))
  {
    cagg := FindByViewName(caggs, schema, name, UserView);
  }

  /** Looks a continuous aggregate up by its user view's relation OID; `relNames`
      resolves an OID to its schema-qualified name, and an unknown OID finds none. */
  method FindByRelid(caggs: seq<CaggRow>, relNames: map<int, QualName>, relid: int)
    returns (cagg: Option<CaggRow>)
    ensures relid !in relNames ==> cagg == None
    ensures relid in relNames ==> cagg == LastMatch(caggs, ViewMatches(relNames[relid], UserView))
  {
    if relid !in relNames {
      return None;
    }
    var q := relNames[relid];
    cagg := FindUserViewName(caggs, q.schema, q.name);
  }

  // ----------------------------------------------------------------------------
  // Renames

  function RenameSchemaInName(q: QualName, oldSchema: string, newSchema: string): QualName
  {
    if q.schema == oldSchema then q.(schema := newSchema) else q
  }

  /** A row after a schema rename: each view living in the old schema moves to the
      new one. */
  function RenameSchemaInRow(row: CaggRow, oldSchema: string, newSchema: string): CaggRow
  {
    row.(userView := RenameSchemaInName(row.userView, oldSchema, newSchema),
         partialView := RenameSchemaInName(row.partialView, oldSchema, newSchema),
         directView := RenameSchemaInName(row.directView, oldSchema, newSchema))
  }

  /** ALTER SCHEMA ... RENAME: rewrites the schema of every view name stored in the
      old schema, updating only the rows that change. */
  method RenameSchemaName(cat: Catalog, oldSchema: string, newSchema: string)
    modifies cat
    ensures |cat.tables.caggs| == |old(cat.tables.caggs)|
    ensures forall i :: 0 <= i < |cat.tables.caggs| ==>
              cat.tables.caggs[i] == RenameSchemaInRow(old(cat.tables.caggs)[i], oldSchema, newSchema)
    ensures cat.tables == old(cat.tables).(caggs := cat.tables.caggs)
  {
    ghost var t0 := cat.tables;
    var rows := cat.tables.caggs;
    for i := 0 to |rows|
      invariant |cat.tables.caggs| == |rows|
      invariant forall k :: 0 <= k < i ==> cat.tables.caggs[k] == RenameSchemaInRow(rows[k], oldSchema, newSchema)
      invariant forall k :: i <= k < |rows| ==> cat.tables.caggs[k] == rows[k]
      invariant cat.tables == t0.(caggs := cat.tables.caggs)
    {
      var row := cat.tables.caggs[i];
      var newRow := row;
      if row.userView.schema == oldSchema {
        newRow := newRow.(userView := newRow.userView.(schema := newSchema));
      }
      if row.partialView.schema == oldSchema {
        newRow := newRow.(partialView := newRow.partialView.(schema := newSchema));
      }
      if row.directView.schema == oldSchema {
        newRow := newRow.(directView := newRow.directView.(schema := newSchema));
      }
      if newRow != row {
        cat.tables := cat.tables.(caggs := cat.tables.caggs[i := newRow]);
      }
    }
  }

  /** A schema rename keeps every view's name and every non-view column, moves the
      views of the old schema and only those, and leaves no view in the old schema. */
  lemma RenameSchemaInRowEffect(row: CaggRow, oldSchema: string, newSchema: string, vt: ViewType)
    requires vt != AnyView
    ensures var r := RenameSchemaInRow(row, oldSchema, newSchema);
            && r.matHypertableId == row.matHypertableId
            && r.rawHypertableId == row.rawHypertableId
            && r.bucketWidth == row.bucketWidth
            && ViewName(r, vt).name == ViewName(row, vt).name
            && (ViewName(row, vt).schema == oldSchema ==> ViewName(r, vt).schema == newSchema)
            && (ViewName(row, vt).schema != oldSchema ==> ViewName(r, vt).schema == ViewName(row, vt).schema)
            && (oldSchema != newSchema ==> ViewName(r, vt).schema != oldSchema)
  {
  }

  /** Renaming a schema and renaming it back restores a row none of whose views was
      already in the new schema. */
  lemma RenameSchemaRoundTrip(row: CaggRow, oldSchema: string, newSchema: string)
    requires row.userView.schema != newSchema && row.partialView.schema != newSchema
    requires row.directView.schema != newSchema
    ensures RenameSchemaInRow(RenameSchemaInRow(row, oldSchema, newSchema), newSchema, oldSchema) == row
  {
  }

  /** Renaming a schema twice is renaming it once. */
  lemma RenameSchemaIdempotent(row: CaggRow, oldSchema: string, newSchema: string)
    ensures var once := RenameSchemaInRow(row, oldSchema, newSchema);
            RenameSchemaInRow(once, oldSchema, newSchema) == once
  {
  }

  /** The object type a rename statement was issued for. */
  datatype ObjectType = ViewObject | MatViewObject

  /** A row after renaming relation `q` to `nq`: the view of that name (user view
      first) takes the new name; a row with no such view is unchanged. */
  function RenameViewInRow(row: CaggRow, q: QualName, nq: QualName): CaggRow
  {
    match ViewTypeOf(row, q.schema, q.name)
    case UserView => row.(userView := nq)
    case PartialView => row.(partialView := nq)
    case DirectView => row.(directView := nq)
    case AnyView => row
  }

  /** In one row, a rename changes only the first of the user, partial and direct
      views that has the old name, and keeps the ids and the bucket width. */
  lemma RenameViewInRowEffect(row: CaggRow, q: QualName, nq: QualName)
    ensures var r := RenameViewInRow(row, q, nq);
            && r.matHypertableId == row.matHypertableId && r.rawHypertableId == row.rawHypertableId
            && r.bucketWidth == row.bucketWidth
            && (row.userView == q ==> r == row.(userView := nq))
            && (row.userView != q && row.partialView == q ==> r == row.(partialView := nq))
            && (row.userView != q && row.partialView != q && row.directView == q ==> r == row.(directView := nq))
            && (row.userView != q && row.partialView != q && row.directView != q ==> r == row)
  {
  }

  /** The rows a rename scan has produced so far and the object type it carries. */
  datatype Renamed = Renamed(rows: seq<CaggRow>, objectType: ObjectType)

  /** The rename scan over `rows`, row by row: renaming a user view is refused when
      the statement is ALTER VIEW, and otherwise turns the statement's object type
      into a view, so that a second user-view match is refused too. */
  function RenameViewScan(rows: seq<CaggRow>, q: QualName, nq: QualName, ot: ObjectType): Result<Renamed>
  {
    if |rows| == 0 then Ok(Renamed([], ot))
    else
      match RenameViewScan(rows[..|rows| - 1], q, nq, ot)
      case Err(e) => Err(e)
      case Ok(done) =>
        var row := rows[|rows| - 1];
        if ViewTypeOf(row, q.schema, q.name) == UserView then
          if done.objectType == ViewObject then Err(FeatureNotSupported)
          else Ok(Renamed(done.rows + [RenameViewInRow(row, q, nq)], ViewObject))
        else Ok(Renamed(done.rows + [RenameViewInRow(row, q, nq)], done.objectType))
  }

  function UserViewIs(q: QualName): CaggRow -> bool
  {
    (r: CaggRow) => r.userView == q
  }

  /** The outcome of a rename, by the number n of continuous aggregates whose user
      view has the old name: it fails (feature not supported) exactly when n >= 1
      under ALTER VIEW or n >= 2; otherwise every row is renamed and the object type
      becomes a view when n = 1. */
  lemma {:induction false} RenameViewOutcome(rows: seq<CaggRow>, q: QualName, nq: QualName, ot: ObjectType)
    ensures var n := Count(rows, UserViewIs(q));
            var r := RenameViewScan(rows, q, nq, ot);
            && (r.Err? <==> (n >= 1 && ot == ViewObject) || n >= 2)
            && (r.Err? ==> r.error == FeatureNotSupported)
            && (r.Ok? ==> && |r.value.rows| == |rows|
                          && (forall i :: 0 <= i < |rows| ==> r.value.rows[i] == RenameViewInRow(rows[i], q, nq))
                          && r.value.objectType == (if n >= 1 then ViewObject else ot))
  {
    if |rows| > 0 {
      RenameViewOutcome(rows[..|rows| - 1], q, nq, ot);
    }
  }

  /** Once the scan has failed on a prefix, the whole scan fails with that error. */
  lemma {:induction false} RenameViewErrSticks(rows: seq<CaggRow>, k: nat, q: QualName, nq: QualName, ot: ObjectType)
    requires k <= |rows| && RenameViewScan(rows[..k], q, nq, ot).Err?
    ensures RenameViewScan(rows, q, nq, ot) == RenameViewScan(rows[..k], q, nq, ot)
  {
    if k < |rows| {
      var init := rows[..|rows| - 1];
      assert init[..k] == rows[..k];
      RenameViewErrSticks(init, k, q, nq, ot);
    } else {
      assert rows[..k] == rows;
    }
  }

  /** One more row of the rename scan, after a prefix that succeeded. */
  lemma RenameViewScanStep(rows: seq<CaggRow>, i: nat, q: QualName, nq: QualName, ot: ObjectType, done: Renamed)
    requires i < |rows| && RenameViewScan(rows[..i], q, nq, ot) == Ok(done)
    ensures var row := rows[i];
            var renamed := done.rows + [RenameViewInRow(row, q, nq)];
            RenameViewScan(rows[..i + 1], q, nq, ot)
              == if ViewTypeOf(row, q.schema, q.name) != UserView then Ok(Renamed(renamed, done.objectType))
                 else if done.objectType == ViewObject then Err(FeatureNotSupported)
                 else Ok(Renamed(renamed, ViewObject))
  {
    assert rows[..i + 1][..i] == rows[..i];
  }

  /** The rename scan on the contents of the continuous-aggregate table: each
      matching row is updated in place; the result is the updated table and object
      type, or the scan's error. */
  method RenameViewRows(rows: seq<CaggRow>, q: QualName, nq: QualName, objectType: ObjectType)
    returns (res: Result<Renamed>)
    ensures res == RenameViewScan(rows, q, nq, objectType)
  {
    var caggs := rows;
    var ot := objectType;
    for i := 0 to |rows|
      invariant |caggs| == |rows|
      invariant RenameViewScan(rows[..i], q, nq, objectType) == Ok(Renamed(caggs[..i], ot))
      invariant forall k :: i <= k < |rows| ==> caggs[k] == rows[k]
    {
      RenameViewScanStep(rows, i, q, nq, objectType, Renamed(caggs[..i], ot));
      var row := rows[i];
      var vt := ViewTypeOf(row, q.schema, q.name);
      if vt == UserView {
        if ot == ViewObject {
          RenameViewErrSticks(rows, i + 1, q, nq, objectType);
          return Err(FeatureNotSupported);
        }
        ot := ViewObject;
      }
      ghost var before := caggs;
      var newRow := RenameViewInRow(row, q, nq);
      if vt != AnyView {
        caggs := caggs[i := newRow];
      }
      assert caggs[..i + 1] == before[..i] + [newRow];
    }
    assert rows[..|rows|] == rows;
    assert caggs[..|rows|] == caggs;
    res := Ok(Renamed(caggs, ot));
  }

  /** ALTER VIEW / ALTER MATERIALIZED VIEW ... RENAME on the catalog: renames the
      views called `oldSchema.name` and returns the updated object type; on error
      the catalog is rolled back. */
  method RenameView(cat: Catalog, oldSchema: string, name: string, newSchema: string, newName: string,
                    objectType: ObjectType)
    returns (res: Result<ObjectType>)
    modifies cat
    ensures var r := RenameViewScan(old(cat.tables.caggs), QualName(oldSchema, name), QualName(newSchema, newName), objectType);
            && (r.Err? ==> res == Err(r.error) && cat.tables == old(cat.tables))
            && (r.Ok? ==> res == Ok(r.value.objectType) && cat.tables == old(cat.tables).(caggs := r.value.rows))
  {
    var r := RenameViewRows(cat.tables.caggs, QualName(oldSchema, name), QualName(newSchema, newName), objectType);
    if r.Err? {
      return Err(r.error);
    }
    cat.tables := cat.tables.(caggs := r.value.rows);
    res := Ok(r.value.objectType);
  }

  // ----------------------------------------------------------------------------
  // The integer-now walk

  /** The raw hypertable of the continuous aggregate materialized in `matId`, or
      the invalid hypertable id when there is none. */
  function RawHypertableFor(caggs: seq<CaggRow>, matId: int): (raw: int)
    ensures raw == INVALID_HYPERTABLE_ID
            || exists r :: r in caggs && r.matHypertableId == matId && r.rawHypertableId == raw
    ensures (forall r :: r in caggs ==> r.matHypertableId != matId) ==> raw == INVALID_HYPERTABLE_ID
  {
    match LastMatch(caggs, MatIdIs(matId))
    case None => INVALID_HYPERTABLE_ID
    case Some(r) => r.rawHypertableId
  }

  method FindRawHypertableForMaterialization(caggs: seq<CaggRow>, matId: int) returns (htid: int)
    ensures htid == RawHypertableFor(caggs, matId)
  {
    htid := INVALID_HYPERTABLE_ID;
    for i := 0 to |caggs|
      invariant htid == match LastMatch(caggs[..i], MatIdIs(matId))
                        case None => INVALID_HYPERTABLE_ID case Some(r) => r.rawHypertableId
    {
      LastMatchSnoc(caggs, i, MatIdIs(matId));
      if caggs[i].matHypertableId == matId {
        htid := caggs[i].rawHypertableId;
      }
    }
    assert caggs[..|caggs|] == caggs;
  }

  /** A dimension names an integer-now function: both its schema and its name are set. */
  predicate HasIntegerNow(d: Dimension)
  {
    |d.integerNowFunc| != 0 && |d.integerNowFuncSchema| != 0
  }

  /** The open dimension of the first hypertable on the chain materialization ->
      raw -> raw of raw ... starting at `htid` whose integer-now function is set, or
      none when the chain ends first. The walk ends only on an acyclic chain, and the
      chain is acyclic because a raw hypertable's id is smaller than its
      materialization's (`CaggChainWellFormed`). */
  function IntegerNowOnChain(hypertables: map<int, Hypertable>, caggs: seq<CaggRow>, htid: int): Option<Dimension>
    requires HypertablesWellFormed(hypertables) && CaggChainWellFormed(caggs, hypertables)
    requires htid == INVALID_HYPERTABLE_ID || htid in hypertables
    decreases if htid in hypertables then htid else 0
  {
    if htid == INVALID_HYPERTABLE_ID then None
    else
      var dim := hypertables[htid].openDim;
      if HasIntegerNow(dim) then Some(dim)
      else IntegerNowOnChain(hypertables, caggs, RawHypertableFor(caggs, htid))
  }

  /** Walks from a materialization hypertable towards its raw hypertables until one
      has an integer-now function set. */
  method FindIntegerNowFuncByMaterializationId(hypertables: map<int, Hypertable>, caggs: seq<CaggRow>, matId: int)
    returns (dim: Option<Dimension>)
    requires HypertablesWellFormed(hypertables) && CaggChainWellFormed(caggs, hypertables)
    requires matId == INVALID_HYPERTABLE_ID || matId in hypertables
    ensures dim == IntegerNowOnChain(hypertables, caggs, matId)
  {
    var rawId := matId;
    dim := None;
    while rawId != INVALID_HYPERTABLE_ID
      invariant rawId == INVALID_HYPERTABLE_ID || rawId in hypertables
      invariant dim == None
      invariant IntegerNowOnChain(hypertables, caggs, matId) == IntegerNowOnChain(hypertables, caggs, rawId)
      decreases if rawId in hypertables then rawId else 0
    {
      var openDim := hypertables[rawId].openDim;
      if |openDim.integerNowFunc| != 0 && |openDim.integerNowFuncSchema| != 0 {
        dim := Some(openDim);
        break;
      }
      var curMat := rawId;
      rawId := FindRawHypertableForMaterialization(caggs, curMat);
    }
  }

  /** The walk's result names an integer-now function and is the open dimension of a
      hypertable; the starting hypertable's own function wins; and a hypertable that
      is no materialization ends the walk at itself. */
  lemma {:induction false} IntegerNowOnChainResult(hypertables: map<int, Hypertable>, caggs: seq<CaggRow>, htid: int)
    requires HypertablesWellFormed(hypertables) && CaggChainWellFormed(caggs, hypertables)
    requires htid == INVALID_HYPERTABLE_ID || htid in hypertables
    decreases if htid in hypertables then htid else 0
    ensures var r := IntegerNowOnChain(hypertables, caggs, htid);
            && (r.Some? ==> HasIntegerNow(r.value)
                            && exists id :: id in hypertables && id <= htid && hypertables[id].openDim == r.value)
            && (htid != INVALID_HYPERTABLE_ID && HasIntegerNow(hypertables[htid].openDim) ==>
                  r == Some(hypertables[htid].openDim))
            && (htid != INVALID_HYPERTABLE_ID && (forall x :: x in caggs ==> x.matHypertableId != htid) ==>
                  r == if HasIntegerNow(hypertables[htid].openDim) then Some(hypertables[htid].openDim) else None)
  {
    if htid != INVALID_HYPERTABLE_ID && !HasIntegerNow(hypertables[htid].openDim) {
      var raw := RawHypertableFor(caggs, htid);
      IntegerNowOnChainResult(hypertables, caggs, raw);
    }
  }

  // ----------------------------------------------------------------------------
  // The watermark

  /** The value cached on the calling function's call site between calls. */
  datatype Watermark = Watermark(hyperId: int, value: int)

  /** The per-call-site cache (the call's fn_extra slot). */
  class WatermarkCache {
    var extra: Option<Watermark>

    constructor ()
      ensures extra == None
    {
      extra := None;
    }
  }

  /** The cache holds the watermark of the hypertable asked for. */
  predicate CacheAnswers(extra: Option<Watermark>, arg: Option<int>)
  {
    arg.Some? && extra.Some? && extra.value.hyperId == arg.value
  }

  /** What one watermark call returns and leaves in the cache. */
  datatype WatermarkCall = WatermarkCall(result: Result<int>, extra: Option<Watermark>)

  /** One watermark call for materialization hypertable `arg` (None is SQL NULL).
      `openDimMax` maps a hypertable to the maximum of its open dimension, absent when
      the hypertable is empty; `canSelect` is the caller's SELECT privilege on the
      continuous aggregate. A cache entry for the same hypertable answers at once; a
      stale entry is freed. The new entry is stored before the privilege check, with
      value zero, so a failed check leaves it behind. The watermark is the end of the
      last materialized bucket (the maximum plus one bucket width, saturating), or
      the type's minimum when nothing is materialized. */
  function WatermarkSpec(extra: Option<Watermark>, arg: Option<int>, caggs: seq<CaggRow>,
                         hypertables: map<int, Hypertable>, openDimMax: map<int, int>, canSelect: bool)
    : WatermarkCall
    requires CaggChainWellFormed(caggs, hypertables)
  {
    if arg.None? then WatermarkCall(Err(InvalidParameter), extra)
    else if CacheAnswers(extra, arg) then WatermarkCall(Ok(extra.value.value), extra)
    else
      match LastMatch(caggs, MatIdIs(arg.value))
      case None => WatermarkCall(Err(InvalidParameter), None)
      case Some(cagg) =>
        if !canSelect then WatermarkCall(Err(InsufficientPrivilege), Some(Watermark(arg.value, 0)))
        else
          var pt := hypertables[arg.value].openDim.partitionType;
          var value := if arg.value in openDimMax then SaturatingAdd(openDimMax[arg.value], cagg.bucketWidth, pt)
                       else TypeMin(pt);
          WatermarkCall(Ok(value), Some(Watermark(arg.value, value)))
  }

  /** The watermark function, caching its result on the call site. */
  method ContinuousAggWatermark(cache: WatermarkCache, arg: Option<int>, caggs: seq<CaggRow>,
                                hypertables: map<int, Hypertable>, openDimMax: map<int, int>, canSelect: bool)
    returns (res: Result<int>)
    requires CaggChainWellFormed(caggs, hypertables)
    modifies cache
    ensures WatermarkCall(res, cache.extra)
            == WatermarkSpec(old(cache.extra), arg, caggs, hypertables, openDimMax, canSelect)
  {
    if arg.None? {
      return Err(InvalidParameter);
    }
    var hyperId := arg.value;
    if cache.extra.Some? {
      if cache.extra.value.hyperId == hyperId {
        return Ok(cache.extra.value.value);
      }
      cache.extra := None;
    }
    var cagg := FindByMatHypertableId(caggs, hyperId);
    if cagg.None? {
      return Err(InvalidParameter);
    }
    cache.extra := Some(Watermark(hyperId, 0));
    if !canSelect {
      return Err(InsufficientPrivilege);
    }
    var pt := hypertables[hyperId].openDim.partitionType;
    var value;
    if hyperId in openDimMax {
      value := SaturatingAdd(openDimMax[hyperId], cagg.value.bucketWidth, pt);
    } else {
      value := TypeMin(pt);
    }
    cache.extra := Some(Watermark(hyperId, value));
    res := Ok(value);
  }

  /** A successful call caches its answer: the next call for the same hypertable
      returns the same watermark, whatever the catalog says by then. */
  lemma WatermarkCachedRepeat(extra: Option<Watermark>, id: int, caggs: seq<CaggRow>,
                              hypertables: map<int, Hypertable>, openDimMax: map<int, int>, canSelect: bool,
                              caggs2: seq<CaggRow>, hypertables2: map<int, Hypertable>, openDimMax2: map<int, int>,
                              canSelect2: bool)
    requires CaggChainWellFormed(caggs, hypertables) && CaggChainWellFormed(caggs2, hypertables2)
    ensures var first := WatermarkSpec(extra, Some(id), caggs, hypertables, openDimMax, canSelect);
            first.result.Ok? ==>
              WatermarkSpec(first.extra, Some(id), caggs2, hypertables2, openDimMax2, canSelect2) == first
  {
  }

  /** The error cases: a NULL argument, an id that materializes no continuous
      aggregate, and a caller without SELECT privilege (unless a cache entry for the
      id answers first). */
  lemma WatermarkErrors(extra: Option<Watermark>, arg: Option<int>, caggs: seq<CaggRow>,
                        hypertables: map<int, Hypertable>, openDimMax: map<int, int>, canSelect: bool)
    requires CaggChainWellFormed(caggs, hypertables)
    ensures var c := WatermarkSpec(extra, arg, caggs, hypertables, openDimMax, canSelect);
            && (arg.None? ==> c.result == Err(InvalidParameter))
            && (arg.Some? && !CacheAnswers(extra, arg) && (forall r :: r in caggs ==> r.matHypertableId != arg.value) ==>
                  c.result == Err(InvalidParameter))
            && (arg.Some? && !CacheAnswers(extra, arg) && (exists r :: r in caggs && r.matHypertableId == arg.value) ==>
                  (c.result.Err? <==> !canSelect))
            && (c.result.Err? ==> c.extra.None? || c.extra == extra || c.extra == Some(Watermark(arg.value, 0)))
  {
    if arg.Some? && !CacheAnswers(extra, arg) {
      if exists r :: r in caggs && r.matHypertableId == arg.value {
        var r :| r in caggs && r.matHypertableId == arg.value;
        assert MatIdIs(arg.value)(r);
      }
    }
  }

  /** On an integer-partitioned materialization with positive bucket width and an
      in-range maximum, the watermark is one bucket past the maximum, clamped to the
      type's maximum; on an empty one it is the type's minimum. */
  lemma WatermarkValue(caggs: seq<CaggRow>, hypertables: map<int, Hypertable>, openDimMax: map<int, int>, id: int)
    requires CaggChainWellFormed(caggs, hypertables) && UniqueMatIds(caggs)
    requires exists r :: r in caggs && r.matHypertableId == id
    ensures var c := WatermarkSpec(None, Some(id), caggs, hypertables, openDimMax, true);
            var pt := hypertables[id].openDim.partitionType;
            var cagg := LastMatch(caggs, MatIdIs(id)).value;
            && c.result.Ok?
            && c.extra == Some(Watermark(id, c.result.value))
            && (id !in openDimMax ==> c.result.value == TypeMin(pt))
            && (id in openDimMax && pt.IntegerType? && TypeMin(pt) <= openDimMax[id] <= TypeMax(pt)
                && 0 < cagg.bucketWidth <= TypeMax(pt) ==>
                  c.result.value == if openDimMax[id] + cagg.bucketWidth > TypeMax(pt) then TypeMax(pt)
                                    else openDimMax[id] + cagg.bucketWidth)
  {
    var r :| r in caggs && r.matHypertableId == id;
    assert MatIdIs(id)(r);
    var cagg := LastMatch(caggs, MatIdIs(id)).value;
    var pt := hypertables[id].openDim.partitionType;
    if id in openDimMax && pt.IntegerType? && TypeMin(pt) <= openDimMax[id] <= TypeMax(pt)
       && 0 < cagg.bucketWidth <= TypeMax(pt) {
      SaturatingAddIsClampedSum(openDimMax[id], cagg.bucketWidth, pt);
    }
  }

  // ----------------------------------------------------------------------------
  // Drop cascades

  /** A scan deleting the rows `keep` rejects, one at a time at the scan's position;
      the rows kept stay in order. */
  method ScanDelete<T(!new)>(rows: seq<T>, keep: T -> bool) returns (r: seq<T>)
    ensures r == Filter(rows, keep)
  {
    r := rows;
    var i := 0;
    for k := 0 to |rows|
      invariant i == |Filter(rows[..k], keep)|
      invariant r == Filter(rows[..k], keep) + rows[k..]
    {
      ScanPosition(rows, k, keep, r, i);
      ghost var before, i0 := r, i;
      if !keep(r[i]) {
        r := r[..i] + r[i + 1..];
      } else {
        i := i + 1;
      }
      ScanDeleteStep(rows, k, keep, before, i0, r, i);
    }
    assert rows[..|rows|] == rows;
  }

  function LogOutsideOf(ids: set<int>): InvalidationLogRow -> bool
  {
    (e: InvalidationLogRow) => e.hypertableId !in ids
  }

  function ThresholdOutsideOf(ids: set<int>): InvalidationThresholdRow -> bool
  {
    (e: InvalidationThresholdRow) => e.hypertableId !in ids
  }

  /** The raw hypertable ids of some catalog rows. */
  function RawIdsOf(rows: seq<CaggRow>): set<int>
  {
    if |rows| == 0 then {} else RawIdsOf(rows[..|rows| - 1]) + {rows[|rows| - 1].rawHypertableId}
  }

  /** The materialization hypertable ids of some catalog rows. */
  function MatIdsOf(rows: seq<CaggRow>): set<int>
  {
    if |rows| == 0 then {} else MatIdsOf(rows[..|rows| - 1]) + {rows[|rows| - 1].matHypertableId}
  }

  /** The catalog-entry part of dropping the continuous aggregate materialized in
      `matId`: its rows are deleted, and for each deleted row the materialization
      invalidation log of its materialization and, unless the raw hypertable has
      other continuous aggregates, the raw hypertable's invalidation log and
      threshold. */
  function DeleteCatalogEntries(t: Tables, matId: int, hasOther: bool): (r: Tables)
    ensures r == t.(caggs := r.caggs, hypertableInvalidationLog := r.hypertableInvalidationLog,
                    invalidationThreshold := r.invalidationThreshold,
                    materializationInvalidationLog := r.materializationInvalidationLog)
  {
    var deleted := Filter(t.caggs, MatIdIs(matId));
    t.(caggs := Filter(t.caggs, MatIdOtherThan(matId)),
       hypertableInvalidationLog :=
         if hasOther then t.hypertableInvalidationLog
         else Filter(t.hypertableInvalidationLog, LogOutsideOf(RawIdsOf(deleted))),
       invalidationThreshold :=
         if hasOther then t.invalidationThreshold
         else Filter(t.invalidationThreshold, ThresholdOutsideOf(RawIdsOf(deleted))),
       materializationInvalidationLog :=
         Filter(t.materializationInvalidationLog, LogOutsideOf(MatIdsOf(deleted))))
  }

  /** Deleting the rows of one more hypertable from a log already cleared of a set. */
  lemma LogOutsideOfAdd(log: seq<InvalidationLogRow>, ids: set<int>, id: int)
    ensures Filter(Filter(log, LogOutsideOf(ids)), LogOutsideOf({id})) == Filter(log, LogOutsideOf(ids + {id}))
  {
    FilterTwice(log, LogOutsideOf(ids), LogOutsideOf({id}), LogOutsideOf(ids + {id}));
  }

  lemma ThresholdOutsideOfAdd(rows: seq<InvalidationThresholdRow>, ids: set<int>, id: int)
    ensures Filter(Filter(rows, ThresholdOutsideOf(ids)), ThresholdOutsideOf({id}))
            == Filter(rows, ThresholdOutsideOf(ids + {id}))
  {
    FilterTwice(rows, ThresholdOutsideOf(ids), ThresholdOutsideOf({id}), ThresholdOutsideOf(ids + {id}));
  }

  /** The three invalidation tables once the rows of a set of deleted catalog rows
      are gone. */
  ghost predicate InvalidationRowsDeleted(log: seq<InvalidationLogRow>, thr: seq<InvalidationThresholdRow>,
                                          mlog: seq<InvalidationLogRow>, log0: seq<InvalidationLogRow>,
                                          thr0: seq<InvalidationThresholdRow>, mlog0: seq<InvalidationLogRow>,
                                          deleted: seq<CaggRow>, hasOther: bool)
  {
    && log == (if hasOther then log0 else Filter(log0, LogOutsideOf(RawIdsOf(deleted))))
    && thr == (if hasOther then thr0 else Filter(thr0, ThresholdOutsideOf(RawIdsOf(deleted))))
    && mlog == Filter(mlog0, LogOutsideOf(MatIdsOf(deleted)))
  }

  /** The catalog-entry scan of a drop on the contents of the four tables it
      touches: deletes each row materialized in `matId` together with its
      invalidation rows. */
  method DeleteCatalogEntryRows(rows: seq<CaggRow>, log0: seq<InvalidationLogRow>,
                                thr0: seq<InvalidationThresholdRow>, mlog0: seq<InvalidationLogRow>,
                                matId: int, hasOther: bool)
    returns (caggs: seq<CaggRow>, log: seq<InvalidationLogRow>, thr: seq<InvalidationThresholdRow>,
             mlog: seq<InvalidationLogRow>)
    ensures caggs == Filter(rows, MatIdOtherThan(matId))
    ensures InvalidationRowsDeleted(log, thr, mlog, log0, thr0, mlog0, Filter(rows, MatIdIs(matId)), hasOther)
  {
    FilterAll(log0, LogOutsideOf({}));
    FilterAll(thr0, ThresholdOutsideOf({}));
    FilterAll(mlog0, LogOutsideOf({}));
    caggs, log, thr, mlog := rows, log0, thr0, mlog0;
    var i := 0;
    for k := 0 to |rows|
      invariant i == |Filter(rows[..k], MatIdOtherThan(matId))|
      invariant caggs == Filter(rows[..k], MatIdOtherThan(matId)) + rows[k..]
      invariant InvalidationRowsDeleted(log, thr, mlog, log0, thr0, mlog0, Filter(rows[..k], MatIdIs(matId)), hasOther)
    {
      ScanPosition(rows, k, MatIdOtherThan(matId), caggs, i);
      FilterSnoc(rows, k, MatIdIs(matId));
      ghost var before, i0 := caggs, i;
      ghost var deleted := Filter(rows[..k], MatIdIs(matId));
      var row := rows[k];
      if row.matHypertableId == matId {
        caggs := caggs[..i] + caggs[i + 1..];
        log, thr, mlog := DeleteRelatedRows(log, thr, mlog, row, hasOther, log0, thr0, mlog0, deleted);
        assert Filter(rows[..k + 1], MatIdIs(matId)) == deleted + [row];
      } else {
        i := i + 1;
        assert Filter(rows[..k + 1], MatIdIs(matId)) == deleted;
      }
      ScanDeleteStep(rows, k, MatIdOtherThan(matId), before, i0, caggs, i);
    }
    assert rows[..|rows|] == rows;
  }

  /** The invalidation rows deleted with one catalog row: the raw hypertable's log
      and threshold (unless it has other continuous aggregates) and the
      materialization's log. */
  method DeleteRelatedRows(log: seq<InvalidationLogRow>, thr: seq<InvalidationThresholdRow>,
                           mlog: seq<InvalidationLogRow>, row: CaggRow, hasOther: bool,
                           ghost log0: seq<InvalidationLogRow>, ghost thr0: seq<InvalidationThresholdRow>,
                           ghost mlog0: seq<InvalidationLogRow>, ghost deleted: seq<CaggRow>)
    returns (log': seq<InvalidationLogRow>, thr': seq<InvalidationThresholdRow>, mlog': seq<InvalidationLogRow>)
    requires InvalidationRowsDeleted(log, thr, mlog, log0, thr0, mlog0, deleted, hasOther)
    ensures InvalidationRowsDeleted(log', thr', mlog', log0, thr0, mlog0, deleted + [row], hasOther)
  {
    log', thr' := log, thr;
    if !hasOther {
      log' := ScanDelete(log, LogOutsideOf({row.rawHypertableId}));
      thr' := ScanDelete(thr, ThresholdOutsideOf({row.rawHypertableId}));
    }
    mlog' := ScanDelete(mlog, LogOutsideOf({row.matHypertableId}));
    InvalidationRowsDeletedStep(log, thr, mlog, log', thr', mlog', log0, thr0, mlog0, deleted, row, hasOther);
  }

  /** The catalog-entry scan of a drop, on the catalog. */
  method DeleteCatalogEntriesScan(cat: Catalog, matId: int, hasOther: bool)
    modifies cat
    ensures cat.tables == DeleteCatalogEntries(old(cat.tables), matId, hasOther)
  {
    var t := cat.tables;
    var caggs, log, thr, mlog :=
      DeleteCatalogEntryRows(t.caggs, t.hypertableInvalidationLog, t.invalidationThreshold,
                             t.materializationInvalidationLog, matId, hasOther);
    cat.tables := t.(caggs := caggs, hypertableInvalidationLog := log, invalidationThreshold := thr,
                     materializationInvalidationLog := mlog);
  }

  /** Deleting the invalidation rows of one more catalog row. */
  lemma InvalidationRowsDeletedStep(log: seq<InvalidationLogRow>, thr: seq<InvalidationThresholdRow>,
                                    mlog: seq<InvalidationLogRow>, log': seq<InvalidationLogRow>,
                                    thr': seq<InvalidationThresholdRow>, mlog': seq<InvalidationLogRow>,
                                    log0: seq<InvalidationLogRow>, thr0: seq<InvalidationThresholdRow>,
                                    mlog0: seq<InvalidationLogRow>, deleted: seq<CaggRow>, row: CaggRow,
                                    hasOther: bool)
    requires InvalidationRowsDeleted(log, thr, mlog, log0, thr0, mlog0, deleted, hasOther)
    requires log' == if hasOther then log else Filter(log, LogOutsideOf({row.rawHypertableId}))
    requires thr' == if hasOther then thr else Filter(thr, ThresholdOutsideOf({row.rawHypertableId}))
    requires mlog' == Filter(mlog, LogOutsideOf({row.matHypertableId}))
    ensures InvalidationRowsDeleted(log', thr', mlog', log0, thr0, mlog0, deleted + [row], hasOther)
  {
    OneMoreDeleted(deleted, row);
    LogOutsideOfAdd(log0, RawIdsOf(deleted), row.rawHypertableId);
    ThresholdOutsideOfAdd(thr0, RawIdsOf(deleted), row.rawHypertableId);
    LogOutsideOfAdd(mlog0, MatIdsOf(deleted), row.matHypertableId);
  }

  lemma OneMoreDeleted(deleted: seq<CaggRow>, row: CaggRow)
    ensures RawIdsOf(deleted + [row]) == RawIdsOf(deleted) + {row.rawHypertableId}
    ensures MatIdsOf(deleted + [row]) == MatIdsOf(deleted) + {row.matHypertableId}
  {
    assert (deleted + [row])[..|deleted|] == deleted;
  }

  /** Which of a continuous aggregate's objects a drop removes (each one only if it
      still exists). */
  datatype DropPlan = DropPlan(userView: bool, trigger: bool, matHypertable: bool, partialView: bool,
                               directView: bool)

  /** The storage actions of a drop plan, in the order the materializer also uses:
      user view, invalidation trigger, materialization hypertable, partial view,
      direct view. */
  function DropActions(row: CaggRow, p: DropPlan): seq<StorageAction>
  {
    ActionIf(p.userView, DropView(row.userView))
    + ActionIf(p.trigger, DropInvalidationTrigger(row.rawHypertableId))
    + ActionIf(p.matHypertable, DropHypertable(row.matHypertableId))
    + ActionIf(p.partialView, DropView(row.partialView))
    + ActionIf(p.directView, DropView(row.directView))
  }

  function ActionIf(b: bool, a: StorageAction): seq<StorageAction>
  {
    if b then [a] else []
  }

  /** The views left after a drop plan. */
  function ViewsAfterDrop(views: set<QualName>, row: CaggRow, p: DropPlan): set<QualName>
  {
    views - (if p.userView then {row.userView} else {})
          - (if p.partialView then {row.partialView} else {})
          - (if p.directView then {row.directView} else {})
  }

  /** The relations of a hypertable: its main table and the tables of its chunks. */
  function HypertableRelids(t: Tables, htId: int): set<int>
    requires htId in t.hypertables
  {
    {t.hypertables[htId].mainTableRelid} + set c | c in t.chunks && c.hypertableId == htId :: c.tableId
  }

  function ChunkNotOf(htId: int): Chunk -> bool
  {
    (c: Chunk) => c.hypertableId != htId
  }

  function SliceNotOfDim(dimId: int): DimensionSlice -> bool
  {
    (s: DimensionSlice) => s.dimensionId != dimId
  }

  function IndexNotOn(relids: set<int>): IndexRel -> bool
  {
    (i: IndexRel) => i.indrelid !in relids
  }

  /** The catalog rows that go with a dropped hypertable: the cascade removes its
      chunks and the indexes on its tables, and the hypertable's deletion removes
      its row and the slices of its open dimension. */
  function DropHypertableRows(t: Tables, htId: int): (r: Tables)
    requires htId in t.hypertables
  {
    t.(hypertables := t.hypertables - {htId},
       chunks := Filter(t.chunks, ChunkNotOf(htId)),
       slices := Filter(t.slices, SliceNotOfDim(t.hypertables[htId].openDim.id)),
       indexes := Filter(t.indexes, IndexNotOn(HypertableRelids(t, htId))))
  }

  /** The tables after the deletions of a drop plan. */
  function DropObjects(t: Tables, row: CaggRow, p: DropPlan): Tables
  {
    var t0 := if p.matHypertable && row.matHypertableId in t.hypertables
              then DropHypertableRows(t, row.matHypertableId) else t;
    t0.(views := ViewsAfterDrop(t.views, row, p),
        invalidationTriggers :=
          if p.trigger then t.invalidationTriggers - {row.rawHypertableId} else t.invalidationTriggers,
        actions := t.actions + DropActions(row, p))
  }

  /** What a drop leaves outside the continuous aggregate's own rows: the procedures,
      and every chunk, dimension slice and index that does not belong to the
      materialization hypertable `matId`; no such row is added. */
  predicate KeepsUnrelatedRows(a: Tables, b: Tables, matId: int)
  {
    && a.procs == b.procs
    && (forall c :: c in a.chunks ==> c in b.chunks)
    && (forall c :: c in b.chunks && c.hypertableId != matId ==> c in a.chunks)
    && (forall x :: x in a.slices ==> x in b.slices)
    && (forall i :: i in a.indexes ==> i in b.indexes)
    && (matId !in b.hypertables ==> a.chunks == b.chunks && a.slices == b.slices && a.indexes == b.indexes)
    && (matId in b.hypertables ==>
          && (forall x :: x in b.slices && x.dimensionId != b.hypertables[matId].openDim.id ==> x in a.slices)
          && (forall i :: i in b.indexes && i.indrelid !in HypertableRelids(b, matId) ==> i in a.indexes))
  }

  /** The raw hypertable exists and more than one continuous aggregate is defined on it. */
  predicate RawHasOtherCaggs(t: Tables, rawId: int)
  {
    rawId in t.hypertables && Count(t.caggs, RawIdIs(rawId)) > 1
  }

  /** Dropping a continuous aggregate: its jobs are deleted first; the raw
      hypertable "has other" continuous aggregates when it exists and more than one
      is attached to it; when it has none and exists, its invalidation trigger must
      exist (an undefined object otherwise) and is dropped; then the catalog entries
      go and the remaining objects are dropped. */
  function DropContinuousAggSpec(t: Tables, row: CaggRow, dropUserView: bool): (r: Result<Tables>)
    ensures r.Ok? ==> KeepsUnrelatedRows(r.value, t, row.matHypertableId)
    ensures r.Ok? ==> r.value.caggs == Filter(t.caggs, MatIdOtherThan(row.matHypertableId))
  {
    var t1 := DropJobsOf(t, row);
    var raw := row.rawHypertableId;
    if !RawHasOtherCaggs(t, raw) && raw in t.hypertables && raw !in t.invalidationTriggers then
      Err(UndefinedObject)
    else
      Ok(DropObjects(DeleteCatalogEntries(t1, row.matHypertableId, RawHasOtherCaggs(t, raw)), row,
                     DropPlanOf(t, row, dropUserView)))
  }

  /** The first step of a drop: the jobs of the materialization hypertable are
      deleted. No other table changes. */
  function DropJobsOf(t: Tables, row: CaggRow): (t1: Tables)
    ensures t1 == t.(jobs := t1.jobs, stats := t1.stats, chunkStats := t1.chunkStats)
  {
    DeleteJobs(t, JobIdsOnHypertable(t.jobs, row.matHypertableId))
  }

  /** The objects of a continuous aggregate that still exist, and so are dropped:
      the trigger when the raw hypertable exists and has no other continuous
      aggregate. */
  function DropPlanOf(t: Tables, row: CaggRow, dropUserView: bool): DropPlan
  {
    var raw := row.rawHypertableId;
    DropPlan(dropUserView && row.userView in t.views, !RawHasOtherCaggs(t, raw) && raw in t.hypertables,
             row.matHypertableId in t.hypertables, row.partialView in t.views, row.directView in t.views)
  }

  /** Drops a continuous aggregate and its objects; on error nothing changes. */
  method DropContinuousAgg(cat: Catalog, row: CaggRow, dropUserView: bool) returns (res: Outcome)
    modifies cat
    ensures var s := DropContinuousAggSpec(old(cat.tables), row, dropUserView);
            && (s.Err? ==> res == Fail(s.error) && cat.tables == old(cat.tables))
            && (s.Ok? ==> res == Pass && cat.tables == s.value)
  {
    var saved := cat.tables;
    DeleteByHypertableId(cat, row.matHypertableId);
    assert cat.tables == DropJobsOf(saved, row);
    var dropUser := dropUserView && row.userView in cat.tables.views;
    var rawExists := row.rawHypertableId in cat.tables.hypertables;
    var matExists := row.matHypertableId in cat.tables.hypertables;
    var hasOther := false;
    if rawExists {
      var n := NumberOfContinuousAggsAttached(cat.tables.caggs, row.rawHypertableId);
      hasOther := n > 1;
    }
    assert hasOther == RawHasOtherCaggs(saved, row.rawHypertableId);
    var dropTrigger := false;
    if !hasOther && rawExists {
      if row.rawHypertableId !in cat.tables.invalidationTriggers {
        cat.tables := saved;
        return Fail(UndefinedObject);
      }
      dropTrigger := true;
    }
    var dropPartial := row.partialView in cat.tables.views;
    var dropDirect := row.directView in cat.tables.views;
    var plan := DropPlan(dropUser, dropTrigger, matExists, dropPartial, dropDirect);
    assert plan == DropPlanOf(saved, row, dropUserView);
    DeleteCatalogEntriesScan(cat, row.matHypertableId, hasOther);
    DropObjectsInPlace(cat, row, plan);
    res := Pass;
  }

  /** Performs the deletions of a drop plan on the catalog, one after the other. */
  method DropObjectsInPlace(cat: Catalog, row: CaggRow, plan: DropPlan)
    modifies cat
    ensures cat.tables == DropObjects(old(cat.tables), row, plan)
  {
    var t := cat.tables;
    var views, triggers, hypertables, acts := t.views, t.invalidationTriggers, t.hypertables, [];
    var chunks, slices, indexes := t.chunks, t.slices, t.indexes;
    if plan.userView {
      views := views - {row.userView};
      acts := acts + [DropView(row.userView)];
    }
    ghost var a1 := acts;
    assert a1 == ActionIf(plan.userView, DropView(row.userView));
    if plan.trigger {
      triggers := triggers - {row.rawHypertableId};
      acts := acts + [DropInvalidationTrigger(row.rawHypertableId)];
    }
    ghost var a2 := acts;
    assert a2 == a1 + ActionIf(plan.trigger, DropInvalidationTrigger(row.rawHypertableId));
    if plan.matHypertable {
      if row.matHypertableId in t.hypertables {
        var ht := t.hypertables[row.matHypertableId];
        chunks := Filter(chunks, ChunkNotOf(row.matHypertableId));
        slices := Filter(slices, SliceNotOfDim(ht.openDim.id));
        indexes := Filter(indexes, IndexNotOn(HypertableRelids(t, row.matHypertableId)));
      }
      hypertables := hypertables - {row.matHypertableId};
      acts := acts + [DropHypertable(row.matHypertableId)];
    }
    ghost var a3 := acts;
    assert a3 == a2 + ActionIf(plan.matHypertable, DropHypertable(row.matHypertableId));
    if plan.partialView {
      views := views - {row.partialView};
      acts := acts + [DropView(row.partialView)];
    }
    ghost var a4 := acts;
    assert a4 == a3 + ActionIf(plan.partialView, DropView(row.partialView));
    if plan.directView {
      views := views - {row.directView};
      acts := acts + [DropView(row.directView)];
    }
    assert acts == a4 + ActionIf(plan.directView, DropView(row.directView));
    cat.tables := t.(views := views, invalidationTriggers := triggers, hypertables := hypertables,
                     chunks := chunks, slices := slices, indexes := indexes, actions := t.actions + acts);
  }

  /** When a continuous aggregate is dropped, the drop fails exactly when the raw
      hypertable still exists, has no other continuous aggregate, and its
      invalidation trigger is missing; the error is an undefined object. */
  lemma DropCaggFails(t: Tables, row: CaggRow, dropUserView: bool)
    ensures var r := DropContinuousAggSpec(t, row, dropUserView);
            && (r.Err? <==> && row.rawHypertableId in t.hypertables
                            && !RawHasOtherCaggs(t, row.rawHypertableId)
                            && row.rawHypertableId !in t.invalidationTriggers)
            && (r.Err? ==> r.error == UndefinedObject)
  {
  }

  /** The catalog rows a drop removes: the jobs of the materialization hypertable,
      the continuous aggregate's row, the materialization's invalidation log and,
      unless the raw hypertable has other continuous aggregates, the raw
      hypertable's invalidation log and threshold. Nothing else is deleted. */
  lemma DropCaggCatalogEffects(t: Tables, row: CaggRow, dropUserView: bool)
    requires CatalogWellFormed(t) && row in t.caggs
    ensures var r := DropContinuousAggSpec(t, row, dropUserView);
            var mat, raw := row.matHypertableId, row.rawHypertableId;
            r.Ok? ==>
              && (forall j :: j in r.value.jobs <==> j in t.jobs && j.hypertableId != mat)
              && (forall c :: c in r.value.caggs <==> c in t.caggs && c.matHypertableId != mat)
              && (forall e :: e in r.value.materializationInvalidationLog <==>
                     e in t.materializationInvalidationLog && e.hypertableId != mat)
              && (RawHasOtherCaggs(t, raw) ==>
                    && r.value.hypertableInvalidationLog == t.hypertableInvalidationLog
                    && r.value.invalidationThreshold == t.invalidationThreshold)
              && (!RawHasOtherCaggs(t, raw) ==>
                    && (forall e :: e in r.value.hypertableInvalidationLog <==>
                           e in t.hypertableInvalidationLog && e.hypertableId != raw)
                    && (forall e :: e in r.value.invalidationThreshold <==>
                           e in t.invalidationThreshold && e.hypertableId != raw))
  {
    var r := DropContinuousAggSpec(t, row, dropUserView);
    if r.Ok? {
      DeleteByHypertableIdExact(t, row.matHypertableId);
      var t1 := DropJobsOf(t, row);
      var hasOther := RawHasOtherCaggs(t, row.rawHypertableId);
      var t0 := DeleteCatalogEntries(t1, row.matHypertableId, hasOther);
      assert r.value == DropObjects(t0, row, DropPlanOf(t, row, dropUserView));
      DeleteCatalogEntriesOfRow(t1, row, hasOther);
    }
  }

  /** Deleting the catalog entries of a continuous aggregate whose row is the only
      one of its materialization removes that row, the materialization's
      invalidation log, and (without other continuous aggregates on the raw
      hypertable) the raw hypertable's invalidation log and threshold. */
  lemma DeleteCatalogEntriesOfRow(t: Tables, row: CaggRow, hasOther: bool)
    requires UniqueMatIds(t.caggs) && row in t.caggs
    ensures var r := DeleteCatalogEntries(t, row.matHypertableId, hasOther);
            var mat, raw := row.matHypertableId, row.rawHypertableId;
            && (forall c :: c in r.caggs <==> c in t.caggs && c.matHypertableId != mat)
            && (forall e :: e in r.materializationInvalidationLog <==>
                   e in t.materializationInvalidationLog && e.hypertableId != mat)
            && (hasOther ==> && r.hypertableInvalidationLog == t.hypertableInvalidationLog
                             && r.invalidationThreshold == t.invalidationThreshold)
            && (!hasOther ==>
                  && (forall e :: e in r.hypertableInvalidationLog <==>
                         e in t.hypertableInvalidationLog && e.hypertableId != raw)
                  && (forall e :: e in r.invalidationThreshold <==>
                         e in t.invalidationThreshold && e.hypertableId != raw))
  {
    OnlyRowOfItsMat(t.caggs, row);
    var deleted := Filter(t.caggs, MatIdIs(row.matHypertableId));
    assert deleted == [] + [row];
    assert RawIdsOf(deleted) == {row.rawHypertableId};
    assert MatIdsOf(deleted) == {row.matHypertableId};
  }

  /** The objects a drop removes: the user view (when asked to), the partial and
      direct views, the materialization hypertable and, when the raw hypertable
      exists and has no other continuous aggregate, its invalidation trigger. */
  lemma DropCaggObjectEffects(t: Tables, row: CaggRow, dropUserView: bool)
    ensures var r := DropContinuousAggSpec(t, row, dropUserView);
            var raw := row.rawHypertableId;
            r.Ok? ==>
              && r.value.views == t.views - (if dropUserView then {row.userView} else {})
                                          - {row.partialView} - {row.directView}
              && r.value.hypertables == t.hypertables - {row.matHypertableId}
              && r.value.invalidationTriggers
                 == (if raw in t.hypertables && !RawHasOtherCaggs(t, raw) then t.invalidationTriggers - {raw}
                     else t.invalidationTriggers)
  {
    var r := DropContinuousAggSpec(t, row, dropUserView);
    if r.Ok? {
      var u := DropPlanOf(t, row, dropUserView);
      var t0 := DeleteCatalogEntries(DropJobsOf(t, row), row.matHypertableId, RawHasOtherCaggs(t, row.rawHypertableId));
      assert t0.views == t.views && t0.hypertables == t.hypertables
             && t0.invalidationTriggers == t.invalidationTriggers;
      assert r.value == DropObjects(t0, row, u);
      DropObjectsOfPresent(t0, row, dropUserView, u);
    }
  }

  /** When the materialization hypertable exists, a drop removes exactly its chunks,
      the slices of its open dimension and the indexes on its main table and chunks. */
  lemma DropCaggCascade(t: Tables, row: CaggRow, dropUserView: bool)
    ensures var r := DropContinuousAggSpec(t, row, dropUserView);
            var mat := row.matHypertableId;
            r.Ok? && mat in t.hypertables ==>
              && (forall c :: c in r.value.chunks <==> c in t.chunks && c.hypertableId != mat)
              && (forall x :: x in r.value.slices <==>
                     x in t.slices && x.dimensionId != t.hypertables[mat].openDim.id)
              && (forall i :: i in r.value.indexes <==> i in t.indexes && i.indrelid !in HypertableRelids(t, mat))
  {
    var r := DropContinuousAggSpec(t, row, dropUserView);
    if r.Ok? && row.matHypertableId in t.hypertables {
      var u := DropPlanOf(t, row, dropUserView);
      var t0 := DeleteCatalogEntries(DropJobsOf(t, row), row.matHypertableId, RawHasOtherCaggs(t, row.rawHypertableId));
      assert t0.chunks == t.chunks && t0.slices == t.slices && t0.indexes == t.indexes
             && t0.hypertables == t.hypertables;
      assert r.value == DropObjects(t0, row, u);
    }
  }

  /** Dropping only the objects that exist is removing all of them. */
  lemma DropObjectsOfPresent(t: Tables, row: CaggRow, dropUserView: bool, u: DropPlan)
    requires u.userView == (dropUserView && row.userView in t.views)
    requires u.partialView == (row.partialView in t.views) && u.directView == (row.directView in t.views)
    requires u.matHypertable == (row.matHypertableId in t.hypertables)
    ensures var r := DropObjects(t, row, u);
            && r.views == t.views - (if dropUserView then {row.userView} else {}) - {row.partialView} - {row.directView}
            && r.hypertables == t.hypertables - {row.matHypertableId}
            && r.invalidationTriggers == if u.trigger then t.invalidationTriggers - {row.rawHypertableId}
                                         else t.invalidationTriggers
  {
    if !u.matHypertable {
      assert t.hypertables - {row.matHypertableId} == t.hypertables;
    }
  }

  /** A drop appends its storage actions after the earlier ones, and drops the
      materialization hypertable exactly when it still exists. */
  lemma DropCaggActions(t: Tables, row: CaggRow, dropUserView: bool)
    ensures var r := DropContinuousAggSpec(t, row, dropUserView);
            r.Ok? ==>
              && r.value.actions[..|t.actions|] == t.actions
              && (DropHypertable(row.matHypertableId) in r.value.actions[|t.actions|..]
                  <==> row.matHypertableId in t.hypertables)
  {
    var r := DropContinuousAggSpec(t, row, dropUserView);
    if r.Ok? {
      var u := DropPlanOf(t, row, dropUserView);
      var t0 := DeleteCatalogEntries(DropJobsOf(t, row), row.matHypertableId, RawHasOtherCaggs(t, row.rawHypertableId));
      assert t0.actions == t.actions;
      assert r.value == DropObjects(t0, row, u);
      AppendedActions(t.actions, DropActions(row, u));
      DropActionsOfMat(row, u);
    }
  }

  /** What is appended after a prefix is the rest. */
  lemma AppendedActions(before: seq<StorageAction>, added: seq<StorageAction>)
    ensures (before + added)[..|before|] == before && (before + added)[|before|..] == added
  {
  }

  /** The only hypertable a drop plan drops is the materialization hypertable, and
      only when the plan says so. */
  lemma DropActionsOfMat(row: CaggRow, u: DropPlan)
    ensures DropHypertable(row.matHypertableId) in DropActions(row, u) <==> u.matHypertable
  {
    var a := DropActions(row, u);
    if u.matHypertable {
      var k := |ActionIf(u.userView, DropView(row.userView))|
               + |ActionIf(u.trigger, DropInvalidationTrigger(row.rawHypertableId))|;
      assert a[k] == DropHypertable(row.matHypertableId);
    }
  }

  /** In a catalog whose materialization ids are unique, the only row of a
      continuous aggregate's materialization is its own. */
  lemma {:induction false} OnlyRowOfItsMat(caggs: seq<CaggRow>, row: CaggRow)
    requires UniqueMatIds(caggs) && row in caggs
    ensures Filter(caggs, MatIdIs(row.matHypertableId)) == [row]
  {
    var n := |caggs| - 1;
    var init := caggs[..n];
    assert caggs == init + [caggs[n]];
    if caggs[n] == row {
      forall x | x in init
        ensures !MatIdIs(row.matHypertableId)(x)
      {
        var i :| 0 <= i < n && init[i] == x;
      }
      FilterNone(init, MatIdIs(row.matHypertableId));
    } else {
      var i :| 0 <= i < n && init[i] == row;
      assert UniqueMatIds(init);
      OnlyRowOfItsMat(init, row);
    }
  }

  // ----------------------------------------------------------------------------
  // Drop callbacks

  /** One row of the hypertable-drop scan: a continuous aggregate on the dropped
      hypertable is dropped with its user view; a continuous aggregate
      materialized in it makes the drop an error. */
  function DropHypertableVisit(t: Tables, row: CaggRow, htid: int): Result<Tables>
  {
    var dropped := if row.rawHypertableId == htid then DropContinuousAggSpec(t, row, true) else Ok(t);
    if dropped.Ok? && row.matHypertableId == htid then Err(DependentObjectsStillExist) else dropped
  }

  /** The hypertable-drop scan over the rows it sees, starting from the tables `t0`;
      the first error ends it. */
  function DropHypertableScan(t0: Tables, rows: seq<CaggRow>, htid: int): Result<Tables>
  {
    if |rows| == 0 then Ok(t0)
    else
      match DropHypertableScan(t0, rows[..|rows| - 1], htid)
      case Err(e) => Err(e)
      case Ok(t) => DropHypertableVisit(t, rows[|rows| - 1], htid)
  }

  /** Once the scan has failed on a prefix, the whole scan fails with that error. */
  lemma {:induction false} DropHypertableErrSticks(t0: Tables, rows: seq<CaggRow>, k: nat, htid: int)
    requires k <= |rows| && DropHypertableScan(t0, rows[..k], htid).Err?
    ensures DropHypertableScan(t0, rows, htid) == DropHypertableScan(t0, rows[..k], htid)
  {
    if k < |rows| {
      var init := rows[..|rows| - 1];
      assert init[..k] == rows[..k];
      DropHypertableErrSticks(t0, init, k, htid);
    } else {
      assert rows[..k] == rows;
    }
  }

  /** The callback run when a hypertable is dropped: scans the continuous-aggregate
      table as of its start, dropping the continuous aggregates defined on the
      hypertable and refusing the drop of a materialization hypertable; on error
      every change is rolled back. */
  method DropHypertableCallback(cat: Catalog, htid: int) returns (res: Outcome)
    modifies cat
    ensures var s := DropHypertableScan(old(cat.tables), old(cat.tables.caggs), htid);
            && (s.Err? ==> res == Fail(s.error) && cat.tables == old(cat.tables))
            && (s.Ok? ==> res == Pass && cat.tables == s.value)
  {
    var saved := cat.tables;
    var rows := cat.tables.caggs;
    for k := 0 to |rows|
      invariant DropHypertableScan(saved, rows[..k], htid) == Ok(cat.tables)
    {
      assert rows[..k + 1][..k] == rows[..k];
      var r := DropHypertableVisitRow(cat, rows[k], htid);
      if r.Fail? {
        DropHypertableErrSticks(saved, rows, k + 1, htid);
        cat.tables := saved;
        return r;
      }
    }
    assert rows[..|rows|] == rows;
    res := Pass;
  }

  /** The callback's work on one row; an error is left to the callback to roll back. */
  method DropHypertableVisitRow(cat: Catalog, row: CaggRow, htid: int) returns (res: Outcome)
    modifies cat
    ensures var s := DropHypertableVisit(old(cat.tables), row, htid);
            && (s.Err? ==> res == Fail(s.error))
            && (s.Ok? ==> res == Pass && cat.tables == s.value)
  {
    if row.rawHypertableId == htid {
      res := DropContinuousAgg(cat, row, true);
      if res.Fail? {
        return;
      }
    }
    if row.matHypertableId == htid {
      return Fail(DependentObjectsStillExist);
    }
    res := Pass;
  }

  /** Dropping a hypertable that materializes a continuous aggregate fails. */
  lemma {:induction false} DropHypertableOnMatFails(t0: Tables, rows: seq<CaggRow>, htid: int)
    requires exists r :: r in rows && r.matHypertableId == htid
    ensures DropHypertableScan(t0, rows, htid).Err?
  {
    var n := |rows| - 1;
    var init := rows[..n];
    assert rows == init + [rows[n]];
    if rows[n].matHypertableId != htid {
      DropHypertableOnMatFails(t0, init, htid);
    }
  }

  /** A successful scan keeps exactly the continuous aggregates whose
      materialization differs from that of every visited row defined on the
      dropped hypertable. */
  lemma {:induction false} DropHypertableScanCaggs(t0: Tables, rows: seq<CaggRow>, htid: int)
    ensures var s := DropHypertableScan(t0, rows, htid);
            s.Ok? ==> forall c :: c in s.value.caggs <==>
                        c in t0.caggs && forall r :: r in rows && r.rawHypertableId == htid ==>
                                                    c.matHypertableId != r.matHypertableId
  {
    if |rows| > 0 {
      var n := |rows| - 1;
      var init := rows[..n];
      assert rows == init + [rows[n]];
      DropHypertableScanCaggs(t0, init, htid);
    }
  }

  /** When a hypertable is dropped successfully, the continuous aggregates left
      are exactly those not defined on it; a scan over a table that mentions the
      hypertable nowhere changes nothing. */
  lemma DropHypertableRemovesRawCaggs(t: Tables, htid: int)
    requires UniqueMatIds(t.caggs)
    ensures var s := DropHypertableScan(t, t.caggs, htid);
            s.Ok? ==> forall c :: c in s.value.caggs <==> c in t.caggs && c.rawHypertableId != htid
  {
    DropHypertableScanCaggs(t, t.caggs, htid);
    forall c | c in t.caggs && c.rawHypertableId != htid
      ensures forall r :: r in t.caggs && r.rawHypertableId == htid ==> c.matHypertableId != r.matHypertableId
    {
      forall r | r in t.caggs && r.rawHypertableId == htid
        ensures c.matHypertableId != r.matHypertableId
      {
        var i :| 0 <= i < |t.caggs| && t.caggs[i] == c;
        var j :| 0 <= j < |t.caggs| && t.caggs[j] == r;
        assert i != j;
      }
    }
  }

  /** A hypertable no continuous aggregate is defined on or materialized in drops
      without touching the catalog. */
  lemma {:induction false} DropHypertableUnrelated(t0: Tables, rows: seq<CaggRow>, htid: int)
    requires forall r :: r in rows ==> r.rawHypertableId != htid && r.matHypertableId != htid
    ensures DropHypertableScan(t0, rows, htid) == Ok(t0)
  {
    if |rows| > 0 {
      var n := |rows| - 1;
      assert rows == rows[..n] + [rows[n]];
      DropHypertableUnrelated(t0, rows[..n], htid);
    }
  }

  /** Dropping a partial or direct view while its continuous aggregate exists: the
      scan deletes the materialization's catalog rows and counts them, and any
      row found is an error, which rolls the deletions back. So the catalog never
      changes, and the drop is refused exactly when such a row exists. */
  method DropInternalView(cat: Catalog, matId: int) returns (res: Outcome)
    modifies cat
    ensures cat.tables == old(cat.tables)
    ensures res == if Count(old(cat.tables.caggs), MatIdIs(matId)) > 0 then Fail(DependentObjectsStillExist) else Pass
  {
    var saved := cat.tables;
    var rows := cat.tables.caggs;
    var keep := MatIdOtherThan(matId);
    var count := 0;
    var i := 0;
    for k := 0 to |rows|
      invariant i == |Filter(rows[..k], keep)|
      invariant cat.tables == saved.(caggs := Filter(rows[..k], keep) + rows[k..])
      invariant count == Count(rows[..k], MatIdIs(matId))
    {
      ScanPosition(rows, k, keep, cat.tables.caggs, i);
      CountSnoc(rows, k, MatIdIs(matId));
      ghost var before, i0 := cat.tables.caggs, i;
      if cat.tables.caggs[i].matHypertableId == matId {
        cat.tables := cat.tables.(caggs := cat.tables.caggs[..i] + cat.tables.caggs[i + 1..]);
        count := count + 1;
      } else {
        i := i + 1;
      }
      ScanDeleteStep(rows, k, keep, before, i0, cat.tables.caggs, i);
    }
    assert rows[..|rows|] == rows;
    if count > 0 {
      cat.tables := saved;
      return Fail(DependentObjectsStillExist);
    }
    FilterAll(rows, keep);
    res := Pass;
  }

  /** What dropping one of a continuous aggregate's views does: the user view drops
      the continuous aggregate (the view itself is already gone), a partial or
      direct view is refused while the catalog row exists, and a view that is none
      of the three is an internal error. */
  function DropViewSpec(t: Tables, row: CaggRow, schema: string, name: string): Result<Tables>
  {
    match ViewTypeOf(row, schema, name)
    case UserView => DropContinuousAggSpec(t, row, false)
    case AnyView => Err(InternalError)
    case _ => if Count(t.caggs, MatIdIs(row.matHypertableId)) > 0 then Err(DependentObjectsStillExist) else Ok(t)
  }

  /** The callback run when a view of a continuous aggregate is dropped. */
  method DropViewCallback(cat: Catalog, row: CaggRow, schema: string, name: string) returns (res: Outcome)
    modifies cat
    ensures var s := DropViewSpec(old(cat.tables), row, schema, name);
            && (s.Err? ==> res == Fail(s.error) && cat.tables == old(cat.tables))
            && (s.Ok? ==> res == Pass && cat.tables == s.value)
  {
    var vt := ViewTypeOf(row, schema, name);
    match vt
    case UserView =>
      res := DropContinuousAgg(cat, row, false);
    case PartialView =>
      res := DropInternalView(cat, row.matHypertableId);
    case DirectView =>
      res := DropInternalView(cat, row.matHypertableId);
    case AnyView =>
      res := Fail(InternalError);
  }

  /** The partial and direct views of a continuous aggregate in the catalog cannot
      be dropped on their own, and dropping its user view leaves no catalog row of
      it behind. */
  lemma DropViewOfExistingCagg(t: Tables, row: CaggRow, schema: string, name: string)
    requires row in t.caggs
    ensures var vt := ViewTypeOf(row, schema, name);
            var s := DropViewSpec(t, row, schema, name);
            && ((vt == PartialView || vt == DirectView) ==> s == Err(DependentObjectsStillExist))
            && (vt == UserView && s.Ok? ==> forall c :: c in s.value.caggs ==> c.matHypertableId != row.matHypertableId)
  {
    assert MatIdIs(row.matHypertableId)(row);
  }
}
