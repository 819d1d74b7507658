/**
  The lookup tables between the values the plugin's form shows and the
  primary keys of the database's code tables. Each table is filled from the
  (value, key) rows one query returns; a later row for the same value
  overwrites an earlier one, and nothing is ever removed.
 */
module DbValuesMap {
  import opened Values

  /** One lookup table: shown value to primary key. */
  type Mapping = map<Value, Value>

  /** The seven lookup tables of `DBValuesMapping`. */
  datatype Mappings = Mappings(
    oas: Mapping,
    horAcc: Mapping,
    vertAcc: Mapping,
    obstacleType: Mapping,
    marking: Mapping,
    lighting: Mapping,
    verificationStatus: Mapping)

  /** The tables of a freshly constructed `DBValuesMapping`: all empty. */
  function Fresh(): (m: Mappings)
    ensures m.oas == map[] && m.horAcc == map[] && m.vertAcc == map[] && m.obstacleType == map[]
    ensures m.marking == map[] && m.lighting == map[] && m.verificationStatus == map[]
  {
    Mappings(map[], map[], map[], map[], map[], map[], map[])
  }

  /** The key the last row for `value` binds it to, if any row does. */
  function LastBinding(rows: seq<(Value, Value)>, value: Value): (r: Option<Value>)
    ensures r.None? <==> forall i :: 0 <= i < |rows| ==> rows[i].0 != value
    ensures r.Some? ==> exists i :: 0 <= i < |rows| && rows[i] == (value, r.value)
                                    && forall j :: i < j < |rows| ==> rows[j].0 != value
  {
    if |rows| == 0 then None
    else if rows[|rows| - 1].0 == value then Some(rows[|rows| - 1].1)
    else LastBinding(rows[..|rows| - 1], value)
  }

  /** `before` extended by `rows`: every value a row names is bound to the
      key of its last row, and every other value keeps its binding. */
  ghost predicate Extended(before: Mapping, rows: seq<(Value, Value)>, after: Mapping) {
    && (forall v :: v in after <==> v in before || LastBinding(rows, v).Some?)
    && (forall v :: v in after ==>
          after[v] == if LastBinding(rows, v).Some? then LastBinding(rows, v).value else before[v])
  }

  /** `_set_mapping`: `mapping[value] = primary_key` for each row of the
      query result, in order. */
  method SetMapping(rows: seq<(Value, Value)>, mapping: Mapping) returns (r: Mapping)
    ensures forall v :: v in r <==> v in mapping || LastBinding(rows, v).Some?
    ensures forall v :: v in r ==>
              r[v] == if LastBinding(rows, v).Some? then LastBinding(rows, v).value else mapping[v]
  {
    r := mapping;
    var i := 0;
    while i < |rows|
      invariant 0 <= i <= |rows|
      invariant forall v :: v in r <==> v in mapping || LastBinding(rows[..i], v).Some?
      invariant forall v :: v in r ==>
                  r[v] == if LastBinding(rows[..i], v).Some? then LastBinding(rows[..i], v).value else mapping[v]
    {
      assert rows[..i + 1][..i] == rows[..i];
      r := r[rows[i].0 := rows[i].1];
      i := i + 1;
    }
    assert rows[..i] == rows;
  }

  /** Filling a table twice from the same rows gives what filling it once
      gave: the second pass rewrites every binding it touches with the
      same key. */
  lemma {:induction false} ExtendedIdempotent(before: Mapping, rows: seq<(Value, Value)>, once: Mapping, twice: Mapping)
    requires Extended(before, rows, once) && Extended(once, rows, twice)
    ensures twice == once
  {
    assert forall v :: v in twice <==> v in once;
    assert forall v :: v in twice ==> twice[v] == once[v];
  }

  /** A fresh, empty table filled from `rows` binds exactly the values some
      row names, each to the key of its last row. */
  lemma ExtendedFromEmpty(rows: seq<(Value, Value)>, after: Mapping)
    requires Extended(map[], rows, after)
    ensures forall v :: v in after <==> exists i :: 0 <= i < |rows| && rows[i].0 == v
    ensures forall i :: 0 <= i < |rows| && (forall j :: i < j < |rows| ==> rows[j].0 != rows[i].0) ==>
              rows[i].0 in after && after[rows[i].0] == rows[i].1
  {
    forall i | 0 <= i < |rows| && (forall j :: i < j < |rows| ==> rows[j].0 != rows[i].0)
      ensures rows[i].0 in after && after[rows[i].0] == rows[i].1
    {
      var b := LastBinding(rows, rows[i].0);
      var k :| 0 <= k < |rows| && rows[k] == (rows[i].0, b.value) && forall j :: k < j < |rows| ==> rows[j].0 != rows[i].0;
      assert k == i;
    }
  }

  /** The queries `set_all_mapping` runs, one per table. */
  const OasQuery := "select name, code from dof.oas;"
  const HorAccQuery := "select accuracy, code from dof.vw_horizontal_acc;"
  const VertAccQuery := "select accuracy, code from dof.vw_vertical_acc;"
  const ObstacleTypeQuery := "select type, id from dof.obstacle_type;"
  const MarkingQuery := "select description, code from dof.marking"
  const LightingQuery := "select description, code from dof.lighting;"
  const VerificationStatusQuery := "select description, code from dof.verif_status;"

  /** `set_all_mapping`: each table extended from the rows of its own query.
      `select` stands for the database: the rows a query returns. */
  method SetAllMapping(m: Mappings, select: string -> seq<(Value, Value)>) returns (r: Mappings)
    ensures Extended(m.oas, select(OasQuery), r.oas)
    ensures Extended(m.horAcc, select(HorAccQuery), r.horAcc)
    ensures Extended(m.vertAcc, select(VertAccQuery), r.vertAcc)
    ensures Extended(m.obstacleType, select(ObstacleTypeQuery), r.obstacleType)
    ensures Extended(m.marking, select(MarkingQuery), r.marking)
    ensures Extended(m.lighting, select(LightingQuery), r.lighting)
    ensures Extended(m.verificationStatus, select(VerificationStatusQuery), r.verificationStatus)
  {
    var oas := SetMapping(select(OasQuery), m.oas);
    var horAcc := SetMapping(select(HorAccQuery), m.horAcc);
    var vertAcc := SetMapping(select(VertAccQuery), m.vertAcc);
    var obstacleType := SetMapping(select(ObstacleTypeQuery), m.obstacleType);
    var marking := SetMapping(select(MarkingQuery), m.marking);
    var lighting := SetMapping(select(LightingQuery), m.lighting);
    var verificationStatus := SetMapping(select(VerificationStatusQuery), m.verificationStatus);
    r := Mappings(oas, horAcc, vertAcc, obstacleType, marking, lighting, verificationStatus);
  }
}
