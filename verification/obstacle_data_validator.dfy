/**
  Validation of one obstacle record entered in the plugin's form: the DMS
  coordinates become decimal degrees, the required fields must be truthy,
  and the numeric fields become floats. A record is a dict whose keys keep
  their insertion order; each check walks the entries in that order and
  the first failing entry decides the error.
 */
module ObstacleDataValidator {
  import opened Values
  import opened Errors
  import opened Numerals
  import opened Coordinates

  /** An obstacle record: field name to value, in insertion order. */
  type Record = Dict<Value>

  /** The fields `validate_obstacle` asks to be non-empty. */
  const RequiredFields: seq<string> := ["obst_number", "city"]

  /** The fields `validate_obstacle` casts to float. */
  const NumericFields: seq<string> := ["agl", "amsl", "quantity"]

  /** The largest absolute degree value of a coordinate field, if it is one. */
  function MaxDegreeOf(field: string): Option<int> {
    if field == "lon" then Some(180)
    else if field == "lat" then Some(90)
    else None
  }

  /** `dms_to_dd(value, maxDegree)` inside `convert_coordinates`: a
      CoordinateError is re-raised naming the field; indexing a value that
      is not text, or empty text, fails outside the handler. */
  function ConvertCoordinate(field: string, value: Value, maxDegree: int): (r: Result<Value>)
    requires maxDegree >= 0
    ensures r.Ok? <==> value.Text? && |value.s| >= 1 && DmsToDd(value.s, maxDegree).Ok?
    ensures r.Ok? ==> r.value == Num(DmsToDd(value.s, maxDegree).value)
    ensures r.Ok? ==> -(maxDegree as real) <= r.value.r <= maxDegree as real
    ensures !value.Text? ==> r == Err(TypeError)
    ensures value == Text("") ==> r == Err(IndexError)
    ensures value.Text? && |value.s| >= 1 && r.Err? ==> r.error == CoordinateError(Some(field))
  {
    match value
    case Text(s) =>
      if |s| == 0 then Err(IndexError)
      else
        (match DmsToDd(s, maxDegree)
         case Ok(dd) => Ok(Num(dd))
         case Err(_) => Err(CoordinateError(Some(field))))
    case _ => Err(TypeError)
  }

  /** One entry of `convert_coordinates`: "lon" and "lat" are converted,
      every other field is kept. */
  function ConvertEntry(entry: (string, Value)): (r: Result<Value>)
    ensures MaxDegreeOf(entry.0).None? ==> r == Ok(entry.1)
    ensures MaxDegreeOf(entry.0).Some? ==> r == ConvertCoordinate(entry.0, entry.1, MaxDegreeOf(entry.0).value)
  {
    match MaxDegreeOf(entry.0)
    case None => Ok(entry.1)
    case Some(maxDegree) => ConvertCoordinate(entry.0, entry.1, maxDegree)
  }

  /** `convert_coordinates`: the record with "lon" and "lat" in decimal
      degrees, keys and order unchanged, or the error of the first
      coordinate field that fails. */
  function ConvertCoordinates(data: Record): (r: Result<Record>)
    ensures r.Ok? <==> forall i :: 0 <= i < |data| ==> ConvertEntry(data[i]).Ok?
    ensures r.Ok? ==> |r.value| == |data|
    ensures r.Ok? ==> forall i :: 0 <= i < |data| ==>
              r.value[i] == (data[i].0, ConvertEntry(data[i]).value)
    ensures r.Err? ==> r.error in {CoordinateError(Some("lon")), CoordinateError(Some("lat")), TypeError, IndexError}
    ensures r.Err? ==> exists k :: 0 <= k < |data| && ConvertEntry(data[k]).Err? && r.error == ConvertEntry(data[k]).error
                                   && forall j :: 0 <= j < k ==> ConvertEntry(data[j]).Ok?
  {
    var converted :- MapResult(data, ConvertEntry);
    Ok(WithValues(data, converted))
  }

  /** One entry of `check_empty`: a listed field must hold a truthy value. */
  function CheckEntry(entry: (string, Value), required: seq<string>): (r: Result<()>)
    ensures r.Ok? <==> entry.0 !in required || !Falsy(entry.1)
    ensures r.Err? ==> r.error == MissingRequiredValueError(entry.0)
  {
    if entry.0 in required && Falsy(entry.1) then Err(MissingRequiredValueError(entry.0))
    else Ok(())
  }

  /** `check_empty`: true when every listed field present in the record is
      truthy; otherwise the error names the first falsy listed field.
      Listed fields absent from the record are not checked. */
  function CheckEmpty(data: Record, required: seq<string>): (r: Result<bool>)
    ensures r.Ok? <==> forall i :: 0 <= i < |data| && data[i].0 in required ==> !Falsy(data[i].1)
    ensures r.Ok? ==> r.value
    ensures r.Err? ==> exists k :: 0 <= k < |data| && data[k].0 in required && Falsy(data[k].1)
                                   && r.error == MissingRequiredValueError(data[k].0)
                                   && forall j :: 0 <= j < k ==> data[j].0 !in required || !Falsy(data[j].1)
  {
    var _ :- MapResult(data, entry => CheckEntry(entry, required));
    Ok(true)
  }

  /** `float(value)`: text is parsed, numbers are widened, None cannot be
      converted and fails outside the handler. */
  function CastEntry(entry: (string, Value), fields: seq<string>): (r: Result<Value>)
    ensures entry.0 !in fields ==> r == Ok(entry.1)
    ensures entry.0 in fields ==> (r.Ok? ==> r.value.Num?)
    ensures entry.0 in fields && entry.1.Text? ==>
              (r.Ok? <==> ParseFloat(entry.1.s).Some?)
              && (r.Ok? ==> r.value == Num(ParseFloat(entry.1.s).value))
              && (r.Err? ==> r.error == NumberExpectedError(entry.0))
    ensures entry.0 in fields && entry.1.Num? ==> r == Ok(entry.1)
    ensures entry.0 in fields && entry.1.Int? ==> r == Ok(Num(entry.1.i as real))
    ensures entry.0 in fields && entry.1.Missing? ==> r == Err(TypeError)
  {
    if entry.0 !in fields then Ok(entry.1)
    else
      match entry.1
      case Text(s) =>
        (match ParseFloat(s)
         case Some(x) => Ok(Num(x))
         case None => Err(NumberExpectedError(entry.0)))
      case Num(x) => Ok(Num(x))
      case Int(i) => Ok(Num(i as real))
      case Missing => Err(TypeError)
  }

  /** `cast_to_float`: the listed fields as floats, keys and order
      unchanged, or the error of the first listed field that fails. */
  function CastToFloat(data: Record, fields: seq<string>): (r: Result<Record>)
    ensures r.Ok? <==> forall i :: 0 <= i < |data| ==> CastEntry(data[i], fields).Ok?
    ensures r.Ok? ==> |r.value| == |data|
    ensures r.Ok? ==> forall i :: 0 <= i < |data| ==> r.value[i] == (data[i].0, CastEntry(data[i], fields).value)
    ensures r.Ok? ==> forall i :: 0 <= i < |data| && data[i].0 in fields ==> r.value[i].1.Num?
    ensures r.Err? ==> exists k :: 0 <= k < |data| && CastEntry(data[k], fields).Err?
                                   && r.error == CastEntry(data[k], fields).error
                                   && forall j :: 0 <= j < k ==> CastEntry(data[j], fields).Ok?
    ensures r.Err? ==> r.error == TypeError || (r.error.NumberExpectedError? && r.error.field in fields)
  {
    var cast :- MapResult(data, entry => CastEntry(entry, fields));
    Ok(WithValues(data, cast))
  }

  /** The errors `validate_obstacle` wraps in a ValueError. */
  predicate IsValidationError(e: Error) {
    e.CoordinateError? || e.MissingRequiredValueError? || e.NumberExpectedError?
  }

  /** The `except` clauses of `validate_obstacle`: a validation error becomes
      a ValueError carrying it, anything else propagates as it is. */
  function Wrap(e: Error): (w: Error)
    ensures IsValidationError(e) ==> w == ValueError(e)
    ensures !IsValidationError(e) ==> w == e
  {
    if IsValidationError(e) then ValueError(e) else e
  }

  /** Wrapping is done once: a wrapped error is not wrapped again, and the
      cause of a wrapped error is a validation error. */
  lemma WrapOnce(e: Error)
    ensures Wrap(Wrap(e)) == Wrap(e)
    ensures Wrap(e).ValueError? ==> e.ValueError? || IsValidationError(Wrap(e).cause)
  {
  }

  /** A field whose value `validate_obstacle` may change. */
  predicate Rewritten(field: string) {
    MaxDegreeOf(field).Some? || field in NumericFields
  }

  /** The coordinate, required and numeric fields are three disjoint sets. */
  lemma FieldClassesDisjoint()
    ensures forall f :: f in RequiredFields ==> MaxDegreeOf(f).None? && f !in NumericFields
    ensures forall f :: f in NumericFields ==> MaxDegreeOf(f).None? && f !in RequiredFields
  {
  }

  /** `validate_obstacle`: coordinates converted, required fields checked,
      numeric fields cast, in that order; a validation error comes back
      wrapped in a ValueError, any other error as it is. */
  function ValidateObstacle(data: Record): (r: Result<Record>)
    ensures r.Ok? ==> DictKeys(r.value) == DictKeys(data)
    ensures r.Ok? ==> forall i :: 0 <= i < |data| && !Rewritten(data[i].0) ==> r.value[i] == data[i]
    ensures r.Err? ==> r.error.ValueError? || r.error == TypeError || r.error == IndexError
    ensures r.Err? && r.error.ValueError? ==> IsValidationError(r.error.cause)
  {
    match ConvertCoordinates(data)
    case Err(e) => Err(Wrap(e))
    case Ok(converted) =>
      match CheckEmpty(converted, RequiredFields)
      case Err(e) => Err(Wrap(e))
      case Ok(_) =>
        match CastToFloat(converted, NumericFields)
        case Err(e) => Err(Wrap(e))
        case Ok(cast) => Ok(cast)
  }

  /** The per-entry conditions under which `validate_obstacle` accepts a
      record, stated on the record as given. */
  predicate EntryValid(entry: (string, Value)) {
    && ConvertEntry(entry).Ok?
    && (entry.0 in RequiredFields ==> !Falsy(entry.1))
    && CastEntry(entry, NumericFields).Ok?
  }

  /** What `validate_obstacle` stores for an entry it accepts. */
  function ValidatedValue(entry: (string, Value)): Value
    requires EntryValid(entry)
  {
    if MaxDegreeOf(entry.0).Some? then ConvertEntry(entry).value
    else CastEntry(entry, NumericFields).value
  }

  /** A validated longitude lies within 180 degrees and a validated latitude
      within 90 degrees of zero, validated numeric fields are floats, and
      every other field keeps the value it was entered with. */
  lemma ValidatedValueFacts(entry: (string, Value))
    requires EntryValid(entry)
    ensures entry.0 == "lon" ==> ValidatedValue(entry).Num? && -180.0 <= ValidatedValue(entry).r <= 180.0
    ensures entry.0 == "lat" ==> ValidatedValue(entry).Num? && -90.0 <= ValidatedValue(entry).r <= 90.0
    ensures entry.0 in NumericFields ==> ValidatedValue(entry).Num?
    ensures !Rewritten(entry.0) ==> ValidatedValue(entry) == entry.1
  {
    FieldClassesDisjoint();
  }

  /** `validate_obstacle` accepts a record exactly when every entry is valid
      on its own, and then each entry holds its validated value: the three
      passes over the record act entry by entry. */
  lemma ValidateObstacleEntrywise(data: Record)
    ensures ValidateObstacle(data).Ok? <==> forall i :: 0 <= i < |data| ==> EntryValid(data[i])
    ensures ValidateObstacle(data).Ok? ==>
              forall i :: 0 <= i < |data| ==> ValidateObstacle(data).value[i] == (data[i].0, ValidatedValue(data[i]))
  {
    var conv := ConvertCoordinates(data);
    if conv.Ok? {
      var converted := conv.value;
      forall i | 0 <= i < |data|
        ensures EntryValid(data[i]) <==>
                  && (converted[i].0 !in RequiredFields || !Falsy(converted[i].1))
                  && CastEntry(converted[i], NumericFields).Ok?
        ensures EntryValid(data[i]) ==> ValidatedValue(data[i]) == CastEntry(converted[i], NumericFields).value
      {
        EntryStages(data[i]);
      }
    } else {
      var k :| 0 <= k < |data| && !ConvertEntry(data[k]).Ok?;
      assert !EntryValid(data[k]);
    }
  }

  /** One entry through the three passes: valid exactly when each pass
      accepts what the previous one produced. */
  lemma EntryStages(entry: (string, Value))
    ensures EntryValid(entry) <==>
              && ConvertEntry(entry).Ok?
              && (entry.0 !in RequiredFields || !Falsy(ConvertEntry(entry).value))
              && CastEntry((entry.0, ConvertEntry(entry).value), NumericFields).Ok?
    ensures EntryValid(entry) ==>
              ValidatedValue(entry) == CastEntry((entry.0, ConvertEntry(entry).value), NumericFields).value
  {
    FieldClassesDisjoint();
  }

  /** The passes run in order and stop at the first failure: a coordinate
      error is reported even when a required field is also empty, an empty
      required field even when a numeric field is also malformed, and a
      failed cast only when both earlier passes accepted the record. */
  lemma ValidateObstacleFirstFailure(data: Record)
    ensures ConvertCoordinates(data).Err? ==>
              ValidateObstacle(data) == Err(Wrap(ConvertCoordinates(data).error))
    ensures ConvertCoordinates(data).Ok? && CheckEmpty(ConvertCoordinates(data).value, RequiredFields).Err? ==>
              ValidateObstacle(data) == Err(ValueError(CheckEmpty(ConvertCoordinates(data).value, RequiredFields).error))
    ensures && ConvertCoordinates(data).Ok? && CheckEmpty(ConvertCoordinates(data).value, RequiredFields).Ok?
            && CastToFloat(ConvertCoordinates(data).value, NumericFields).Err? ==>
              ValidateObstacle(data) == Err(Wrap(CastToFloat(ConvertCoordinates(data).value, NumericFields).error))
  {
    if ConvertCoordinates(data).Ok? {
      var converted := ConvertCoordinates(data).value;
      var c := CheckEmpty(converted, RequiredFields);
      if c.Err? {
        var k :| 0 <= k < |converted| && c.error == MissingRequiredValueError(converted[k].0);
      }
    }
  }
}
