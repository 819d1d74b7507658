/**
  The exceptions the obstacle-record transformations raise, and the result
  type that carries them in place of Python's `raise`.
 */
module Errors {
  import opened Values

  /** Every exception kind the modelled code raises or lets escape. */
  datatype Error =
    /** Bad DMS text; `column` names the offending column when the obstacle
        validator re-raises it, and is None when the converter raises it. */
    | CoordinateError(column: Option<string>)
      /** A required obstacle field holds a falsy value. */
    | MissingRequiredValueError(field: string)
      /** A numeric obstacle field does not parse as a number. */
    | NumberExpectedError(field: string)
      /** No project layer has the required name. */
    | NoLayersError(layer: string)
      /** A required layer is duplicated or has the wrong provider. */
    | LayerError(layer: string)
      /** The database could not be reached (the connection is not modelled). */
    | DBConnectionError
      /** A dict or column lookup of a key that is not there. */
    | KeyError(key: Value)
      /** Indexing past the end of a string. */
    | IndexError
      /** An operation applied to a value of the wrong type (`None[-1]`, `float(None)`). */
    | TypeError
      /** A string method called on a non-text cell (`nan.split("-")`). */
    | AttributeError
      /** The ValueError of unpacking a split into the wrong number of names. */
    | UnpackError
      /** The ValueError of `int()` on text that is not an integer literal. */
    | NotAnInteger
      /** The ValueError of assigning a whole frame to one column, which
          `df[col] = df.apply(f, axis=1)` raises on a frame with no rows. */
    | EmptyApplyError
      /** The ValueError `validate_obstacle` wraps around a validation failure. */
    | ValueError(cause: Error)

  datatype Result<+T> = Ok(value: T) | Err(error: Error) {
    predicate IsFailure() {
      Err?
    }

    function PropagateFailure<U>(): Result<U>
      requires Err?
    {
      Err(error)
    }

    function Extract(): T
      requires Ok?
    {
      value
    }
  }

  /** Applies `f` to every element in order; the first failure aborts the
      whole run, as an exception raised inside `DataFrame.apply` does. */
  function MapResult<A, B>(xs: seq<A>, f: A -> Result<B>): (r: Result<seq<B>>)
    ensures r.Ok? <==> forall i :: 0 <= i < |xs| ==> f(xs[i]).Ok?
    ensures r.Ok? ==> |r.value| == |xs|
    ensures r.Ok? ==> forall i :: 0 <= i < |xs| ==> r.value[i] == f(xs[i]).value
    ensures r.Err? ==>
      exists k :: 0 <= k < |xs| && f(xs[k]).Err? && r.error == f(xs[k]).error
                  && forall j :: 0 <= j < k ==> f(xs[j]).Ok?
  {
    if |xs| == 0 then Ok([])
    else
      match f(xs[0])
      case Err(e) => Err(e)
      case Ok(y) =>
        match MapResult(xs[1..], f)
        case Err(e) =>
          var k :| 0 <= k < |xs[1..]| && f(xs[1..][k]).Err? && e == f(xs[1..][k]).error
                   && forall j :: 0 <= j < k ==> f(xs[1..][j]).Ok?;
          assert forall j :: 0 <= j < k + 1 ==> f(xs[j]).Ok? by {
            forall j | 0 <= j < k + 1 ensures f(xs[j]).Ok? {
              if j > 0 { assert xs[j] == xs[1..][j - 1]; }
            }
          }
          Err(e)
        case Ok(ys) =>
          assert forall i :: 1 <= i < |xs| ==> xs[i] == xs[1..][i - 1];
          Ok([y] + ys)
  }
}
