/** The JSON error body `ApiErrorResponse` and its compact constructor,
    which fills in a missing timestamp and a missing error list. */
module ApiErrors {
  import opened Wrappers
  import opened Framework

  /** One entry of the `errors` list. */
  datatype FieldValidationError = FieldValidationError(field: string, message: string, rejectedValue: JValue)

  /** A constructed error body; `timestamp` is an `Instant` as a count of
      time units since the epoch. */
  datatype ApiErrorResponse = ApiErrorResponse(
    timestamp: int,
    status: int,
    error: string,
    message: string,
    path: string,
    errors: seq<FieldValidationError>)

  /** The canonical constructor: a `null` timestamp becomes `now`, a `null`
      list becomes the empty list, a given list is copied in order, and the
      other components are stored as given. */
  function NewApiErrorResponse(
    timestamp: Option<int>, status: int, error: string, message: string, path: string,
    errors: Option<seq<FieldValidationError>>, now: int): (r: ApiErrorResponse)
    ensures timestamp.Some? ==> r.timestamp == timestamp.value
    ensures timestamp.None? ==> r.timestamp == now
    ensures errors.None? ==> r.errors == []
    ensures errors.Some? ==> |r.errors| == |errors.value| && forall i :: 0 <= i < |r.errors| ==> r.errors[i] == errors.value[i]
    ensures r.status == status && r.error == error && r.message == message && r.path == path
  {
    ApiErrorResponse(
      timestamp.GetOr(now), status, error, message, path,
      if errors.Some? then errors.value else [])
  }

  /** Normalising is idempotent: rebuilding a body from its own components
      gives the same body, whatever the clock says. */
  lemma NormalisationIdempotent(
    timestamp: Option<int>, status: int, error: string, message: string, path: string,
    errors: Option<seq<FieldValidationError>>, now: int, later: int)
    ensures var r := NewApiErrorResponse(timestamp, status, error, message, path, errors, now);
      NewApiErrorResponse(Some(r.timestamp), r.status, r.error, r.message, r.path, Some(r.errors), later) == r
  {
  }

  /** The members Jackson writes: every component is non-null after
      construction, so all appear except `errors`, which `NON_EMPTY` drops
      when the list is empty. */
  function JsonFields(r: ApiErrorResponse): (fields: set<string>)
    ensures {"timestamp", "status", "error", "message", "path"} <= fields
    ensures "errors" in fields <==> |r.errors| > 0
  {
    {"timestamp", "status", "error", "message", "path"} + (if |r.errors| > 0 then {"errors"} else {})
  }
}
