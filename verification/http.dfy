/**
 * The pieces of the web framework the route depends on: response
 * statuses and the outcome of a request or data guard.
 */
module Http {

  import opened Wrappers

  /** Response statuses: 200, 400, 401, 422 and 500. */
  datatype Status = Ok | BadRequest | Unauthorized | UnprocessableEntity | InternalServerError

  /** What a guard produces: a value, or a failure status (the error payload is `()` throughout). */
  datatype Outcome<+T> = Success(value: T) | Error(status: Status)

  /**
   * All values of one request header, in the order received. A missing
   * header has no values.
   */
  type HeaderValues = seq<string>

  /** `get_one`: the first value of a header, if any. */
  function GetOne(values: HeaderValues): (r: Option<string>)
    ensures r.None? <==> values == []
    ensures r.Some? ==> r.value == values[0]
  {
    if values == [] then None else Some(values[0])
  }
}
