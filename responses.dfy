/**
 * What the three response types of the schema share: the HTTP status they
 * report and the reason string of their `Error` variant.
 */
module Responses {
  import opened Wrappers
  import opened Mongo

  /** An HTTP status code. */
  datatype StatusCode = StatusCode(code: nat)

  /** `StatusCode::OK`. */
  const OK: StatusCode := StatusCode(200)

  /** `StatusCode::INTERNAL_SERVER_ERROR`. */
  const InternalServerError: StatusCode := StatusCode(500)

  /** The `type` discriminant every `Error { reason }` variant serializes with. */
  const ErrorTag: string := "error"

  /**
   * The `reason` of a failure response: the error's custom message when it
   * carries one, otherwise the description of its kind.
   */
  function Reason(e: DriverError): (reason: string)
    ensures e.custom.Some? ==> reason == e.custom.value
    ensures e.custom.None? ==> reason == e.kind
  {
    e.custom.GetOr(e.kind)
  }
}
