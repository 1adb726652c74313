/** Small value wrappers shared by every module of the stop registry model. */
module Wrappers {

  /** A value that may be absent: a SQL NULL, a JSON null or a missing key. */
  datatype Option<+T> = None | Some(value: T)

  /**
   * What an endpoint answers.
   * - Payload: a JSON document with the given HTTP status.
   * - Message: the `{'message': ...}` documents the endpoints return, for errors and notices alike.
   * - NoBody: the handler fell off its end and returned nothing (a JSON `null` with that status).
   * - Crashed: an uncaught Python exception, which the web framework turns into HTTP 500.
   */
  datatype Reply<+T> =
    | Payload(status: int, body: T)
    | Message(status: int, text: string)
    | NoBody(status: int)
    | Crashed

  /** A computed value, or the message of the error that stopped it. */
  datatype Result<+T> = Ok(value: T) | Err(message: string)
}
