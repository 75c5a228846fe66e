/** The response envelopes shared by every layer of the directory: the
    `{ success, message, data, count }` object the services return and the
    `(status, body)` pair the HTTP handlers send. */
module Envelope {

  datatype Option<+T> = None | Some(value: T)

  /** Document identifiers.  The store hands them out; they are opaque
      to every caller. */
  type Id = nat

  /** The `{ success, message?, data?, count? }` object. */
  datatype Result<+T> = Result(success: bool, message: Option<string>, data: Option<T>, count: Option<nat>)

  /** A failure carrying only a message. */
  function Failure<T>(message: string): Result<T>
  {
    Result(false, Some(message), None, None)
  }

  /** A success carrying one document and, optionally, a message. */
  function Single<T>(message: Option<string>, data: T): Result<T>
  {
    Result(true, message, Some(data), None)
  }

  /** A success carrying a list and its length. */
  function Listing<T>(data: seq<T>): Result<seq<T>>
  {
    Result(true, None, Some(data), Some(|data|))
  }

  /** A success carrying only a message. */
  function Done<T>(message: string): Result<T>
  {
    Result(true, Some(message), None, None)
  }

  /** How a service call ends: the object it returns, or the error it
      throws (whose text is the service's prefix; the store's own message
      that follows it is not modelled). */
  datatype Outcome<+T> = Returned(result: Result<T>) | Threw(error: string)

  /** What an HTTP handler sends: a status code and a JSON body. */
  datatype Reply<+T> = Reply(status: nat, body: Result<T>)

  const OK: nat := 200
  const CREATED: nat := 201
  const BAD_REQUEST: nat := 400
  const NOT_FOUND: nat := 404
  const SERVER_ERROR: nat := 500
}
