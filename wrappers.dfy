/** Values shared by every handler model: an optional value, the outcome of a
    request handler, and a path parameter as the ObjectId check sees it. */
module Wrappers {

  datatype Option<T> = None | Some(value: T)

  /** What an Express handler produces: a success status with its payload, or
      the HTTP status carried by the ApiError it throws. */
  datatype Result<T> = Ok(status: nat, value: T) | Fail(status: nat)

  /** The outcome of a validation step inside a handler: go on with a value,
      or stop the request with a status. */
  datatype Checked<T> = Pass(value: T) | Stop(status: nat)

  const OK: nat := 200
  const CREATED: nat := 201
  const BAD_REQUEST: nat := 400
  const FORBIDDEN: nat := 403
  const NOT_FOUND: nat := 404
  const CONFLICT: nat := 409
  const TOO_MANY_REQUESTS: nat := 429
  const SERVER_ERROR: nat := 500

  /** A request id after `mongoose.Types.ObjectId.isValid`: either a well-formed
      id (modelled by a number) or a string that is not one. */
  datatype IdParam = ObjectId(id: nat) | Malformed
}
