/** Outcomes of the HTTP handlers: a value, or the status code of the `HTTPException`
    the handler raises (or of the request validation FastAPI performs first). */
module Responses {

  const BadRequest := 400
  const Unauthorized := 401
  const NotFound := 404
  const Conflict := 409
  const PayloadTooLarge := 413
  /** FastAPI's answer to a body that fails its pydantic schema. */
  const UnprocessableEntity := 422

  datatype Result<+T> = Ok(value: T) | Err(status: int)

  datatype Option<+T> = None | Some(value: T) {
    function GetOr(default: T): T {
      match this
      case Some(v) => v
      case None => default
    }
  }
}
