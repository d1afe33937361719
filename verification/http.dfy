/** What a route handler answers: a JSON payload with status 200, or an error
    object `{ error: message }` with its status code. */
module Http {

  const BadRequest := 400
  const Conflict := 409
  const ServerError := 500

  datatype Response<+P> = Success(payload: P) | Failure(status: int, message: string)
}
