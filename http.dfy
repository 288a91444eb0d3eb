/** What a route handler answers: a status code with either the JSON value
    it returns or the `{ error }` message it reports. */
module Http {
  datatype Response<T> = Success(status: int, value: T) | Failure(status: int, error: string)

  const OK: int := 200
  const CREATED: int := 201
  const BAD_REQUEST: int := 400
  const UNAUTHORIZED: int := 401
  const FORBIDDEN: int := 403
  const NOT_FOUND: int := 404
  const CONFLICT: int := 409
}
