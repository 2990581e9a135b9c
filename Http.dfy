/** The slice of Spring's HTTP vocabulary the handlers use. */
module Http {

  /** `HttpStatus` codes that the handlers answer with. */
  const OK: int := 200
  const BAD_REQUEST: int := 400
  const UNAUTHORIZED: int := 401
  const INTERNAL_SERVER_ERROR: int := 500

  /** `ResponseEntity<T>`: an HTTP status code and a body; headers are not modelled. */
  datatype ResponseEntity<+T> = ResponseEntity(status: int, body: T)
}
