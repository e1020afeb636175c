/** What a handler sends back: a JSON body under status 200, or an error status with its message. */
module Http {
  const BAD_REQUEST := 400
  const UNAUTHORIZED := 401
  const FORBIDDEN := 403

  datatype Reply<+T> = Ok(data: T) | Error(status: int, message: string)
}
