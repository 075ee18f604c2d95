/** What every controller action receives and returns: the authenticated
    caller taken from the bearer token, and the HTTP outcome. */
module Api {
  import opened Schema

  /** The NameIdentifier and Role claims of the caller's token. */
  datatype Caller = Caller(id: int, role: Role)

  datatype Error =
    | Forbidden                  // 403: role not admitted, or not the owner
    | NotFound(message: string)  // 404
    | BadRequest(message: string) // 400: the controller's own validation
    | ConstraintViolation        // 500: the database rejected the write

  datatype Result<T> = Ok(value: T) | Err(error: Error)

  /** The NotFound() the controllers return without a message. */
  const NoMessage := ""
}
