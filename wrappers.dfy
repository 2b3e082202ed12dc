/** Option, Result and Outcome: the usual failure-carrying wrappers. */
module Wrappers {

  datatype Option<+T> = None | Some(value: T)

  datatype Result<+T, +E> = Ok(value: T) | Err(error: E)

  /** The result of a check that either passes or throws an error. */
  datatype Outcome<+E> = Pass | Fail(error: E)
}

/** The error the service throws: a message and the HTTP status it is answered with. */
module HttpErrors {

  datatype HttpError = HttpError(message: string, status: int)

  /** Every validation failure is thrown with status 400. */
  function BadRequest(message: string): HttpError
  {
    HttpError(message, 400)
  }
}
