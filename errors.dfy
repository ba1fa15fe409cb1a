/** Outcomes shared by the whole service: an optional value, and the result of a
    request handler, which is either a value or one of the service's error kinds. */
module Errors {

  datatype Option<+T> = None | Some(value: T)

  /** The error kinds a handler reports: a referenced entity does not exist, the
      request breaks a rule of the data model, the API key is wrong, or a stored
      value makes the handler fail unexpectedly (a server error). */
  datatype Error = NotFound | Validation | Forbidden | Internal

  datatype Result<+T> = Ok(value: T) | Err(error: Error)
}
