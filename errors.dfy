/** The error values of gncli: the module's own exception class `Error`, and the
    Python exceptions that some calls let escape uncaught. */
module Errors {

  datatype Option<+T> = None | Some(value: T)

  datatype Result<+T, +E> = Ok(value: T) | Err(error: E)

  /** The `Error` exception: a symbolic type tag, a human-readable message, and a
      payload that names the offending field or carries the backend's message. */
  datatype Error = Error(tag: string, message: string, data: map<string, string>)

  /** How a call of the module can fail: by raising its own `Error`, or by a Python
      exception it does not catch (named by its class, e.g. "AttributeError"). */
  datatype Raised = AppError(error: Error) | Uncaught(exception: string)
}
