/** Error values and failure-carrying results shared by the URL-shortener model.
    Error texts of the service are not modelled; each failure is one variant. */
module Wrappers {

  /** The failures the core can report. */
  datatype Error =
    | InvalidCharacter  // a token character outside the base-62 alphabet
    | EmptyURL          // the original URL given to the service is empty
    | DuplicateKey      // a link with the same code is already stored
    | NotFound          // no link is stored under the code
    | QueueFull         // the bounded visit queue has no room left

  /** A value, or the error that prevented it (Go's `(T, error)` pair). */
  datatype Result<T> = Ok(value: T) | Err(error: Error)

  /** The outcome of an operation that returns only an `error`. */
  datatype Outcome = Pass | Fail(error: Error)

  /** An optional value. */
  datatype Option<T> = None | Some(value: T)
}
