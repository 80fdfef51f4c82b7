/** Shared result types: an optional value, and the outcome of a call that can fail. */
module Basics {
  datatype Option<+T> = None | Some(value: T)

  /** The error values the application distinguishes (apperrors plus the service's own errors). */
  datatype AppError =
    | Invalid
    | NotFound
    | Conflict
    | Forbidden
    | Catalog        // the show catalog failed
    | Storage        // a driver or transport error
    | AlreadyExists  // a user with that email exists

  datatype Outcome<+T> = Ok(value: T) | Err(error: AppError)

  datatype Unit = Unit

  /** An 8-bit byte, for text whose length the source measures in bytes. */
  newtype byte = x: int | 0 <= x < 256
}
