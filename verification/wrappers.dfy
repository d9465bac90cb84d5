/** Failure-carrying datatypes shared by the other modules. */
module Wrappers {

  /** A value that may be missing: a null `NotePtr`, a skipped line, a failed scan. */
  datatype Option<+T> = None | Some(value: T)

  /** A value or the reason it could not be produced (a thrown exception in the program). */
  datatype Result<+T, +E> = Success(value: T) | Failure(error: E)
}
