/** Failure-carrying values shared by the modules of this model. */
module Wrappers {

  /** A value that may be missing: SQL NULL, a pandas NaN/None, a missing dict key. */
  datatype Option<+T> = None | Some(value: T)

  /** The outcome of a step that can raise in the import script or the statistics view. */
  datatype Result<+T, +E> = Success(value: T) | Failure(error: E)
}
