/** Optional values and results with an error, used wherever the route reads a
    JSON field that may be absent or can throw. */
module Wrappers {

  /** A JSON field that is present (`Some`) or absent / `undefined` (`None`). */
  datatype Option<+T> = None | Some(value: T)

  /** The outcome of a step that either yields a value or throws. */
  datatype Result<+T, +E> = Ok(value: T) | Err(error: E)
}
