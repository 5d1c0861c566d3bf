/** Option and Result, the failure channels of the map's lookups. */
module Wrappers {

  /** An optional value: an absent key is `None`, the null pointer `find` returns in Map.h. */
  datatype Option<+T> = None | Some(value: T)

  /** The one error the map signals: indexing a key that is not stored. */
  datatype Error = KeyNotFound

  /** The outcome of an operation that either yields a value or fails. */
  datatype Result<+T> = Ok(value: T) | Err(error: Error)
}
