/** Optional values and the exceptions the scripts raise, as values. */
module Wrappers {

  datatype Option<T> = None | Some(value: T)

  /** The Python exception classes raised by the modelled operations. */
  datatype Error =
    | ValueError          // a referenced strip is absent
    | FileNotFoundError   // a media path does not exist
    | RuntimeError        // the cut found no middle fragment
    | IndexError          // `[...][0]` on an empty list (merge found no meta strip)
    | ReferenceError      // a Python reference to a strip the host already deleted

  /** The outcome of an operation that either returns a value or raises. */
  datatype Result<T> = Ok(value: T) | Err(error: Error)
}
