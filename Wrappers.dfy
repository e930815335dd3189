/** Option and Result, the usual failure-compatible wrappers, and the Python
    exceptions that the modelled code can raise. */
module Wrappers {

  /** A value that may be absent; `None` stands for pandas' NaN. */
  datatype Option<+T> = None | Some(value: T)

  /** The outcome of a computation that may raise. */
  datatype Result<+T, +E> = Ok(value: T) | Err(error: E)

  /** The Python exceptions that escape from the modelled functions. */
  datatype Failure =
    | IndexError      // a sequence index out of range, e.g. `addr_components[2]`
    | TypeError       // a string operation applied to NaN
    | AttributeError  // a column looked up on a DataFrame that has no columns
    | KeyError        // a DataFrame column that does not exist
}
