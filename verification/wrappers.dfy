/** Failure-carrying values shared by the whole model. */
module Wrappers {

  /** A value that may be absent: Python's `None`, or a missing table cell. */
  datatype Option<+T> = None | Some(value: T)

  /** The Python exceptions the modelled scripts raise on the paths the model covers. */
  datatype PyError =
    | IndexError         // a list index past the end (`split(...)[2]`, `most_common(1)[0]`)
    | TypeError          // `None + str` after a failed `dict.get`
    | UnboundLocalError  // a local returned that no branch assigned

  /** The outcome of a computation that may raise. */
  datatype Result<+T> = Ok(value: T) | Err(error: PyError)
}
