/** Small failure-carrying datatypes shared by the other modules. */
module Wrappers {

  /** A value that may be absent; used for the `null` markers of the chart
      data and for "no data" summaries. */
  datatype Option<+T> = None | Some(value: T)

  /** The outcome of a step that can raise: either a value, or the text that
      made it fail. */
  datatype Result<+T> = Ok(value: T) | Err(error: string)
}
