/** Option and Result values standing in for Go's nil pointers and
    `(value, error)` returns. */
module Wrappers {

  datatype Option<+T> = None | Some(value: T)

  /** `Err` carries the stage that failed; the Go error text is not modelled. */
  datatype Result<+T> = Ok(value: T) | Err(reason: string)
}
