/** Failure-carrying values shared by the rest of the model: an optional
    value (Python's `X | None`) and a success-or-error result (a return
    value or a raised exception). */
module Outcomes {

  datatype Option<+T> = None | Some(value: T)

  datatype Result<+T, +E> = Ok(value: T) | Err(error: E)
}
