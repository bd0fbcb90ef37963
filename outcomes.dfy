/** Option and Result: the outcome of a step that may have no value or may fail.
    A failure carries the JavaScript error's `message`, which is what the
    converter shows to the user. */
module Outcomes {

  datatype Option<+T> = None | Some(value: T)

  datatype Result<+T> = Ok(value: T) | Err(msg: string)
}
