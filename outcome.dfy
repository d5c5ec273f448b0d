/** The error kinds the model reports where the source panics or never
    returns, and the optional values its scanners produce. */
module Outcome {

  datatype Error =
    | MalformedComment  // the block-comment loop of RemoveComments would never end
    | UnclosedStruct    // FindStructBlock's closing slice would be out of range

  datatype Result<T> = Ok(value: T) | Err(error: Error)

  datatype Option<T> = None | Some(value: T)
}
