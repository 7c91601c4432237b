/**
 * Failure-carrying wrappers shared by the rest of the model: `Option` for a
 * JavaScript value that may be `undefined`, `Result` for callbacks of the
 * shape `callback(err, value)`.
 */
module Outcomes {

  datatype Option<+T> = None | Some(value: T)

  datatype Result<+R, +E> = Success(value: R) | Failure(error: E)
}
