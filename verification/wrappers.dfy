/** Failure-carrying wrappers shared by the whole model: `Option` stands for a
    nullable reference or a missing dictionary entry, `Result` for a call that
    either returns a value or throws. */
module Wrappers {

  datatype Option<+T> = None | Some(value: T)

  datatype Result<+T, +E> = Ok(value: T) | Err(error: E)
}
