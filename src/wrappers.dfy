// Option and Result values shared by the whole model.  A JavaScript
// `undefined`/`null` becomes None; a thrown Error becomes Err(message).

module Wrappers {

  datatype Option<T> = None | Some(value: T)

  datatype Result<T> = Ok(value: T) | Err(error: string)

  /** The end of a call that returns nothing: normal return, or a throw. */
  datatype Outcome = Pass | Fail(error: string)
}
