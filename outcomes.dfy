/** Values that stand for a JavaScript call that either returns or throws. */
module Outcomes {

  datatype Option<+T> = None | Some(value: T)

  /** The two exceptions the modelled code can raise. */
  datatype Error =
    | ReadOfUndefined   // a property read on `undefined` (TypeError)
    | NotAFunction      // a call of a property that is not a function (TypeError)

  datatype Result<+T> = Ok(value: T) | Err(error: Error)
}
