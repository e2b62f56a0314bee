/** The optional-value type used for the recoverable "no result" outcomes of
    the model (checked inversion, field division) and for panics (a contract
    violation that aborts the call is `None`). */
module Wrappers {

  datatype Option<+T> = None | Some(value: T)

}
