/** Small wrapper datatypes shared by the other modules. */
module Wrappers {

  /** A value that may be absent. */
  datatype Option<+T> = None | Some(value: T)

  /** The outcome of a call into code outside the model: it returns a value or it raises. */
  datatype Outcome<+T> = Returned(value: T) | Raised
}
