/** An optional value, shared by the model's modules. */
module Wrappers {

  /** A value that may be absent: a failed serialization, a missing match. */
  datatype Option<+T> = None | Some(value: T)
}
