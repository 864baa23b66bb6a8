/** A value that may be absent: the model's stand-in for an object reference
    the games allow to be null or undefined. */
module Wrappers {
  datatype Option<+T> = None | Some(value: T)
}
