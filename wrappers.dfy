/** Absence of a value: the model's stand-in for Java's `null` and for a caught exception. */
module Wrappers {

  datatype Option<+T> = None | Some(value: T)
}
