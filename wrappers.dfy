/** The optional value used for Java's null results and for thrown exceptions. */
module Wrappers {
  datatype Option<+T> = None | Some(value: T)
}
