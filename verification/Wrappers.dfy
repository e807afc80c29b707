/** The optional value that stands for a nullable pointer or an absent result. */
module Wrappers {
  datatype Option<+T> = None | Some(value: T)
}
