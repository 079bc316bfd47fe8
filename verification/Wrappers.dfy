/** The Option type that stands for the source's nullable pointers and addresses. */
module Wrappers {
  datatype Option<+T> = None | Some(value: T)
}
