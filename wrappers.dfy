/** The outcome of an operation that can raise instead of returning a value. */
module Wrappers {

  datatype Option<T> = None | Some(value: T)
}
