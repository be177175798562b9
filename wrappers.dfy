// Optional values, standing for the null shared pointers the broker returns
// when a registry lookup finds nothing.
module Wrappers {
  datatype Option<T> = None | Some(value: T)
}
