/** An optional value (flow's Optional<T>, std::optional, a null Reference). */
module Wrappers {
  datatype Option<+T> = None | Some(value: T)
}
