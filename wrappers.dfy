// Option, the model's form of `std::optional` and of a null pointer.

module Wrappers {
  datatype Option<+T> = None | Some(value: T)
}
