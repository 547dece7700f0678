module Wrappers {

  /** `std::optional`, and a pointer that may be null. */
  datatype Option<+T> = None | Some(value: T)
}
