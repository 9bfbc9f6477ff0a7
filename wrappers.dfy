/** The optional values the source uses (std::optional, a null pointer, an end() iterator). */
module Wrappers {
  datatype Option<+T> = None | Some(value: T)
}
