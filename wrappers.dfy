/** The optional value used for `std::optional` fields and nullable results. */
module Wrappers {

  datatype Option<T> = None | Some(value: T)
}
