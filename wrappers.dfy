/** The optional value used for "absent" results (std::optional, a missing key). */
module Wrappers {

  datatype Option<+T> = None | Some(value: T)
}
