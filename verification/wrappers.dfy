/** The optional result the source expresses with std::optional and std::string::npos. */
module Wrappers {

  datatype Option<+T> = None | Some(value: T)

}
