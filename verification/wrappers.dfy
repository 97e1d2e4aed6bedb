/** The optional-value datatype used wherever the source signals "absent"
    with std::string::npos, -1 or a caught exception. */
module Wrappers {

  datatype Option<+T> = None | Some(value: T)
}
