/** The optional value used wherever the Python code may produce `None` or
    raise an exception that the caller catches. */
module Wrappers {

  datatype Option<+T> = None | Some(value: T)
}
