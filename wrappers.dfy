/** The optional value used wherever the source yields `None` or may fail. */
module Wrappers {

  datatype Option<+T> = None | Some(value: T)
}
