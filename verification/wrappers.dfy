/** The optional value used wherever the source returns `None` or lets a parse fail. */
module Wrappers {

  datatype Option<+T> = None | Some(value: T)
}
