/** The optional value used for the page's nullable state and for replies
    that may be missing. */
module Wrappers {
  datatype Option<T> = None | Some(value: T)
}
