/** The optional value used for a session's login, which is `None` until login succeeds. */
module Wrappers {
  datatype Option<+T> = None | Some(value: T)
}
