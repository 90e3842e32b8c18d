/** A value that may be absent: a request-body field that was not sent, or a
    schema cast that did not produce a storable value. */
module Wrappers {
  datatype Option<+T> = None | Some(value: T)
}
