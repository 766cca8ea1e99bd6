/** The optional values of the service: a form field or a file property that may be absent. */
module Wrappers {

  datatype Option<T> = None | Some(value: T)
}
