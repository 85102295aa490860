/** The optional value used for nullable columns, optional form fields and the browser session. */
module Wrappers {

  datatype Option<T> = None | Some(value: T)
}
