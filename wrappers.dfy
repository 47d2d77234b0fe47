/** The optional value every repository call yields: a row or listing, or nothing
    when the statement failed and the failure was caught. */
module Wrappers {

  datatype Option<+T> = None | Some(value: T)
}
