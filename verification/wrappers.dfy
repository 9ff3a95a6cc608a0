/** The "value or nothing" type used for JavaScript's null results. */
module Wrappers {

  datatype Option<+T> = None | Some(value: T)
}
