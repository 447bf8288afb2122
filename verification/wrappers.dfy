/** The optional value used for JavaScript's `null` results and NaN. */
module Wrappers {

  datatype Option<+T> = None | Some(value: T)
}
