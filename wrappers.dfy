/** The optional value used for JavaScript's `null`/`undefined` and for a
    number that did not parse. */
module Wrappers {

  datatype Option<+T> = None | Some(value: T)
}
