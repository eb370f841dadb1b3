/** The optional value the page scripts get back from an out-of-range index
    or an unmatched lookup (JavaScript's `undefined`). */
module Wrappers {

  datatype Option<+T> = None | Some(value: T)
}
