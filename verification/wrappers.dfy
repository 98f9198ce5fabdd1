/** The Option datatype used for JavaScript's `Array.prototype.find`, which
    yields either a matching element or `undefined`. */
module Wrappers {

  datatype Option<+T> = None | Some(value: T)
}
