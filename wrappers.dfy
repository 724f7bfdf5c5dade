/** The optional value used wherever the source either produces a value or
    signals its absence (a failed parse, a missing marker, no selection). */
module Wrappers {

  datatype Option<+T> = None | Some(value: T)
}
