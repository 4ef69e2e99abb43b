/** The optional value used wherever the converter reads a field that may be
    absent (`undefined`/`null` in the original) or a match that may fail. */
module Wrappers {

  datatype Option<+T> = None | Some(value: T)
}
