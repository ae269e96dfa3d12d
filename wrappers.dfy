/** The optional value used for results that may be absent (a hash that could not be
    computed, an import source that could not be parsed). */
module Wrappers {

  datatype Option<+T> = None | Some(value: T)
}
