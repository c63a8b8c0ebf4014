/** The "value or nothing" type shared by both modules: a missing tile, an
    empty slot, a NaN from parseInt, an unset port. */
module Wrappers {

  datatype Option<+T> = None | Some(value: T)
}
