/** The conventional optional-value datatype, used for "no boundary found"
    and for a chunk or delta whose field is absent. */
module Wrappers {

  datatype Option<+T> = None | Some(value: T)
}
