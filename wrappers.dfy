/** Failure-compatible wrapper used wherever the C code returns NULL or false for "no result". */
module Wrappers {

  datatype Option<+T> = None | Some(value: T)

}
