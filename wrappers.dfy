/** The optional value used where the C code stores -1 or a sentinel for "no row" or "no column". */
module Wrappers {

  datatype Option<T> = None | Some(value: T)

}
