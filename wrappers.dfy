/** The optional value used for reads that can fail and for parsers. */
module Wrappers {

  datatype Option<T> = None | Some(value: T)
}
