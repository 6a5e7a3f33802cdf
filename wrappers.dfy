/** SQL NULL and JavaScript's null/undefined are modelled as None. */
module Wrappers {

  datatype Option<+T> = None | Some(value: T)
}
