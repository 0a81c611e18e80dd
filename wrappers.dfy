/** The optional value used for a missing (NaN) cell or an undefined result. */
module Wrappers {

  datatype Option<+T> = None | Some(value: T)
}
