/** The optional value a translation either produces or withholds. */
module Wrappers {

  datatype Option<+T> = None | Some(value: T)
}
