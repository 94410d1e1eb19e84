/** The Option type used for pandas' missing (NaN) cells and for parses that can fail. */
module Wrappers {

  datatype Option<+T> = None | Some(value: T)

}
