/** The optional value used for the validator's "null or message" results. */
module Wrappers {

  datatype Option<+T> = None | Some(value: T)
}
