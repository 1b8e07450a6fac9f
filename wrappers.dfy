/** The optional value used for a metric that was not found or could not be decoded. */
module Wrappers {
  datatype Option<+T> = None | Some(value: T)
}
