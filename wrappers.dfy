/** Go's nil-able values (a `*string`, an `error` that may be nil) as an option type. */
module Wrappers {

  datatype Option<+T> = None | Some(value: T)
}
