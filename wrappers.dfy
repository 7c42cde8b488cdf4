/** The failure-carrying result type used wherever the modelled code raises
    an exception, panics or returns an absent value. */
module Wrappers {

  datatype Option<+T> = None | Some(value: T)
}
