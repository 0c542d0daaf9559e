/** The optional value used wherever the dashboard falls back to a sentinel:
    an age that could not be derived, a date field that did not parse. */
module Wrappers {

  datatype Option<+T> = None | Some(value: T)
}
