/** The Some/None datatype used for values that may be absent: a JSON key that
    is missing from a website entry, or a string that does not parse. */
module Wrappers {

  datatype Option<+T> = None | Some(value: T)
}
