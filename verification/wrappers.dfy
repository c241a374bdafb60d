/** The usual optional-value datatype: a query parameter that may be absent,
    a file that may be unreadable, a number that may fail to parse. */
module Wrappers {

  datatype Option<+T> = None | Some(value: T)
}
