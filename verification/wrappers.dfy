/** An optional value, used for the parsed quality entry and the overflow-line parse. */
module Wrappers {

  /** A value that may be absent, e.g. a quality entry that did not parse as an integer. */
  datatype Option<+T> = None | Some(value: T)
}
