/** The Some/None datatype used for lookups that can miss and for parsers that can fail. */
module Wrappers {

  datatype Option<+T> = None | Some(value: T)
}
