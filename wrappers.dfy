/** Option, used for Java references that may be null and for parsers that may fail. */
module Wrappers {

  datatype Option<+T> = None | Some(value: T)
}
