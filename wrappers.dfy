/** The conventional optional-value datatype, used by the parsers that invert the display texts. */
module Wrappers {

  datatype Option<+T> = None | Some(value: T)
}
