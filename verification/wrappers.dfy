/** The optional value used for the monitor's previous-frame slot. */
module Wrappers {

  datatype Option<+T> = None | Some(value: T)
}
