/** The optional value the rig uses for missing children and missing joints. */
module Wrappers {

  /** Absence is a value, never an error. */
  datatype Option<+T> = None | Some(value: T)
}
