/** The nullable slots of the stores (`T | null` in the source) as an option value. */
module Wrappers {
  datatype Option<+T> = None | Some(value: T)
}
