/** Python's `None`-or-value, used for `current_category` and for optional JSON keys. */
module Wrappers {

  datatype Option<+T> = None | Some(value: T)
}
