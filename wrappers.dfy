/** Python's `None`-or-value results, as used by the normaliser and the output pass. */
module Wrappers {

  datatype Option<+T> = None | Some(value: T)
}
