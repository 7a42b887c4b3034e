/** The usual optional value, for Python's `None` results and absent attributes. */
module Opt {
  datatype Option<+T> = None | Some(value: T)
}
