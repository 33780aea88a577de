/** The nullable value of a table cell: `None` is a missing (NaN) entry. */
module Wrappers {

  datatype Option<+T> = None | Some(value: T)
}
