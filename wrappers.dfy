/** The optional value used wherever the dashboard's table can hold a missing cell
    (pandas' NaN) or a selection can be absent (Python's None). */
module Wrappers {

  datatype Option<+T> = None | Some(value: T)
}
