/** A missing (NaN) cell of the table, or an undefined average, is `None`. */
module Wrappers {

  datatype Option<+T> = None | Some(value: T)
}
