/** A missing value: pandas' NaN in a float column, or an absent result. */
module Wrappers {
  datatype Option<+T> = None | Some(value: T)
}
