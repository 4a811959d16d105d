/** Missing values. A pandas NaN / NaT / Python None becomes `None`. */
module Wrappers {

  datatype Option<+T> = None | Some(value: T)
}
