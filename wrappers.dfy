/** The optional value used for a yield cell that may be missing (NaN in the table). */
module Wrappers {

  datatype Option<+T> = None | Some(value: T)
}
