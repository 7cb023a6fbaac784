/** Stock optional-value datatype, used for the partial date parser. */
module Wrappers {

  datatype Option<+T> = None | Some(value: T)
}
