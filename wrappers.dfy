/** The optional-value datatype used for the parser's all-or-nothing outcome. */
module Wrappers {

  datatype Option<+T> = None | Some(value: T)
}
