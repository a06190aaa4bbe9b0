/** The optional value the lexer uses for the matching engine's answer. */
module Wrappers {
  datatype Option<+T> = None | Some(value: T)
}
