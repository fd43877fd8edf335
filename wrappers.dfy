/** Option values for results that may be absent (a solver that finds no root, a parse that fails). */
module Wrappers {
  datatype Option<+T> = None | Some(value: T)
}
