/** The optional value the source spells `Option<T>`. */
module Wrappers {
  datatype Option<+T> = None | Some(value: T)
}
