/** Values that JavaScript represents as null or undefined. */
module Basics {
  datatype Option<T> = None | Some(value: T)
}
