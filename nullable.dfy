/** Java's nullable references: a value that is either absent (`null`) or present. */
module Nullable {

  datatype Option<+T> = None | Some(value: T)
}
