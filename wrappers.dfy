/** Optional values, the model's stand-in for C# `null` and `Nullable<T>`. */
module Wrappers {
  datatype Option<T> = None | Some(value: T)
}
