/** Optional values: the model's stand-in for C#'s nullable types (`int?`, `DateTime?`, `string?`). */
module Wrappers {

  datatype Option<+T> = None | Some(value: T)
}
