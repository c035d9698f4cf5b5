/** Optional values; `None` stands for SQL NULL wherever a column is nullable. */
module Wrappers {
  datatype Option<+T> = None | Some(value: T)
}
