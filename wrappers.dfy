/** Optional values: a database row that may be missing, a nullable column, a
    library call that may fail. */
module Wrappers {

  datatype Option<+T> = None | Some(value: T)
}
