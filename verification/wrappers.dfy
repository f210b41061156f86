/** Optional values used across the ingestion model. */
module Wrappers {

  datatype Option<T> = None | Some(value: T)
}
