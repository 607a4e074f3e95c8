/** Optional values, for what the source represents with null or a failed lookup. */
module Wrappers {

  datatype Option<+T> = None | Some(value: T)
}
