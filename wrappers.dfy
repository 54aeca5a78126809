/** Optional values: PHP's "unset array slot / null" is `None`. */
module Wrappers {

  datatype Option<+T> = None | Some(value: T)
}
