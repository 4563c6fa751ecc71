/** Optional values, shared by the table lookup and the decision rules. */
module Wrappers {

  datatype Option<T> = None | Some(value: T)
}
