/** Optional values: the model of a field that may be `null` or `undefined`. */
module Wrappers {

  datatype Option<+T> = None | Some(value: T)
}
