/** Optional values, used for the outcome of converting a year field to an integer. */
module Wrappers {

  datatype Option<+T> = None | Some(value: T)

}
