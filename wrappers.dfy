/** Optional values, for the places where the source returns `undefined` or a call may fail. */
module Wrappers {

  datatype Option<+T> = None | Some(value: T)

}
