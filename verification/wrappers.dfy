/** Optional values, used where the JavaScript code returns `null` or leaves a slot `undefined`. */
module Wrappers {

  datatype Option<+T> = None | Some(value: T)

}
