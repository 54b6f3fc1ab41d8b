/** Optional values: JavaScript's `undefined`/`NaN` results become `None`. */
module Wrappers {

  datatype Option<+T> = None | Some(value: T)

}
