/** Optional values: JavaScript's `undefined` / `null` / "no result". */
module Wrappers {

  datatype Option<+T> = None | Some(value: T)
}
