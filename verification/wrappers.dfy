/** Optional values, used where `RequestAnalyzer.ts` gets `undefined`. */
module Wrappers {

  datatype Option<+T> = None | Some(value: T)
}
