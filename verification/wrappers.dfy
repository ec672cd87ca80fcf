/** Optional values, used for "the newest log entry of a bed, if any". */
module Wrappers {

  datatype Option<+T> = None | Some(value: T)
}
