/** Optional values, used for searches that may find nothing and for a
    poll that may not have stopped yet. */
module Wrappers {

  datatype Option<+T> = None | Some(value: T)
}
