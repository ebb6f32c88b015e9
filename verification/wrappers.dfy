/** Optional values: stands in for the source's `null` returns and for a
    notification that was or was not sent. */
module Wrappers {

  datatype Option<+T> = None | Some(value: T)
}
