/** Optional values: a request parameter that may be absent or may fail to
    parse, a record field that may be missing. */
module Wrappers {

  datatype Option<+T> = None | Some(value: T)
}
