/** Optional values: a theme that may be absent, an identifier that may fail to be generated. */
module Wrappers {

  datatype Option<+T> = None | Some(value: T)
}
