/** Optional values, for the C# references and strings that may be null. */
module Wrappers {

  datatype Option<+T> = None | Some(value: T)
}
