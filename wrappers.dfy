/** Optional values: the model's stand-in for C# nullable parameters and `null` references. */
module Wrappers {

  datatype Option<+T> = None | Some(value: T)
}
