/** Optional values: the model's stand-in for a Python step that either
    yields a value or raises (and is caught, or aborts the run). */
module Wrappers {

  datatype Option<+T> = None | Some(value: T)
}
