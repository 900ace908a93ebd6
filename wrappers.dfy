/** Optional values, used where the source calls `expect` or indexes a vector and
    would panic: `None` stands for that panic. */
module Wrappers {

  datatype Option<+T> = None | Some(value: T)
}
