/** Optional values: an absent result, such as Go's -1 from `strings.Index`,
    a nil error, no effect, or no destination. */
module Wrappers {

  datatype Option<+T> = None | Some(value: T)
}
