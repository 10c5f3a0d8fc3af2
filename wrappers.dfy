/** Optional values, for the outcomes of the run's external collaborators. */
module Wrappers {
  datatype Option<+T> = None | Some(value: T)
}
