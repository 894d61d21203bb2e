/** Optional values: the model's stand-in for Python's None and for the
    '-' placeholder that a progress report shows for an unset time. */
module Wrappers {

  datatype Option<+T> = None | Some(value: T)
}
