/** Optional values: SQL NULL and Python's fall-through `None` are both modelled as `None`. */
module Wrappers {

  datatype Option<+T> = None | Some(value: T)

}
