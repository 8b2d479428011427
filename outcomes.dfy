/** Optional values, used wherever the Python code returns None or fails. */
module Outcomes {

  datatype Option<+T> = None | Some(value: T)

}
