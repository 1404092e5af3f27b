/** The optional value used where the scripts return None or a regex fails to match. */
module Wrappers {

  datatype Option<+T> = None | Some(value: T)
}
