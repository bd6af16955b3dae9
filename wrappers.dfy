/** The optional value used where the modelled code returns `None` or an attribute may be missing. */
module Wrappers {

  datatype Option<+T> = None | Some(value: T)
}
