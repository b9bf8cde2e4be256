/** The optional value used wherever the modelled Python code returns `None`
    or reads a dictionary key that may be absent. */
module Wrappers {

  datatype Option<+T> = None | Some(value: T)
}
