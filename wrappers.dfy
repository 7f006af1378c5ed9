/** A value that may be missing: a DOM lookup that returned null, an absent
    attribute, or a field that passed validation and so has no message. */
module Wrappers {
  datatype Option<+T> = None | Some(value: T)
}
