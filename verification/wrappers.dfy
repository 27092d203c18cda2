/** The absent-or-present value used for a bracket slot that may hold no opponent,
    and for an alert that may or may not be raised. */
module Wrappers {

  datatype Option<+T> = None | Some(value: T)
}
