/** The conventional optional value, used wherever the registry code tests
    a pointer or a success flag before using what it points to. */
module Wrappers {

  datatype Option<+T> = None | Some(value: T)
}
