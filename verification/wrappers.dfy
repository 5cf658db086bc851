/** The optional value used wherever the program calls a Rust API that may
    return `None`. */
module Wrappers {

  datatype Option<+T> = None | Some(value: T)
}
