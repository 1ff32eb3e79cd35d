/** A small Option type used wherever the C++ code returns a null pointer,
    a -1 index or a `false` flag together with an out-parameter. */
module Wrappers {

  datatype Option<T> = None | Some(value: T)

}
