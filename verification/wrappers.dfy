/** The optional value used wherever the code returns `null`, `undefined`
    or a failed regular-expression match. */
module Wrappers {

  datatype Option<+T> = None | Some(value: T)
}
