/** The optional-value type used for the record fields that may be `None`
    and for the result of phone cleaning. */
module Wrappers {

  datatype Option<+T> = None | Some(value: T)
}
