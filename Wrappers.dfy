/** Option and result types used across the account model. */
module Wrappers {

  /** An optional value; `None` stands for Ruby's `nil`. */
  datatype Option<+T> = None | Some(value: T)

  /** Either a value or the error that prevented producing it. */
  datatype Result<+R, +E> = Ok(value: R) | Err(error: E)
}
