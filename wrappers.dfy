/** Option and Result values used wherever the scraper either has a value or raises. */
module Wrappers {

  datatype Option<+T> = None | Some(value: T)

  /** `Err` stands for a Python exception that aborts the surrounding function. */
  datatype Result<+T, +E> = Ok(value: T) | Err(error: E)
}
