/** Optional and failure-carrying values, used for JavaScript's `undefined`/`null` and for thrown errors. */
module Wrappers {

  /** `None` stands for JavaScript's `undefined` or `null`. */
  datatype Option<T> = None | Some(value: T)

  /** `Err` stands for an exception that ends the JavaScript computation. */
  datatype Result<T, E> = Ok(value: T) | Err(error: E)
}
